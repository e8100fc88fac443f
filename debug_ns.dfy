// The namespace rules of the bundled `debug` package: `enable` turns a
// list such as `app:*,-app:noisy` into name and skip patterns, `enabled`
// consults them, and `selectColor` picks a color from a 32-bit string hash.
module DebugNamespaces {
  import opened Wrappers
  import opened JsString

  const Two32 := 0x1_0000_0000
  const Two31 := 0x8000_0000

  /** JavaScript's ToInt32: the integer congruent to `x` modulo 2^32 in
      [-2^31, 2^31). */
  function ToInt32(x: int): (r: int)
    ensures -Two31 <= r < Two31
    ensures (r - x) % Two32 == 0
  {
    (x + Two31) % Two32 - Two31
  }

  /** Numbers congruent modulo 2^32 wrap to the same value. */
  lemma ToInt32Congruent(x: int, y: int)
    requires (x - y) % Two32 == 0
    ensures ToInt32(x) == ToInt32(y)
  {
    var k := (x - y) / Two32;
    assert x == y + k * Two32;
    assert (x + Two31) % Two32 == (y + Two31) % Two32 by {
      ModMultiple(y + Two31, k);
    }
  }

  lemma ModMultiple(a: int, k: int)
    ensures (a + k * Two32) % Two32 == a % Two32
  {
    var q, r := a / Two32, a % Two32;
    assert a == q * Two32 + r;
    assert a + k * Two32 == (q + k) * Two32 + r;
  }

  /** One step of the loop: `hash = ((hash << 5) - hash) + code; hash |= 0`.
      `<<` works on the 32-bit value and wraps it, the subtraction and the
      addition are exact, and `|= 0` wraps the sum. */
  function HashStep(hash: int, c: char): (h: int)
    ensures -Two31 <= h < Two31
  {
    ToInt32(ToInt32(hash * 32) - hash + c as int)
  }

  /** The hash of a namespace, one character after the other. */
  function Hash(s: string): (h: int)
    ensures -Two31 <= h < Two31
  {
    if s == [] then 0 else HashStep(Hash(s[..|s| - 1]), s[|s| - 1])
  }

  /** The polynomial the loop computes: the character codes in base 31. */
  function Poly(s: string): int
  {
    if s == [] then 0 else 31 * Poly(s[..|s| - 1]) + s[|s| - 1] as int
  }

  /** A step is `31 * hash + code` wrapped to 32 bits. */
  lemma HashStepIs(hash: int, c: char)
    ensures HashStep(hash, c) == ToInt32(31 * hash + c as int)
  {
    var w := ToInt32(hash * 32);
    assert (w - hash * 32) % Two32 == 0;
    ToInt32Congruent(w - hash + c as int, 31 * hash + c as int);
  }

  /** The hash is Java's `String.hashCode`: the base-31 polynomial of the
      character codes, wrapped to 32 bits. */
  lemma {:induction false} HashIsPolynomial(s: string)
    ensures Hash(s) == ToInt32(Poly(s))
    decreases |s|
  {
    if s != [] {
      var init, c := s[..|s| - 1], s[|s| - 1];
      HashIsPolynomial(init);
      HashStepIs(Hash(init), c);
      var p := Poly(init);
      var w := ToInt32(p);
      assert (w - p) % Two32 == 0;
      MulCongruent(w, p, 31);
      ToInt32Congruent(31 * w + c as int, 31 * p + c as int);
    }
  }

  lemma MulCongruent(a: int, b: int, m: int)
    requires (a - b) % Two32 == 0
    ensures (m * a - m * b) % Two32 == 0
  {
    var k := (a - b) / Two32;
    assert a - b == k * Two32;
    assert m * a - m * b == (m * k) * Two32;
  }

  /** The colors for a terminal. */
  const NodeColors := [6, 2, 3, 4, 5, 1]

  function Abs(x: int): nat
  {
    if x < 0 then -x else x
  }

  /** `selectColor`: the hash's loop, then `colors[Math.abs(hash) %
      colors.length]`. */
  method SelectColor(namespace: string) returns (color: int)
    ensures color == NodeColors[Abs(Hash(namespace)) % |NodeColors|]
    ensures color in NodeColors
  {
    var hash := 0;
    var i := 0;
    while i < |namespace|
      invariant 0 <= i <= |namespace|
      invariant hash == Hash(namespace[..i])
    {
      assert namespace[..i + 1][..i] == namespace[..i];
      hash := ToInt32(ToInt32(hash * 32) - hash + namespace[i] as int);
      i := i + 1;
    }
    assert namespace[..i] == namespace;
    color := NodeColors[Abs(hash) % |NodeColors|];
  }

  /** `/[\s,]+/`: the characters that separate namespaces. */
  predicate IsSeparator(c: char)
  {
    IsWhitespace(c) || c == ','
  }

  /** The length of the run of separators at the start of `s`. */
  function SeparatorRun(s: string): (n: nat)
    ensures n <= |s|
    ensures forall k :: 0 <= k < n ==> IsSeparator(s[k])
    ensures n < |s| ==> !IsSeparator(s[n])
  {
    if s != [] && IsSeparator(s[0]) then 1 + SeparatorRun(s[1..]) else 0
  }

  /** `s.split(/[\s,]+/)`, the current piece having collected `cur`: each
      maximal run of separators ends a piece. */
  function SplitNamespaces(s: string, cur: string): (r: seq<string>)
    ensures |r| >= 1
    ensures forall k :: 0 <= k < |r| ==> forall j :: 0 <= j < |r[k]| ==> !IsSeparator(r[k][j])
    requires forall j :: 0 <= j < |cur| ==> !IsSeparator(cur[j])
    decreases |s|
  {
    if s == [] then [cur]
    else if IsSeparator(s[0]) then
      var n := SeparatorRun(s);
      [cur] + SplitNamespaces(s[n..], "")
    else SplitNamespaces(s[1..], cur + [s[0]])
  }

  /** A piece of a namespace pattern: a literal character, `*` (which
      becomes `.*?`: any run of characters but line terminators) or `.`
      (any one such character). */
  datatype Item = Lit(c: char) | AnyRun | AnyOne

  type Pattern = seq<Item>

  /** The anchored pattern `enable` builds, every `*` replaced by `.*?`, with `.` keeping its
      meaning in a regular expression. */
  function Compile(piece: string): (p: Pattern)
    ensures |p| == |piece|
    ensures forall k :: 0 <= k < |piece| ==>
              p[k] == (if piece[k] == '*' then AnyRun else if piece[k] == '.' then AnyOne else Lit(piece[k]))
  {
    seq(|piece|, k requires 0 <= k < |piece| =>
      if piece[k] == '*' then AnyRun else if piece[k] == '.' then AnyOne else Lit(piece[k]))
  }

  /** The whole of `name` matches the anchored pattern. */
  predicate Matches(p: Pattern, name: string)
    decreases |p|, |name|
  {
    if p == [] then name == []
    else match p[0]
      case Lit(c) => name != [] && name[0] == c && Matches(p[1..], name[1..])
      case AnyOne => name != [] && !IsLineTerminator(name[0]) && Matches(p[1..], name[1..])
      case AnyRun =>
        Matches(p[1..], name)
        || (name != [] && !IsLineTerminator(name[0]) && Matches(p, name[1..]))
  }

  /** A piece without wildcards matches exactly itself. */
  lemma {:induction false} LiteralMatchesItself(piece: string, name: string)
    requires forall k :: 0 <= k < |piece| ==> piece[k] != '*' && piece[k] != '.'
    ensures Matches(Compile(piece), name) <==> name == piece
    decreases |piece|
  {
    var p := Compile(piece);
    if piece != [] {
      assert p[1..] == Compile(piece[1..]);
      LiteralMatchesItself(piece[1..], if name == [] then [] else name[1..]);
      if name != [] && name[0] == piece[0] {
        assert name == [name[0]] + name[1..] && piece == [piece[0]] + piece[1..];
      }
    }
  }

  /** `*` on its own matches every name without a line terminator. */
  lemma {:induction false} StarMatchesAll(name: string)
    requires forall k :: 0 <= k < |name| ==> !IsLineTerminator(name[k])
    ensures Matches([AnyRun], name)
    decreases |name|
  {
    if name != [] {
      StarMatchesAll(name[1..]);
    }
  }

  /** `prefix*` matches the names that start with `prefix`. */
  lemma {:induction false} PrefixStar(prefix: string, rest: string)
    requires forall k :: 0 <= k < |prefix| ==> prefix[k] != '*' && prefix[k] != '.'
    requires forall k :: 0 <= k < |rest| ==> !IsLineTerminator(rest[k])
    ensures Matches(Compile(prefix + "*"), prefix + rest)
    decreases |prefix|
  {
    var p := Compile(prefix + "*");
    if prefix == [] {
      assert p == [AnyRun];
      assert prefix + rest == rest;
      StarMatchesAll(rest);
    } else {
      assert p[0] == Lit(prefix[0]);
      assert p[1..] == Compile(prefix[1..] + "*") by {
        assert (prefix + "*")[1..] == prefix[1..] + "*";
      }
      assert (prefix + rest)[1..] == prefix[1..] + rest;
      PrefixStar(prefix[1..], rest);
    }
  }

  /** The patterns one piece of the list gives: a skip for `-name`, a name
      otherwise; an empty piece gives none. */
  function NamesOf(pieces: seq<string>): (r: seq<Pattern>)
    ensures |r| <= |pieces|
  {
    if pieces == [] then []
    else
      var init, last := pieces[..|pieces| - 1], pieces[|pieces| - 1];
      NamesOf(init) + (if last == "" || last[0] == '-' then [] else [Compile(last)])
  }

  function SkipsOf(pieces: seq<string>): (r: seq<Pattern>)
    ensures |r| <= |pieces|
  {
    if pieces == [] then []
    else
      var init, last := pieces[..|pieces| - 1], pieces[|pieces| - 1];
      SkipsOf(init) + (if last != "" && last[0] == '-' then [Compile(last[1..])] else [])
  }

  /** The pieces `enable` reads from its argument; anything but a string
      counts as "". */
  function Pieces(namespaces: Option<string>): seq<string>
  {
    SplitNamespaces(namespaces.GetOr(""), "")
  }

  /** `enabled`'s answer: no skip matches and some name does. */
  predicate IsEnabled(names: seq<Pattern>, skips: seq<Pattern>, name: string)
  {
    (forall k :: 0 <= k < |skips| ==> !Matches(skips[k], name))
    && exists k :: 0 <= k < |names| && Matches(names[k], name)
  }

  /** The state `enable` sets. Saving the list to the environment is left
      out. */
  class Debug {
    var names: seq<Pattern>
    var skips: seq<Pattern>

    constructor()
      ensures names == [] && skips == []
    {
      names := [];
      skips := [];
    }

    /** `enable(namespaces)`: replaces the patterns by those of the list. */
    method Enable(namespaces: Option<string>)
      modifies this
      ensures names == NamesOf(Pieces(namespaces))
      ensures skips == SkipsOf(Pieces(namespaces))
    {
      names := [];
      skips := [];
      var split := SplitNamespaces(if namespaces.Some? then namespaces.value else "", "");
      var i := 0;
      while i < |split|
        invariant 0 <= i <= |split|
        invariant names == NamesOf(split[..i]) && skips == SkipsOf(split[..i])
      {
        assert split[..i + 1][..i] == split[..i];
        var piece := split[i];
        if piece != "" {
          if piece[0] == '-' {
            skips := skips + [Compile(piece[1..])];
          } else {
            names := names + [Compile(piece)];
          }
        }
        i := i + 1;
      }
      assert split[..i] == split;
    }

    /** `disable()`: `enable('')`. */
    method Disable()
      modifies this
      ensures names == [] && skips == []
    {
      Enable(Some(""));
    }

    /** `enabled(name)`: the skips first, then the names. */
    method Enabled(name: string) returns (b: bool)
      ensures b == IsEnabled(names, skips, name)
    {
      var i := 0;
      while i < |skips|
        invariant 0 <= i <= |skips|
        invariant forall k :: 0 <= k < i ==> !Matches(skips[k], name)
      {
        if Matches(skips[i], name) {
          return false;
        }
        i := i + 1;
      }
      i := 0;
      while i < |names|
        invariant 0 <= i <= |names|
        invariant forall k :: 0 <= k < i ==> !Matches(names[k], name)
      {
        if Matches(names[i], name) {
          return true;
        }
        i := i + 1;
      }
      return false;
    }
  }

  /** A skip wins over a name: `x,-x` leaves `x` off. */
  lemma SkipWins(names: seq<Pattern>, skips: seq<Pattern>, name: string, k: nat)
    requires k < |skips| && Matches(skips[k], name)
    ensures !IsEnabled(names, skips, name)
  {
  }

  /** The list `-x,x`: one skip and one name, both for `x`. */
  lemma SkipAndName(x: string)
    requires x != [] && x[0] != '-'
    requires forall k :: 0 <= k < |x| ==> !IsSeparator(x[k])
    ensures NamesOf(Pieces(Some("-" + x + "," + x))) == [Compile(x)]
    ensures SkipsOf(Pieces(Some("-" + x + "," + x))) == [Compile(x)]
  {
    var s := "-" + x + "," + x;
    var pieces := Pieces(Some(s));
    SplitPlain("-" + x, "," + x, "");
    assert s == ("-" + x) + ("," + x);
    assert "" + ("-" + x) == "-" + x;
    assert SeparatorRun("," + x) == 1 by {
      assert ("," + x)[1..] == x;
    }
    assert ("," + x)[1..] == x;
    SplitPlain(x, "", "");
    assert x + "" == x && "" + x == x;
    assert pieces == ["-" + x, x];
    assert pieces[..1] == ["-" + x];
    assert ("-" + x)[1..] == x;
  }

  /** Characters that are not separators join the current piece. */
  lemma {:induction false} SplitPlain(x: string, rest: string, cur: string)
    requires forall k :: 0 <= k < |x| ==> !IsSeparator(x[k])
    requires forall j :: 0 <= j < |cur| ==> !IsSeparator(cur[j])
    ensures forall j :: 0 <= j < |cur + x| ==> !IsSeparator((cur + x)[j])
    ensures SplitNamespaces(x + rest, cur) == SplitNamespaces(rest, cur + x)
    decreases |x|
  {
    if x == [] {
      assert x + rest == rest && cur + x == cur;
    } else {
      assert (x + rest)[0] == x[0] && (x + rest)[1..] == x[1..] + rest;
      assert cur + [x[0]] + x[1..] == cur + x;
      SplitPlain(x[1..], rest, cur + [x[0]]);
    }
  }

  /** After `enable('')` (or with no string at all) nothing is enabled. */
  lemma NothingEnabled(name: string)
    ensures !IsEnabled(NamesOf(Pieces(None)), SkipsOf(Pieces(None)), name)
  {
    assert Pieces(None) == [""];
    assert Pieces(None)[..0] == [];
  }
}
