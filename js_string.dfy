// The JavaScript string primitives the modelled code relies on, on strings
// seen as sequences of Dafny characters (`seq<char>`), which are Unicode
// scalar values rather than JavaScript's UTF-16 code units.
module JsString {
  /** Characters matched by `\s` in a JavaScript regular expression, which are
      also the characters `String.prototype.trim` removes. */
  predicate IsWhitespace(c: char)
  {
    c == ' ' || c == '\t' || c == '\n' || c == '\r' || c == '\U{000B}' || c == '\U{000C}'
    || c == '\U{00A0}' || c == '\U{1680}' || ('\U{2000}' <= c <= '\U{200A}')
    || c == '\U{2028}' || c == '\U{2029}' || c == '\U{202F}' || c == '\U{205F}'
    || c == '\U{3000}' || c == '\U{FEFF}'
  }

  /** Line terminators: the characters `.` does not match in a regular expression. */
  predicate IsLineTerminator(c: char)
  {
    c == '\n' || c == '\r' || c == '\U{2028}' || c == '\U{2029}'
  }

  /** `c` does not occur in `s`. */
  predicate NoChar(s: string, c: char)
  {
    forall k :: 0 <= k < |s| ==> s[k] != c
  }

  predicate IsDigit(c: char)
  {
    '0' <= c <= '9'
  }

  predicate OccursAt(s: string, pat: string, j: int)
  {
    0 <= j && j + |pat| <= |s| && s[j..j + |pat|] == pat
  }

  predicate Contains(s: string, pat: string)
  {
    exists j :: 0 <= j <= |s| && OccursAt(s, pat, j)
  }

  predicate EndsWith(s: string, suffix: string)
  {
    |suffix| <= |s| && s[|s| - |suffix|..] == suffix
  }

  /** `s.indexOf(pat, from)`: the first occurrence at or after `from` (clamped
      to the string), or -1. */
  function IndexOf(s: string, pat: string, from: int): (r: int)
    ensures r == -1 || (if from < 0 then 0 else from) <= r
    ensures r != -1 ==> OccursAt(s, pat, r)
    ensures forall j :: (if from < 0 then 0 else from) <= j && (r == -1 || j < r) ==> !OccursAt(s, pat, j)
    decreases |s| - from
  {
    if from < 0 then IndexOf(s, pat, 0)
    else if from + |pat| > |s| then -1
    else if s[from..from + |pat|] == pat then from
    else IndexOf(s, pat, from + 1)
  }

  lemma OccursAtChar(s: string, c: char, j: int)
    ensures OccursAt(s, [c], j) <==> 0 <= j < |s| && s[j] == c
  {
    if 0 <= j < |s| {
      assert s[j..j + 1] == [s[j]];
    }
  }

  /** Searching for one character finds it exactly when it is there. */
  lemma IndexOfCharFound(s: string, c: char)
    ensures IndexOf(s, [c], 0) >= 0 <==> c in s
    ensures IndexOf(s, [c], 0) >= 0 ==> IndexOf(s, [c], 0) < |s| && s[IndexOf(s, [c], 0)] == c
  {
    var j := IndexOf(s, [c], 0);
    if j >= 0 {
      OccursAtChar(s, c, j);
    } else {
      forall k | 0 <= k < |s|
        ensures s[k] != c
      {
        OccursAtChar(s, c, k);
      }
    }
  }

  /** `s.replace(pat, rep)` with a string pattern: only the first occurrence
      is replaced. */
  function ReplaceFirst(s: string, pat: string, rep: string): (r: string)
    ensures IndexOf(s, pat, 0) == -1 ==> r == s
    ensures IndexOf(s, pat, 0) != -1 ==>
      var i := IndexOf(s, pat, 0);
      r == s[..i] + rep + s[i + |pat|..]
  {
    var i := IndexOf(s, pat, 0);
    if i == -1 then s else s[..i] + rep + s[i + |pat|..]
  }

  lemma {:induction false} ReplaceFirstAbsent(s: string, pat: string, rep: string)
    requires !Contains(s, pat)
    ensures ReplaceFirst(s, pat, rep) == s
  {
  }

  lemma {:induction false} ReplaceFirstPrefix(pat: string, rest: string, rep: string)
    ensures ReplaceFirst(pat + rest, pat, rep) == rep + rest
  {
    var s := pat + rest;
    assert s[0..|pat|] == pat;
    IndexOfAtStart(s, pat);
    var tail := s[|pat|..];
    assert tail == rest;
    assert ReplaceFirst(s, pat, rep) == s[..0] + rep + tail;
    assert s[..0] + rep == rep;
  }

  /** A text that starts with `pat` finds it at 0. */
  lemma IndexOfAtStart(s: string, pat: string)
    requires |pat| <= |s| && s[0..|pat|] == pat
    ensures IndexOf(s, pat, 0) == 0
  {
  }

  /** `parts.join(sep)`. */
  function Join(parts: seq<string>, sep: string): (r: string)
    ensures |parts| == 1 ==> r == parts[0]
  {
    if |parts| == 0 then ""
    else if |parts| == 1 then parts[0]
    else parts[0] + sep + Join(parts[1..], sep)
  }

  /** `s.split(sep)` for a non-empty string separator. */
  function Split(s: string, sep: string): (r: seq<string>)
    requires |sep| > 0
    ensures |r| >= 1
    ensures Join(r, sep) == s
    ensures forall k :: 0 <= k < |r| ==> !Contains(r[k], sep)
    decreases |s|
  {
    var i := IndexOf(s, sep, 0);
    if i == -1 then
      assert forall j :: !OccursAt(s, sep, j);
      [s]
    else
      var head := s[..i];
      assert forall j :: !OccursAt(head, sep, j) by {
        forall j | OccursAt(head, sep, j) ensures false {
          assert s[j..j + |sep|] == head[j..j + |sep|];
          assert OccursAt(s, sep, j);
        }
      }
      var tail := Split(s[i + |sep|..], sep);
      assert s == head + sep + s[i + |sep|..] by {
        assert s[i..i + |sep|] == sep;
      }
      [head] + tail
  }

  /** The first separator, at `i`, ends the first member. */
  lemma SplitAt(s: string, sep: string, i: int)
    requires |sep| > 0 && IndexOf(s, sep, 0) == i && i != -1
    ensures Split(s, sep) == [s[..i]] + Split(s[i + |sep|..], sep)
  {
  }

  lemma {:induction false} SplitNoSeparator(s: string, sep: string)
    requires |sep| > 0 && !Contains(s, sep)
    ensures Split(s, sep) == [s]
  {
    if IndexOf(s, sep, 0) != -1 {
      assert OccursAt(s, sep, IndexOf(s, sep, 0));
    }
  }

  /** A text without the one-character separator is its own only part. */
  lemma SplitWithout(v: string, c: char)
    requires c !in v
    ensures Split(v, [c]) == [v]
  {
    forall j | 0 <= j <= |v| ensures !OccursAt(v, [c], j) {
      OccursAtChar(v, c, j);
    }
    SplitNoSeparator(v, [c]);
  }

  /** Two texts without the separator `c`, joined by it, split back into
      the two. */
  lemma SplitPair(u: string, v: string, c: char)
    requires c !in u && c !in v
    ensures Split(u + [c] + v, [c]) == [u, v]
  {
    var s := u + [c] + v;
    OccursAtChar(s, c, |u|);
    forall j | 0 <= j < |u| ensures !OccursAt(s, [c], j) {
      OccursAtChar(s, c, j);
      assert s[j] == u[j];
    }
    var i := IndexOf(s, [c], 0);
    assert i == |u|;
    SplitAt(s, [c], i);
    assert s[..i] == u && s[i + 1..] == v;
    SplitWithout(v, c);
  }

  /** `s.split(pat).join(rep)`: every occurrence of `pat`, left to right and
      without overlaps, replaced by `rep`. */
  function ReplaceAll(s: string, pat: string, rep: string): string
    requires |pat| > 0
  {
    Join(Split(s, pat), rep)
  }

  lemma ReplaceAllAbsent(s: string, pat: string, rep: string)
    requires |pat| > 0 && !Contains(s, pat)
    ensures ReplaceAll(s, pat, rep) == s
  {
    SplitNoSeparator(s, pat);
  }

  /** Every part's characters occur in the joined string. */
  lemma {:induction false} JoinHasParts(parts: seq<string>, sep: string, k: int)
    requires 0 <= k < |parts|
    ensures multiset(parts[k]) <= multiset(Join(parts, sep))
    decreases |parts|
  {
    if |parts| > 1 {
      if k > 0 {
        JoinHasParts(parts[1..], sep, k - 1);
        assert parts[1..][k - 1] == parts[k];
      }
      assert Join(parts, sep) == parts[0] + sep + Join(parts[1..], sep);
    }
  }

  /** Gluing the last part of `xs` to the first part of `ys` with `mid` in
      between joins to the two joins with `mid` in between. */
  lemma {:induction false} JoinGlue(xs: seq<string>, mid: string, ys: seq<string>, sep: string)
    requires |xs| >= 1 && |ys| >= 1
    ensures Join(xs[..|xs| - 1] + [xs[|xs| - 1] + mid + ys[0]] + ys[1..], sep)
         == Join(xs, sep) + mid + Join(ys, sep)
    decreases |xs|
  {
    var glued := xs[..|xs| - 1] + [xs[|xs| - 1] + mid + ys[0]] + ys[1..];
    if |xs| == 1 {
      assert glued == [xs[0] + mid + ys[0]] + ys[1..];
      JoinCons(xs[0] + mid + ys[0], ys[1..], sep);
      if |ys| > 1 {
        assert Join(ys, sep) == ys[0] + sep + Join(ys[1..], sep);
      }
    } else {
      var rest := xs[1..];
      var tail := rest[..|rest| - 1] + [rest[|rest| - 1] + mid + ys[0]] + ys[1..];
      JoinGlue(rest, mid, ys, sep);
      assert glued == [xs[0]] + tail;
      JoinCons(xs[0], tail, sep);
      assert xs == [xs[0]] + rest;
      JoinCons(xs[0], rest, sep);
      assert Join(glued, sep) == xs[0] + sep + (Join(rest, sep) + mid + Join(ys, sep));
    }
  }

  /** Join of a part in front of a list of parts. */
  lemma JoinCons(x: string, ys: seq<string>, sep: string)
    ensures Join([x] + ys, sep) == if ys == [] then x else x + sep + Join(ys, sep)
  {
    if ys != [] {
      assert ([x] + ys)[1..] == ys;
    }
  }

  /** `s.slice(0, n)` for n >= 0. */
  function Take(s: string, n: nat): (r: string)
    ensures |r| == if |s| < n then |s| else n
    ensures r <= s
  {
    if |s| <= n then s else s[..n]
  }

  /** `s.trim()`: drops leading and trailing whitespace. */
  function Trim(s: string): (r: string)
    ensures exists i, j ::
              && 0 <= i <= j <= |s| && r == s[i..j]
              && (forall k :: 0 <= k < i ==> IsWhitespace(s[k]))
              && (forall k :: j <= k < |s| ==> IsWhitespace(s[k]))
    ensures |r| > 0 ==> !IsWhitespace(r[0]) && !IsWhitespace(r[|r| - 1])
  {
    var i := ContentStart(s, 0);
    var j := ContentEnd(s, |s|, i);
    s[i..j]
  }

  /** The first index at or after `i` that does not hold whitespace. */
  function ContentStart(s: string, i: nat): (k: nat)
    requires i <= |s|
    ensures i <= k <= |s|
    ensures forall m :: i <= m < k ==> IsWhitespace(s[m])
    ensures k < |s| ==> !IsWhitespace(s[k])
    decreases |s| - i
  {
    if i < |s| && IsWhitespace(s[i]) then ContentStart(s, i + 1) else i
  }

  /** One past the last index in [lo, j) that does not hold whitespace, or lo. */
  function ContentEnd(s: string, j: nat, lo: nat): (k: nat)
    requires lo <= j <= |s|
    ensures lo <= k <= j
    ensures forall m :: k <= m < j ==> IsWhitespace(s[m])
    ensures k > lo ==> !IsWhitespace(s[k - 1])
    decreases j
  {
    if j > lo && IsWhitespace(s[j - 1]) then ContentEnd(s, j - 1, lo) else j
  }
}
