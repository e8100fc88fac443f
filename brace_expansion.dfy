// Bash-style brace expansion: `a{b,c}d` becomes `abd acd`, `x{1..3}` becomes
// `x1 x2 x3`.  The expansion of a pattern is `None` exactly when the module's
// `expand` would never return (a sequence whose step is zero).
module BraceExpansion {
  import opened Wrappers
  import opened JsString
  import opened Decimal
  import Balanced

  // ---- Escapes ----

  // Placeholders for escaped characters.  The module appends a random number
  // inside each one; here they are fixed, and the properties below hold for
  // patterns without NUL characters, which therefore cannot contain them.
  const EscSlash: string := "\0SLASH\0"
  const EscOpen: string := "\0OPEN\0"
  const EscClose: string := "\0CLOSE\0"
  const EscComma: string := "\0COMMA\0"
  const EscPeriod: string := "\0PERIOD\0"

  /** Each pattern of `pairs` replaced everywhere by its replacement, one
      pair after the other, as a chain of `split(pat).join(rep)`. */
  function ReplaceEach(s: string, pairs: seq<(string, string)>): string
    requires forall k :: 0 <= k < |pairs| ==> |pairs[k].0| > 0
    decreases |pairs|
  {
    if pairs == [] then s else ReplaceEach(ReplaceAll(s, pairs[0].0, pairs[0].1), pairs[1..])
  }

  const EscapePairs: seq<(string, string)> :=
    [("\\\\", EscSlash), ("\\{", EscOpen), ("\\}", EscClose), ("\\,", EscComma), ("\\.", EscPeriod)]

  const UnescapePairs: seq<(string, string)> :=
    [(EscSlash, "\\"), (EscOpen, "{"), (EscClose, "}"), (EscComma, ","), (EscPeriod, ".")]

  /** `escapeBraces`: hides `\\`, `\{`, `\}`, `\,` and `\.` behind placeholders. */
  function EscapeBraces(s: string): string
  {
    ReplaceEach(s, EscapePairs)
  }

  /** `unescapeBraces`: turns the placeholders back into the characters they
      stand for, without their backslash. */
  function UnescapeBraces(s: string): string
  {
    ReplaceEach(s, UnescapePairs)
  }

  lemma NoCharNoToken(s: string, t: string)
    requires |t| > 0 && NoChar(s, t[0])
    ensures !Contains(s, t)
  {
    forall j | 0 <= j <= |s| ensures !OccursAt(s, t, j) {
      if j + |t| <= |s| {
        assert s[j..j + |t|][0] == s[j];
      }
    }
  }

  /** Text without the first character of any pattern passes through the
      chain unchanged. */
  lemma {:induction false} ReplaceEachAbsent(s: string, pairs: seq<(string, string)>)
    requires forall k :: 0 <= k < |pairs| ==> |pairs[k].0| > 0 && NoChar(s, pairs[k].0[0])
    ensures ReplaceEach(s, pairs) == s
    decreases |pairs|
  {
    if pairs != [] {
      NoCharNoToken(s, pairs[0].0);
      ReplaceAllAbsent(s, pairs[0].0, pairs[0].1);
      ReplaceEachAbsent(s, pairs[1..]);
    }
  }

  /** A pattern without backslashes or NUL characters passes through the
      escape round trip unchanged. */
  lemma EscapeRoundTripPlain(s: string)
    requires NoChar(s, '\\') && NoChar(s, '\0')
    ensures EscapeBraces(s) == s && UnescapeBraces(s) == s
  {
    ReplaceEachAbsent(s, EscapePairs);
    ReplaceEachAbsent(s, UnescapePairs);
  }

  // ---- Counting braces, the measure the expansion decreases ----

  function Opens(s: string): nat
  {
    multiset(s)['{']
  }

  function Closes(s: string): nat
  {
    multiset(s)['}']
  }

  // ---- Comma-separated members ----

  /** `parseCommaParts`: splits a brace body at the commas that are not inside
      a nested brace pair. */
  function ParseCommaParts(s: string): (r: seq<string>)
    ensures |r| >= 1
    decreases |s|
  {
    if s == "" then [""]
    else
      match Balanced.BalancedSpec('{', '}', s)
      case None => Split(s, ",")
      case Some(m) =>
        var postParts := if |m.post| > 0 then ParseCommaParts(m.post) else [""];
        Glue(Split(m.pre, ","), "{" + m.body + "}", postParts)
  }

  /** The last member of `xs` and the first of `ys` fused around `mid`. */
  function Glue(xs: seq<string>, mid: string, ys: seq<string>): (r: seq<string>)
    requires |xs| >= 1 && |ys| >= 1
    ensures |r| == |xs| + |ys| - 1
    ensures Join(r, ",") == Join(xs, ",") + mid + Join(ys, ",")
  {
    JoinGlue(xs, mid, ys, ",");
    xs[..|xs| - 1] + [xs[|xs| - 1] + mid + ys[0]] + ys[1..]
  }

  /** Joining the members with commas gives back the body. */
  lemma {:induction false} ParseCommaPartsJoin(s: string)
    ensures Join(ParseCommaParts(s), ",") == s
    decreases |s|
  {
    if s != "" {
      match Balanced.BalancedSpec('{', '}', s)
      case None =>
      case Some(m) =>
        var q := if |m.post| > 0 then ParseCommaParts(m.post) else [""];
        if |m.post| > 0 {
          ParseCommaPartsJoin(m.post);
        }
        GlueAround(s, m.pre, m.body, m.post, q);
    }
  }

  lemma GlueAround(s: string, pre: string, body: string, post: string, q: seq<string>)
    requires |q| >= 1 && Join(q, ",") == post
    requires s == pre + "{" + body + "}" + post
    ensures Join(Glue(Split(pre, ","), "{" + body + "}", q), ",") == s
  {
    var xs := Split(pre, ",");
    assert |xs| >= 1 && Join(xs, ",") == pre;
    GlueJoined(xs, pre, body, q, post);
  }

  /** Gluing parts that join to `pre` and `post` around a brace pair joins
      to the whole text. */
  lemma GlueJoined(xs: seq<string>, pre: string, body: string, q: seq<string>, post: string)
    requires |xs| >= 1 && Join(xs, ",") == pre
    requires |q| >= 1 && Join(q, ",") == post
    ensures Join(Glue(xs, "{" + body + "}", q), ",") == pre + "{" + body + "}" + post
  {
    var mid := "{" + body + "}";
    assert Join(Glue(xs, mid, q), ",") == pre + mid + post;
    assert pre + mid + post == pre + "{" + body + "}" + post;
  }

  /** A body without braces is split at every comma. */
  lemma ParseCommaPartsFlat(s: string)
    requires NoChar(s, '{') && s != ""
    ensures ParseCommaParts(s) == Split(s, ",")
  {
    Balanced.RangeFound('{', '}', s);
  }

  // ---- The shapes the regular expressions recognise ----

  /** `-?\d+` */
  predicate SignedInt(t: string)
  {
    if |t| > 0 && t[0] == '-' then |t| >= 2 && AllDigits(t[1..]) else |t| >= 1 && AllDigits(t)
  }

  function SignedValue(t: string): int
    requires SignedInt(t)
  {
    if t[0] == '-' then -(DigitsValue(t[1..]) as int) else DigitsValue(t)
  }

  predicate IsLetter(c: char)
  {
    ('a' <= c <= 'z') || ('A' <= c <= 'Z')
  }

  /** The parts of `/^-?\d+\.\.-?\d+(?:\.\.-?\d+)?$/`, split at `..`. */
  predicate NumericParts(n: seq<string>)
  {
    (|n| == 2 || |n| == 3) && forall k :: 0 <= k < |n| ==> SignedInt(n[k])
  }

  /** The parts of `/^[a-zA-Z]\.\.[a-zA-Z](?:\.\.-?\d+)?$/`, split at `..`. */
  predicate AlphaParts(n: seq<string>)
  {
    && (|n| == 2 || |n| == 3)
    && |n[0]| == 1 && IsLetter(n[0][0]) && |n[1]| == 1 && IsLetter(n[1][0])
    && (|n| == 3 ==> SignedInt(n[2]))
  }

  /** `/\$$/`: the text ends with a dollar sign. */
  predicate EndsWithDollar(s: string)
  {
    |s| > 0 && s[|s| - 1] == '$'
  }

  /** `/^-?0\d/`: a zero-padded number. */
  predicate IsPadded(t: string)
  {
    || (|t| >= 2 && t[0] == '0' && IsDigit(t[1]))
    || (|t| >= 3 && t[0] == '-' && t[1] == '0' && IsDigit(t[2]))
  }

  function AnyPadded(n: seq<string>): (r: bool)
    ensures r <==> exists k :: 0 <= k < |n| && IsPadded(n[k])
  {
    if n == [] then false
    else IsPadded(n[0]) || (assert forall k :: 1 <= k < |n| ==> n[1..][k - 1] == n[k]; AnyPadded(n[1..]))
  }

  /** `/,.*\}/`: a comma followed later on the same line by a closing brace. */
  predicate CommaThenClose(s: string)
  {
    exists i, j :: 0 <= i < j < |s| && s[i] == ',' && s[j] == '}' && LineFree(s, i + 1, j)
  }

  predicate LineFree(s: string, x: int, y: int)
    requires 0 <= x <= y <= |s|
  {
    forall k :: x <= k < y ==> !IsLineTerminator(s[k])
  }

  /** Scanner for CommaThenClose: `open` says a comma has been seen since the
      last line terminator. */
  function ScanCommaClose(s: string, k: nat, open: bool): bool
    requires k <= |s|
    decreases |s| - k
  {
    if k == |s| then false
    else if s[k] == '}' && open then true
    else if IsLineTerminator(s[k]) then ScanCommaClose(s, k + 1, false)
    else ScanCommaClose(s, k + 1, open || s[k] == ',')
  }

  /** The last comma in s[x..k] that no line terminator follows, if any. */
  predicate OpenComma(s: string, k: int, i: int)
    requires 0 <= k <= |s|
  {
    0 <= i < k && s[i] == ',' && LineFree(s, i + 1, k)
  }

  lemma {:induction false} ScanCommaCloseIs(s: string, k: nat, open: bool)
    requires k <= |s|
    requires open <==> exists i :: OpenComma(s, k, i)
    ensures ScanCommaClose(s, k, open) <==>
      exists i, j :: 0 <= i < j < |s| && k <= j && s[i] == ',' && s[j] == '}' && LineFree(s, i + 1, j)
    decreases |s| - k
  {
    if k < |s| {
      if s[k] == '}' && open {
        var i :| OpenComma(s, k, i);
        assert 0 <= i < k < |s| && k <= k && s[i] == ',' && s[k] == '}' && LineFree(s, i + 1, k);
      } else {
        var open' := if IsLineTerminator(s[k]) then false else open || s[k] == ',';
        var k1 := k + 1;
        assert open' <==> exists i :: OpenComma(s, k1, i) by {
          if open' {
            if s[k] == ',' {
              assert OpenComma(s, k1, k);
            } else {
              var i :| OpenComma(s, k, i);
              assert OpenComma(s, k1, i);
            }
          }
          if exists i :: OpenComma(s, k1, i) {
            var i :| OpenComma(s, k1, i);
            assert !IsLineTerminator(s[k]) || i == k;
            if i < k {
              assert OpenComma(s, k, i);
            }
          }
        }
        ScanCommaCloseIs(s, k1, open');
        if exists i, j :: 0 <= i < j < |s| && k <= j && s[i] == ',' && s[j] == '}' && LineFree(s, i + 1, j) {
          var i, j :| 0 <= i < j < |s| && k <= j && s[i] == ',' && s[j] == '}' && LineFree(s, i + 1, j);
          if j == k {
            assert OpenComma(s, k, i);
            assert false;
          }
        }
      }
    }
  }

  /** `post.match(/,.*\}/)` */
  function HasCommaThenClose(s: string): (r: bool)
    ensures r <==> CommaThenClose(s)
  {
    ScanCommaCloseIs(s, 0, false);
    ScanCommaClose(s, 0, false)
  }

  // ---- Sequences ----

  /** `numeric`: the integer an endpoint or step denotes (a letter denotes
      its character code). */
  function Numeric(t: string): int
    requires |t| > 0
  {
    if SignedInt(t) then SignedValue(t) else t[0] as int
  }

  function Abs(x: int): nat
  {
    if x < 0 then -x else x
  }

  function Zeros(n: nat): (r: string)
    ensures |r| == n && forall k :: 0 <= k < n ==> r[k] == '0'
  {
    if n == 0 then "" else Zeros(n - 1) + "0"
  }

  /** The number of values from `x` towards `y` in steps of `incr`. */
  function SeqCount(x: int, y: int, incr: nat): nat
    requires incr > 0
  {
    (if y < x then x - y else y - x) / incr + 1
  }

  /** The k-th value of the sequence from `x` towards `y` in steps of `incr`. */
  function SeqValue(x: int, y: int, incr: nat, k: nat): int
  {
    if y < x then x - k * incr else x + k * incr
  }

  /** How one value of a sequence is printed. */
  function Item(i: int, alpha: bool, pad: bool, width: nat): (c: string)
    requires alpha ==> 'A' as int <= i <= 'z' as int
    ensures '{' !in c
  {
    if alpha then
      if i as char == '\\' then "" else [i as char]
    else
      var c := IntToString(i);
      var need := width - |c|;
      if pad && need > 0 then
        if i < 0 then "-" + Zeros(need) + c[1..] else Zeros(need) + c
      else c
  }

  /** The printed values of a sequence body `x..y[..incr]`, or None when the
      step is zero and the loop never ends. */
  function SeqItems(n: seq<string>, alpha: bool): (r: Option<seq<string>>)
    requires if alpha then AlphaParts(n) else NumericParts(n)
  {
    var x := Numeric(n[0]);
    var y := Numeric(n[1]);
    var incr := if |n| == 3 then Abs(Numeric(n[2])) else 1;
    if incr == 0 then None
    else
      var width := if |n[0]| < |n[1]| then |n[1]| else |n[0]|;
      var pad := AnyPadded(n);
      Some(seq(SeqCount(x, y, incr), k requires 0 <= k < SeqCount(x, y, incr) =>
        SeqItemsValueInRange(x, y, incr, k, alpha, n);
        Item(SeqValue(x, y, incr, k), alpha, pad, width)))
  }

  lemma SeqItemsValueInRange(x: int, y: int, incr: nat, k: nat, alpha: bool, n: seq<string>)
    requires incr > 0 && k < SeqCount(x, y, incr)
    requires alpha ==> AlphaParts(n) && x == Numeric(n[0]) && y == Numeric(n[1])
    ensures alpha ==> 'A' as int <= SeqValue(x, y, incr, k) <= 'z' as int
  {
    SeqValueBetween(x, y, incr, k);
    if alpha {
      assert !SignedInt(n[0]) && !SignedInt(n[1]);
    }
  }

  /** Every value of the sequence lies between its endpoints. */
  lemma SeqValueBetween(x: int, y: int, incr: nat, k: nat)
    requires incr > 0 && k < SeqCount(x, y, incr)
    ensures if y < x then y <= SeqValue(x, y, incr, k) <= x else x <= SeqValue(x, y, incr, k) <= y
  {
    var d := if y < x then x - y else y - x;
    assert k <= d / incr;
    MulBelow(k, incr, d);
  }

  lemma MulBelow(k: nat, incr: nat, d: nat)
    requires incr > 0 && k <= d / incr
    ensures k * incr <= d
  {
    assert d == (d / incr) * incr + d % incr;
    assert k * incr <= (d / incr) * incr;
  }

  // ---- Combining the parts ----

  /** The expansions `pre + x + p` for every `p` in `post`, in order, keeping
      an empty one only when `keepEmpty` holds. */
  function Row(pre: string, x: string, post: seq<string>, keepEmpty: bool): (r: seq<string>)
    decreases |post|
  {
    if post == [] then []
    else
      var e := pre + x + post[|post| - 1];
      Row(pre, x, post[..|post| - 1], keepEmpty) + (if keepEmpty || e != "" then [e] else [])
  }

  /** The expansions for every member of `xs` (outer) and every post
      alternative (inner), in the order of `expand`'s nested loops. */
  function Combine(pre: string, xs: seq<string>, post: seq<string>, keepEmpty: bool): (r: seq<string>)
    decreases |xs|
  {
    if xs == [] then []
    else Combine(pre, xs[..|xs| - 1], post, keepEmpty) + Row(pre, xs[|xs| - 1], post, keepEmpty)
  }

  /** The members of every Some, concatenated, or None when one is None. */
  function Flatten(rs: seq<Option<seq<string>>>): (r: Option<seq<string>>)
    ensures r.Some? <==> forall k :: 0 <= k < |rs| ==> rs[k].Some?
    decreases |rs|
  {
    if rs == [] then Some([])
    else
      match Flatten(rs[..|rs| - 1])
      case None => None
      case Some(xs) =>
        match rs[|rs| - 1]
        case None => None
        case Some(ys) => Some(xs + ys)
  }

  function Embrace(s: string): string
  {
    "{" + s + "}"
  }

  // ---- Expansion ----

  predicate AllAtMost(xs: seq<string>, bound: nat)
  {
    forall k :: 0 <= k < |xs| ==> Opens(xs[k]) <= bound
  }

  predicate AllBelow(xs: seq<string>, bound: nat)
  {
    forall k :: 0 <= k < |xs| ==> Opens(xs[k]) < bound
  }

  /** `expand(str, isTop)`. */
  function ExpandSpec(str: string, isTop: bool): (r: Option<seq<string>>)
    ensures r.Some? ==> AllAtMost(r.value, Opens(str))
    ensures r.Some? && |r.value| >= 2 ==> AllBelow(r.value, Opens(str))
    decreases Opens(str), Closes(str), 5
  {
    match Balanced.BalancedSpec('{', '}', str)
    case None => Some([str])
    case Some(m) => ExpandMatched(str, m.pre, m.body, m.post, isTop)
  }

  /** `expand` once the first balanced brace pair splits `str` into `pre`,
      `{body}` and `post`. */
  function ExpandMatched(str: string, pre: string, body: string, post: string, isTop: bool): (r: Option<seq<string>>)
    requires str == pre + "{" + body + "}" + post
    ensures r.Some? ==> AllAtMost(r.value, Opens(str))
    ensures r.Some? && |r.value| >= 2 ==> AllBelow(r.value, Opens(str))
    decreases Opens(str), Closes(str), 4
  {
    if EndsWithDollar(pre) then Some([str])
    else
      var n := Split(body, "..");
      var isSequence := NumericParts(n) || AlphaParts(n);
      var isOptions := IndexOf(body, ",", 0) >= 0;
      if !isSequence && !isOptions then
        if HasCommaThenClose(post) then
          ClosesEscaped(str, pre, body, post);
          ExpandSpec(pre + "{" + body + EscClose + post, false)
        else Some([str])
      else
        ExpandSet(str, pre, body, post, isTop)
  }

  /** The expansions of `pre`, the brace set `body` and `postText`, once the
      body is known to be a sequence or to hold a comma. */
  function ExpandSet(str: string, pre: string, body: string, postText: string, isTop: bool): (r: Option<seq<string>>)
    requires str == pre + "{" + body + "}" + postText
    ensures r.Some? ==> AllAtMost(r.value, Opens(str))
    ensures r.Some? && |r.value| >= 2 ==> AllBelow(r.value, Opens(str))
    decreases Opens(str), Closes(str), 3
  {
    OpensSplit(str, pre, body, postText);
    var post := if |postText| > 0 then ExpandSpec(postText, false) else Some([""]);
    if post.None? then None
    else
      var n := Split(body, "..");
      if NumericParts(n) || AlphaParts(n) then
        var isAlpha := !NumericParts(n);
        match SeqItems(n, isAlpha)
        case None => None
        case Some(items) =>
          SequenceBound(str, pre, body, postText, n, isAlpha, post.value);
          Some(Combine(pre, items, post.value, true))
      else
        ExpandOptions(str, pre, body, postText, isTop, post.value)
  }

  /** The expansions of a sequence set stay within the opening braces of
      the whole text, and strictly below when there are several. */
  lemma SequenceBound(str: string, pre: string, body: string, postText: string, n: seq<string>, isAlpha: bool, post: seq<string>)
    requires str == pre + "{" + body + "}" + postText
    requires if isAlpha then AlphaParts(n) else NumericParts(n)
    requires SeqItems(n, isAlpha).Some?
    requires AllAtMost(post, Opens(postText))
    ensures AllAtMost(Combine(pre, SeqItems(n, isAlpha).value, post, true), Opens(str))
    ensures AllBelow(Combine(pre, SeqItems(n, isAlpha).value, post, true), Opens(str))
  {
    OpensSplit(str, pre, body, postText);
    SeqItemsNoBrace(n, isAlpha);
    CombineBound(pre, SeqItems(n, isAlpha).value, post, true, 0, Opens(postText));
  }

  /** The comma-set case of `expand`, given the expansions `post` of the text
      after the set. */
  function ExpandOptions(str: string, pre: string, body: string, postText: string, isTop: bool, post: seq<string>): (r: Option<seq<string>>)
    requires str == pre + "{" + body + "}" + postText
    requires AllAtMost(post, Opens(postText))
    requires |post| >= 2 ==> AllBelow(post, Opens(postText))
    ensures r.Some? ==> AllAtMost(r.value, Opens(str))
    ensures r.Some? && |r.value| >= 2 ==> AllBelow(r.value, Opens(str))
    decreases Opens(str), Closes(str), 2
  {
    var parts := ParseCommaParts(body);
    ParseCommaPartsJoin(body);
    PartsBelow(str, pre, body, postText, parts);
    if |parts| == 1 then ExpandNested(str, pre, body, postText, isTop, post)
    else ExpandMembers(str, pre, body, postText, isTop, post, parts)
  }

  /** A comma set with a single member, `x{{a,b}}y`: the member is expanded
      and each expansion braced again. */
  function ExpandNested(str: string, pre: string, body: string, postText: string, isTop: bool, post: seq<string>): (r: Option<seq<string>>)
    requires str == pre + "{" + body + "}" + postText
    requires AllAtMost(post, Opens(postText))
    requires |post| >= 2 ==> AllBelow(post, Opens(postText))
    ensures r.Some? ==> AllAtMost(r.value, Opens(str))
    ensures r.Some? && |r.value| >= 2 ==> AllBelow(r.value, Opens(str))
    decreases Opens(str), Closes(str), 1
  {
    OpensSplit(str, pre, body, postText);
    match ExpandSpec(body, false)
    case None => None
    case Some(inner) =>
      if |inner| == 1 then
        RowKeepsAll(pre, Embrace(inner[0]), post, Opens(postText));
        Some(Row(pre, Embrace(inner[0]), post, true))
      else ExpandBraced(str, pre, body, postText, isTop, post, inner)
  }

  /** The single member expanded to several alternatives `inner`: each is
      braced again and expanded as a member of the set. */
  function ExpandBraced(str: string, pre: string, body: string, postText: string, isTop: bool, post: seq<string>,
                        inner: seq<string>): (r: Option<seq<string>>)
    requires str == pre + "{" + body + "}" + postText
    requires AllAtMost(post, Opens(postText))
    requires AllBelow(inner, Opens(body))
    ensures r.Some? ==> AllBelow(r.value, Opens(str))
    decreases Opens(str), Closes(str), 0
  {
    OpensSplit(str, pre, body, postText);
    var braced := EmbraceAll(inner);
    EmbracedBelow(inner, braced, Opens(body), Opens(str));
    match ExpandAll(braced, Opens(str), Opens(body))
    case None => None
    case Some(items) =>
      CombineBound(pre, items, post, !isTop, Opens(body), Opens(postText));
      Some(Combine(pre, items, post, !isTop))
  }

  lemma EmbracedBelow(inner: seq<string>, braced: seq<string>, b: nat, bound: nat)
    requires AllBelow(inner, b) && b < bound
    requires |braced| == |inner| && forall k :: 0 <= k < |inner| ==> braced[k] == Embrace(inner[k])
    ensures AllAtMost(braced, b) && AllBelow(braced, bound)
  {
    forall k | 0 <= k < |braced| ensures Opens(braced[k]) == Opens(inner[k]) + 1 {
      assert braced[k] == "{" + inner[k] + "}";
    }
  }

  /** A comma set with several members: each member is expanded in turn. */
  function ExpandMembers(str: string, pre: string, body: string, postText: string, isTop: bool, post: seq<string>,
                         parts: seq<string>): (r: Option<seq<string>>)
    requires str == pre + "{" + body + "}" + postText
    requires AllAtMost(post, Opens(postText))
    requires AllAtMost(parts, Opens(body)) && AllBelow(parts, Opens(str))
    ensures r.Some? ==> AllBelow(r.value, Opens(str))
    decreases Opens(str), Closes(str), 1
  {
    OpensSplit(str, pre, body, postText);
    match ExpandAll(parts, Opens(str), Opens(body))
    case None => None
    case Some(items) =>
      CombineBound(pre, items, post, !isTop, Opens(body), Opens(postText));
      Some(Combine(pre, items, post, !isTop))
  }

  /** The expansions of every member of `xs` concatenated, as `concatMap`
      with `expand` gives them. */
  function ExpandAll(xs: seq<string>, ghost bound: nat, ghost cap: nat): (r: Option<seq<string>>)
    requires AllBelow(xs, bound) && AllAtMost(xs, cap)
    ensures r.Some? ==> AllAtMost(r.value, cap)
    decreases bound, 0, |xs|
  {
    if xs == [] then Some([])
    else
      match ExpandAll(xs[..|xs| - 1], bound, cap)
      case None => None
      case Some(front) =>
        match ExpandSpec(xs[|xs| - 1], false)
        case None => None
        case Some(last) => Some(front + last)
  }

  /** Every member wrapped in braces. */
  function EmbraceAll(xs: seq<string>): (r: seq<string>)
    ensures |r| == |xs|
    ensures forall k :: 0 <= k < |xs| ==> r[k] == Embrace(xs[k])
  {
    if xs == [] then [] else EmbraceAll(xs[..|xs| - 1]) + [Embrace(xs[|xs| - 1])]
  }

  lemma OpensSplit(str: string, pre: string, body: string, post: string)
    requires str == pre + "{" + body + "}" + post
    ensures Opens(str) == Opens(pre) + 1 + Opens(body) + Opens(post)
    ensures Closes(str) == Closes(pre) + Closes(body) + 1 + Closes(post)
  {
  }

  lemma ClosesEscaped(str: string, pre: string, body: string, post: string)
    requires str == pre + "{" + body + "}" + post
    ensures Opens(pre + "{" + body + EscClose + post) == Opens(str)
    ensures Closes(pre + "{" + body + EscClose + post) < Closes(str)
  {
    assert multiset(EscClose)['{'] == 0 && multiset(EscClose)['}'] == 0;
  }

  lemma PartsBelow(str: string, pre: string, body: string, post: string, parts: seq<string>)
    requires str == pre + "{" + body + "}" + post
    requires Join(parts, ",") == body
    ensures AllAtMost(parts, Opens(body)) && AllBelow(parts, Opens(str))
  {
    OpensSplit(str, pre, body, post);
    forall k | 0 <= k < |parts| ensures Opens(parts[k]) <= Opens(body) {
      JoinHasParts(parts, ",", k);
    }
  }

  lemma {:induction false} RowBound(pre: string, x: string, post: seq<string>, keepEmpty: bool, bp: nat)
    requires AllAtMost(post, bp)
    ensures AllAtMost(Row(pre, x, post, keepEmpty), Opens(pre) + Opens(x) + bp)
    decreases |post|
  {
    if post != [] {
      RowBound(pre, x, post[..|post| - 1], keepEmpty, bp);
      assert Opens(pre + x + post[|post| - 1]) == Opens(pre) + Opens(x) + Opens(post[|post| - 1]);
    }
  }

  /** Keeping every expansion, a row has one per post alternative, and
      bounds on the alternatives carry over. */
  lemma {:induction false} RowKeepsAll(pre: string, x: string, post: seq<string>, bp: nat)
    requires AllAtMost(post, bp) && (|post| >= 2 ==> AllBelow(post, bp))
    ensures |Row(pre, x, post, true)| == |post|
    ensures AllAtMost(Row(pre, x, post, true), Opens(pre) + Opens(x) + bp)
    ensures |post| >= 2 ==> AllBelow(Row(pre, x, post, true), Opens(pre) + Opens(x) + bp)
    decreases |post|
  {
    var r := Row(pre, x, post, true);
    RowIs(pre, x, post);
    forall k | 0 <= k < |r| ensures Opens(r[k]) == Opens(pre) + Opens(x) + Opens(post[k]) {
    }
  }

  lemma {:induction false} RowIs(pre: string, x: string, post: seq<string>)
    ensures |Row(pre, x, post, true)| == |post|
    ensures forall k :: 0 <= k < |post| ==> Row(pre, x, post, true)[k] == pre + x + post[k]
    decreases |post|
  {
    if post != [] {
      RowIs(pre, x, post[..|post| - 1]);
    }
  }

  lemma {:induction false} CombineBound(pre: string, xs: seq<string>, post: seq<string>, keepEmpty: bool, bx: nat, bp: nat)
    requires AllAtMost(xs, bx) && AllAtMost(post, bp)
    ensures AllAtMost(Combine(pre, xs, post, keepEmpty), Opens(pre) + bx + bp)
    decreases |xs|
  {
    if xs != [] {
      CombineBound(pre, xs[..|xs| - 1], post, keepEmpty, bx, bp);
      RowBound(pre, xs[|xs| - 1], post, keepEmpty, bp);
    }
  }

  lemma {:induction false} FlattenBound(rs: seq<Option<seq<string>>>, b: nat)
    requires forall k :: 0 <= k < |rs| && rs[k].Some? ==> AllAtMost(rs[k].value, b)
    requires Flatten(rs).Some?
    ensures AllAtMost(Flatten(rs).value, b)
    decreases |rs|
  {
    if rs != [] {
      FlattenBound(rs[..|rs| - 1], b);
    }
  }

  lemma SeqItemsNoBrace(n: seq<string>, alpha: bool)
    requires if alpha then AlphaParts(n) else NumericParts(n)
    requires SeqItems(n, alpha).Some?
    ensures AllAtMost(SeqItems(n, alpha).value, 0)
  {
    var items := SeqItems(n, alpha).value;
    var x := Numeric(n[0]);
    var y := Numeric(n[1]);
    var incr := if |n| == 3 then Abs(Numeric(n[2])) else 1;
    var width := if |n[0]| < |n[1]| then |n[1]| else |n[0]|;
    forall k | 0 <= k < |items| ensures Opens(items[k]) == 0 {
      SeqItemsValueInRange(x, y, incr, k, alpha, n);
      assert items[k] == Item(SeqValue(x, y, incr, k), alpha, AnyPadded(n), width);
      assert '{' !in multiset(items[k]);
    }
  }

  // ---- Patterns without nested sets ----

  lemma NoCharCount(s: string, c: char)
    ensures NoChar(s, c) <==> multiset(s)[c] == 0
  {
    if multiset(s)[c] != 0 {
      assert c in s;
    }
  }

  lemma {:induction false} JoinNoChar(parts: seq<string>, sep: string, c: char)
    requires forall k :: 0 <= k < |parts| ==> NoChar(parts[k], c)
    requires NoChar(sep, c)
    ensures NoChar(Join(parts, sep), c)
    decreases |parts|
  {
    if |parts| > 1 {
      JoinNoChar(parts[1..], sep, c);
      NoCharCount(parts[0], c);
      NoCharCount(sep, c);
      NoCharCount(Join(parts[1..], sep), c);
      NoCharCount(Join(parts, sep), c);
    }
  }

  /** Every member of a split has only characters of the whole. */
  lemma SplitNoChar(s: string, sep: string, c: char)
    requires |sep| > 0 && NoChar(s, c)
    ensures forall k :: 0 <= k < |Split(s, sep)| ==> NoChar(Split(s, sep)[k], c)
  {
    var parts := Split(s, sep);
    forall k | 0 <= k < |parts| ensures NoChar(parts[k], c) {
      JoinHasParts(parts, sep, k);
      NoCharCount(s, c);
      NoCharCount(parts[k], c);
    }
  }

  /** A separator that occurs splits the text into two or more members. */
  lemma SplitFound(s: string, sep: string, j: int)
    requires |sep| > 0 && OccursAt(s, sep, j)
    ensures |Split(s, sep)| >= 2
  {
    var i := IndexOf(s, sep, 0);
    assert i != -1;
  }

  lemma SignedNoComma(t: string)
    requires SignedInt(t)
    ensures NoChar(t, ',')
  {
    if t[0] == '-' {
      forall q | 1 <= q < |t| ensures t[q] != ',' {
        assert t[1..][q - 1] == t[q];
      }
    }
  }

  lemma PartsNoComma(n: seq<string>)
    requires NumericParts(n) || AlphaParts(n)
    ensures forall k :: 0 <= k < |n| ==> NoChar(n[k], ',')
  {
    forall k | 0 <= k < |n| ensures NoChar(n[k], ',') {
      if SignedInt(n[k]) {
        SignedNoComma(n[k]);
      }
    }
  }

  /** A body holding a comma is never a sequence. */
  lemma CommaNotSequence(body: string, j: int)
    requires 0 <= j < |body| && body[j] == ','
    ensures !NumericParts(Split(body, "..")) && !AlphaParts(Split(body, ".."))
  {
    CommaNotParts(body, j, "..", Split(body, ".."));
  }

  /** Parts that join back to a text holding a comma are not sequence parts. */
  lemma CommaNotParts(body: string, j: int, sep: string, n: seq<string>)
    requires 0 <= j < |body| && body[j] == ','
    requires NoChar(sep, ',') && Join(n, sep) == body
    ensures !NumericParts(n) && !AlphaParts(n)
  {
    if NumericParts(n) || AlphaParts(n) {
      PartsNoComma(n);
      JoinNoChar(n, sep, ',');
      assert false;
    }
  }

  /** A pattern with no opening brace has no set and expands to itself. */
  lemma NoSetIsLiteral(str: string, isTop: bool)
    requires NoChar(str, '{')
    ensures ExpandSpec(str, isTop) == Some([str])
  {
    Balanced.RangeFound('{', '}', str);
  }

  /** With no brace in `pre` or `body`, the first set is `{body}`. */
  lemma FlatMatch(str: string, pre: string, body: string, post: string)
    requires str == pre + "{" + body + "}" + post
    requires NoChar(pre, '{') && NoChar(body, '{') && NoChar(body, '}')
    ensures Balanced.BalancedSpec('{', '}', str) == Some(Balanced.Match(|pre|, |pre| + 1 + |body|, pre, body, post))
  {
    var i := |pre|;
    var j := |pre| + 1 + |body|;
    assert str[i] == '{' && str[j] == '}';
    forall k | 0 <= k < i ensures str[k] != '{' {
      assert str[k] == pre[k];
    }
    forall k | i + 1 <= k < j ensures str[k] != '{' && str[k] != '}' {
      assert str[k] == body[k - i - 1];
    }
    Balanced.FlatRange('{', '}', str, i, j);
    assert str[..i] == pre && str[i + 1..j] == body && str[j + 1..] == post;
  }

  lemma {:induction false} ExpandAllFlat(xs: seq<string>, bound: nat, cap: nat)
    requires AllBelow(xs, bound) && AllAtMost(xs, cap)
    requires forall k :: 0 <= k < |xs| ==> NoChar(xs[k], '{')
    ensures ExpandAll(xs, bound, cap) == Some(xs)
    decreases |xs|
  {
    if xs != [] {
      ExpandAllFlat(xs[..|xs| - 1], bound, cap);
      NoSetIsLiteral(xs[|xs| - 1], false);
      assert xs[..|xs| - 1] + [xs[|xs| - 1]] == xs;
    }
  }

  /** `a{b,c}d`: a set of plain members gives one expansion per member, in
      order, each between `pre` and `post`; at the top level the empty ones
      are dropped. */
  lemma FlatOptions(pre: string, body: string, post: string, isTop: bool, j: int)
    requires NoChar(pre, '{') && NoChar(body, '{') && NoChar(body, '}') && NoChar(post, '{')
    requires !EndsWithDollar(pre) && 0 <= j < |body| && body[j] == ','
    ensures ExpandSpec(pre + "{" + body + "}" + post, isTop) == Some(Combine(pre, Split(body, ","), [post], !isTop))
  {
    var str := pre + "{" + body + "}" + post;
    FlatMatch(str, pre, body, post);
    assert ExpandSpec(str, isTop) == ExpandMatched(str, pre, body, post, isTop);
    CommaNotSequence(body, j);
    OccursAtChar(body, ',', j);
    assert IndexOf(body, ",", 0) >= 0;
    assert ExpandMatched(str, pre, body, post, isTop) == ExpandSet(str, pre, body, post, isTop);
    if |post| > 0 {
      NoSetIsLiteral(post, false);
    }
    OpensSplit(str, pre, body, post);
    assert ExpandSet(str, pre, body, post, isTop) == ExpandOptions(str, pre, body, post, isTop, [post]);
    ParseCommaPartsFlat(body);
    SplitFound(body, ",", j);
    var parts := Split(body, ",");
    ParseCommaPartsJoin(body);
    PartsBelow(str, pre, body, post, parts);
    assert ExpandOptions(str, pre, body, post, isTop, [post]) == ExpandMembers(str, pre, body, post, isTop, [post], parts);
    SplitNoChar(body, ",", '{');
    ExpandAllFlat(parts, Opens(str), Opens(body));
  }

  /** The expansions of `pre`, `a1`, `a2` and `post` for a single post
      alternative, all kept. */
  lemma CombineTwo(pre: string, a1: string, a2: string, post: string)
    ensures Combine(pre, [a1, a2], [post], true) == [pre + a1 + post, pre + a2 + post]
  {
    var xs := [a1, a2];
    assert xs[..1] == [a1] && [a1][..0] == [] && [post][..0] == [];
    assert Row(pre, a1, [post], true) == [pre + a1 + post];
    assert Row(pre, a2, [post], true) == [pre + a2 + post];
    assert Combine(pre, [a1], [post], true) == Row(pre, a1, [post], true);
  }

  /** The expansions of `pre`, `a1`, `a2`, `a3` and `post` for a single
      post alternative, when none of them is empty or all are kept. */
  lemma CombineThree(pre: string, a1: string, a2: string, a3: string, post: string, keepEmpty: bool)
    requires keepEmpty || pre + post != ""
    ensures Combine(pre, [a1, a2, a3], [post], keepEmpty) == [pre + a1 + post, pre + a2 + post, pre + a3 + post]
  {
    var xs := [a1, a2, a3];
    assert xs[..2] == [a1, a2] && xs[..2][..1] == [a1] && [a1][..0] == [] && [post][..0] == [];
    assert |pre + a1 + post| >= |pre + post| && |pre + a2 + post| >= |pre + post| && |pre + a3 + post| >= |pre + post|;
    assert Row(pre, a1, [post], keepEmpty) == [pre + a1 + post];
    assert Row(pre, a2, [post], keepEmpty) == [pre + a2 + post];
    assert Row(pre, a3, [post], keepEmpty) == [pre + a3 + post];
    assert Combine(pre, [a1], [post], keepEmpty) == Row(pre, a1, [post], keepEmpty);
    assert Combine(pre, [a1, a2], [post], keepEmpty) == Combine(pre, [a1], [post], keepEmpty) + Row(pre, a2, [post], keepEmpty);
  }

  /** Text holding no brace and no comma. */
  predicate Bare(s: string)
  {
    '{' !in s && '}' !in s && ',' !in s
  }

  lemma NoCharIn(s: string, c: char)
    ensures NoChar(s, c) <==> c !in s
  {
  }

  /** `c{d,e}f`: a member that is itself a set of two plain members expands
      to `c` + `d` + `f` and `c` + `e` + `f`, in that order. */
  lemma MemberFlat(x: string, d: string, e: string, y: string)
    requires Bare(x) && Bare(d) && Bare(e) && Bare(y) && !EndsWithDollar(x)
    ensures ExpandSpec(x + "{" + d + "," + e + "}" + y, false) == Some([x + d + y, x + e + y])
  {
    InnerText(x, d, e, y);
    MemberFlatAt(x, d + [','] + e, d, e, y);
  }

  lemma InnerText(x: string, d: string, e: string, y: string)
    ensures x + "{" + d + "," + e + "}" + y == x + "{" + (d + [','] + e) + "}" + y
  {
  }

  lemma MemberFlatAt(x: string, ib: string, d: string, e: string, y: string)
    requires Bare(x) && Bare(d) && Bare(e) && Bare(y) && !EndsWithDollar(x) && ib == d + [','] + e
    ensures ExpandSpec(x + "{" + ib + "}" + y, false) == Some([x + d + y, x + e + y])
  {
    NoCharIn(x, '{');
    NoCharIn(y, '{');
    NoCharIn(ib, '{');
    NoCharIn(ib, '}');
    assert ib[|d|] == ',';
    FlatOptions(x, ib, y, false, |d|);
    SplitPair(d, e, ',');
    CombineTwo(x, d, e, y);
  }

  /** A body `lead{ib}y` with no brace in `lead`, `ib` or `y` and no comma
      in `y` is parsed as the members of `lead` with the last one joined to
      `{ib}y`. */
  lemma PartsAroundPair(body: string, lead: string, ib: string, y: string)
    requires body == lead + "{" + ib + "}" + y
    requires NoChar(lead, '{') && NoChar(ib, '{') && NoChar(ib, '}') && Bare(y)
    ensures ParseCommaParts(body) == Glue(Split(lead, ","), "{" + ib + "}", [y])
  {
    FlatMatch(body, lead, ib, y);
    if |y| > 0 {
      NoCharIn(y, '{');
      ParseCommaPartsFlat(y);
      SplitWithout(y, ',');
    }
  }

  /** `b,c{d,e}f` is parsed into the members `b` and `c{d,e}f`: the comma
      inside the inner pair does not separate members. */
  lemma NestedParts(m: string, x: string, ib: string, y: string)
    requires Bare(m) && Bare(x) && '{' !in ib && '}' !in ib && Bare(y)
    ensures ParseCommaParts(m + "," + x + "{" + ib + "}" + y) == [m, x + "{" + ib + "}" + y]
  {
    var lead := m + "," + x;
    NoCharIn(lead, '{');
    NoCharIn(ib, '{');
    NoCharIn(ib, '}');
    PartsAroundPair(m + "," + x + "{" + ib + "}" + y, lead, ib, y);
    SplitPair(m, x, ',');
    GlueTwo(m, x, ib, y);
  }

  lemma GlueTwo(m: string, x: string, ib: string, y: string)
    ensures Glue([m, x], "{" + ib + "}", [y]) == [m, x + "{" + ib + "}" + y]
  {
    assert x + ("{" + ib + "}") + y == x + "{" + ib + "}" + y;
  }

  /** The body `b,c{d,e}f` is balanced. */
  lemma NestedBalanced(m: string, x: string, ib: string, y: string)
    requires Bare(m) && Bare(x) && '{' !in ib && '}' !in ib && Bare(y)
    ensures Balanced.BalancedText('{', '}', m + "," + x + "{" + ib + "}" + y)
  {
    Balanced.PairBalanced('{', '}', m + "," + x, ib, y);
    assert m + "," + x + "{" + ib + "}" + y == (m + "," + x) + ['{'] + ib + ['}'] + y;
  }

  /** The members `m` and `mem` expand, one after the other, to `m` and
      the expansions of `mem`. */
  lemma TwoMembersAll(m: string, mem: string, inner: seq<string>, bound: nat, cap: nat)
    requires Bare(m) && ExpandSpec(mem, false) == Some(inner)
    requires AllBelow([m, mem], bound) && AllAtMost([m, mem], cap)
    ensures ExpandAll([m, mem], bound, cap) == Some([m] + inner)
  {
    assert [m, mem][..1] == [m] && [m][..0] == [];
    assert AllBelow([m], bound) && AllAtMost([m], cap) by {
      assert [m][0] == [m, mem][0];
    }
    NoCharIn(m, '{');
    NoSetIsLiteral(m, false);
    assert ExpandAll([], bound, cap) == Some([]);
    assert [] + [m] == [m];
    assert ExpandAll([m], bound, cap) == Some([m]);
  }

  /** `expand` of a set whose body holds a comma at `j`, found as the first
      balanced pair, goes to the comma-set case with the single post
      alternative `post`. */
  lemma CommaSetOptions(str: string, pre: string, body: string, post: string, j: nat, isTop: bool)
    requires str == pre + "{" + body + "}" + post && j < |body| && body[j] == ','
    requires '{' !in pre && '{' !in post && !EndsWithDollar(pre)
    requires Balanced.BalancedText('{', '}', body)
    ensures ExpandSpec(str, isTop) == ExpandSet(str, pre, body, post, isTop)
  {
    Balanced.BalancedAround('{', '}', pre, body, post);
    assert ExpandSpec(str, isTop) == ExpandMatched(str, pre, body, post, isTop);
    CommaNotSequence(body, j);
    OccursAtChar(body, ',', j);
    assert IndexOf(body, ",", 0) >= 0;
  }

  lemma CommaSetPost(str: string, pre: string, body: string, post: string, j: nat, isTop: bool)
    requires str == pre + "{" + body + "}" + post && j < |body| && body[j] == ','
    requires '{' !in post
    ensures ExpandSet(str, pre, body, post, isTop) == ExpandOptions(str, pre, body, post, isTop, [post])
  {
    if |post| > 0 {
      NoCharIn(post, '{');
      NoSetIsLiteral(post, false);
    }
    CommaNotSequence(body, j);
  }

  /** A set of two members, the first plain, expands to the first member
      and then the expansions of the second, each between `pre` and
      `post`. */
  lemma TwoMembers(str: string, pre: string, body: string, post: string, m: string, mem: string, inner: seq<string>, isTop: bool)
    requires str == pre + "{" + body + "}" + post && body == m + [','] + mem
    requires '{' !in pre && '{' !in post && !EndsWithDollar(pre) && Bare(m)
    requires Balanced.BalancedText('{', '}', body) && ParseCommaParts(body) == [m, mem]
    requires ExpandSpec(mem, false) == Some(inner)
    ensures ExpandSpec(str, isTop) == Some(Combine(pre, [m] + inner, [post], !isTop))
  {
    assert body[|m|] == ',';
    CommaSetOptions(str, pre, body, post, |m|, isTop);
    CommaSetPost(str, pre, body, post, |m|, isTop);
    TwoMembersCombine(str, pre, body, post, m, mem, inner, isTop);
  }

  lemma TwoMembersCombine(str: string, pre: string, body: string, post: string, m: string, mem: string, inner: seq<string>, isTop: bool)
    requires str == pre + "{" + body + "}" + post
    requires Bare(m) && ParseCommaParts(body) == [m, mem] && ExpandSpec(mem, false) == Some(inner)
    requires AllAtMost([post], Opens(post))
    ensures ExpandOptions(str, pre, body, post, isTop, [post]) == Some(Combine(pre, [m] + inner, [post], !isTop))
  {
    ParseCommaPartsJoin(body);
    PartsBelow(str, pre, body, post, [m, mem]);
    OpensSplit(str, pre, body, post);
    assert ExpandOptions(str, pre, body, post, isTop, [post]) == ExpandMembers(str, pre, body, post, isTop, [post], [m, mem]);
    TwoMembersAll(m, mem, inner, Opens(str), Opens(body));
  }

  /** `a{b,c{d,e}f}g`: a set whose second member is itself a set expands
      member by member, the inner set's expansions in its place:
      `abg`, `acdfg`, `acefg`. */
  lemma NestedOptions(pre: string, m: string, x: string, d: string, e: string, y: string, post: string, isTop: bool)
    requires '{' !in pre && '{' !in post && !EndsWithDollar(pre) && !EndsWithDollar(x)
    requires Bare(m) && Bare(x) && Bare(d) && Bare(e) && Bare(y)
    ensures ExpandSpec(pre + "{" + m + "," + x + "{" + d + "," + e + "}" + y + "}" + post, isTop)
            == Some(Combine(pre, [m, x + d + y, x + e + y], [post], !isTop))
    ensures !isTop || pre + post != "" ==>
              ExpandSpec(pre + "{" + m + "," + x + "{" + d + "," + e + "}" + y + "}" + post, isTop)
              == Some([pre + m + post, pre + x + d + y + post, pre + x + e + y + post])
  {
    var ib := d + [','] + e;
    var mem := x + "{" + ib + "}" + y;
    var body := m + [','] + mem;
    NestedText(pre, m, x, d, e, y, post);
    NestedStep(pre + "{" + body + "}" + post, pre, body, post, m, x, ib, d, e, y, mem, isTop);
    if !isTop || pre + post != "" {
      NestedList(pre, m, x, d, e, y, post, !isTop);
    }
  }

  lemma NestedList(pre: string, m: string, x: string, d: string, e: string, y: string, post: string, keepEmpty: bool)
    requires keepEmpty || pre + post != ""
    ensures Combine(pre, [m, x + d + y, x + e + y], [post], keepEmpty)
            == [pre + m + post, pre + x + d + y + post, pre + x + e + y + post]
  {
    CombineThree(pre, m, x + d + y, x + e + y, post, keepEmpty);
    assert pre + (x + d + y) + post == pre + x + d + y + post;
    assert pre + (x + e + y) + post == pre + x + e + y + post;
  }

  lemma NestedText(pre: string, m: string, x: string, d: string, e: string, y: string, post: string)
    ensures pre + "{" + m + "," + x + "{" + d + "," + e + "}" + y + "}" + post
            == pre + "{" + (m + [','] + (x + "{" + (d + [','] + e) + "}" + y)) + "}" + post
  {
  }

  lemma BodyText(m: string, x: string, ib: string, y: string)
    ensures m + [','] + (x + "{" + ib + "}" + y) == m + "," + x + "{" + ib + "}" + y
  {
  }

  lemma NestedStep(str: string, pre: string, body: string, post: string, m: string, x: string, ib: string,
                   d: string, e: string, y: string, mem: string, isTop: bool)
    requires '{' !in pre && '{' !in post && !EndsWithDollar(pre) && !EndsWithDollar(x)
    requires Bare(m) && Bare(x) && Bare(d) && Bare(e) && Bare(y)
    requires ib == d + [','] + e && mem == x + "{" + ib + "}" + y && body == m + [','] + mem
    requires str == pre + "{" + body + "}" + post
    ensures ExpandSpec(str, isTop) == Some(Combine(pre, [m, x + d + y, x + e + y], [post], !isTop))
  {
    assert '{' !in ib && '}' !in ib;
    BodyText(m, x, ib, y);
    NestedBalanced(m, x, ib, y);
    NestedParts(m, x, ib, y);
    MemberFlatAt(x, ib, d, e, y);
    TwoMembers(str, pre, body, post, m, mem, [x + d + y, x + e + y], isTop);
    ConsTwo(m, x + d + y, x + e + y);
  }

  lemma ConsTwo(m: string, a: string, b: string)
    ensures [m] + [a, b] == [m, a, b]
  {
  }

  /** `a{b}c`: a set that is neither a sequence nor holds a comma stays as
      written when no comma-then-brace follows it. */
  lemma SingleMemberIsLiteral(pre: string, body: string, post: string, isTop: bool)
    requires NoChar(pre, '{') && NoChar(body, '{') && NoChar(body, '}')
    requires NoChar(body, ',') && !Contains(body, "..") && NoChar(post, ',')
    ensures ExpandSpec(pre + "{" + body + "}" + post, isTop) == Some([pre + "{" + body + "}" + post])
  {
    var str := pre + "{" + body + "}" + post;
    FlatMatch(str, pre, body, post);
    assert ExpandSpec(str, isTop) == ExpandMatched(str, pre, body, post, isTop);
    NeitherSequenceNorOptions(body);
    NoCommaNoMatch(post);
  }

  lemma NeitherSequenceNorOptions(body: string)
    requires NoChar(body, ',') && !Contains(body, "..")
    ensures !NumericParts(Split(body, "..")) && !AlphaParts(Split(body, ".."))
    ensures IndexOf(body, ",", 0) == -1
  {
    SplitNoSeparator(body, "..");
    var i := IndexOf(body, ",", 0);
    if i != -1 {
      OccursAtChar(body, ',', i);
    }
  }

  lemma NoCommaNoMatch(s: string)
    requires NoChar(s, ',')
    ensures !HasCommaThenClose(s)
  {
  }

  /** `a{2..}b`: a body `d..` without an upper end is no sequence and holds
      no comma, so the set stays as written. */
  lemma OpenEndedIsLiteral(pre: string, d: string, post: string, isTop: bool)
    requires NoChar(pre, '{') && |d| > 0 && AllDigits(d) && NoChar(post, ',')
    ensures ExpandSpec(pre + "{" + d + "..}" + post, isTop) == Some([pre + "{" + d + "..}" + post])
  {
    var body := d + "..";
    var str := pre + "{" + body + "}" + post;
    assert str == pre + "{" + d + "..}" + post;
    OpenEndedBody(d);
    FlatMatch(str, pre, body, post);
    assert ExpandSpec(str, isTop) == ExpandMatched(str, pre, body, post, isTop);
    NoCommaNoMatch(post);
  }

  lemma OpenEndedBody(d: string)
    requires |d| > 0 && AllDigits(d)
    ensures NoChar(d + "..", '{') && NoChar(d + "..", '}')
    ensures !NumericParts(Split(d + "..", "..")) && !AlphaParts(Split(d + "..", ".."))
    ensures IndexOf(d + "..", ",", 0) == -1
  {
    var body := d + "..";
    OpenEndedSplit(d);
    var n := Split(body, "..");
    assert n[1] == "" && !SignedInt(n[1]);
    DigitsThenDots(d, body, '{');
    DigitsThenDots(d, body, '}');
    DigitsThenDots(d, body, ',');
    OpenEndedNoComma(body);
  }

  /** Digits followed by `..` hold no character that is neither a digit
      nor a dot. */
  lemma DigitsThenDots(d: string, body: string, c: char)
    requires AllDigits(d) && body == d + ".." && !IsDigit(c) && c != '.'
    ensures NoChar(body, c)
  {
    forall k | 0 <= k < |body| ensures body[k] != c {
      if k < |d| {
        assert body[k] == d[k];
      }
    }
  }

  lemma OpenEndedSplit(d: string)
    requires |d| > 0 && AllDigits(d)
    ensures Split(d + "..", "..") == [d, ""]
  {
    SplitAfterDigits(d, "..");
  }

  lemma SplitAfterDigits(d: string, sep: string)
    requires AllDigits(d) && |sep| > 0 && !IsDigit(sep[0])
    ensures Split(d + sep, sep) == [d, ""]
  {
    var body := d + sep;
    assert body[|d|..|d| + |sep|] == sep;
    forall j | 0 <= j < |d| ensures !OccursAt(body, sep, j) {
      if j + |sep| <= |body| {
        assert body[j..j + |sep|][0] == body[j] == d[j];
      }
    }
    FirstOccurrence(body, sep, |d|);
    SplitAt(body, sep, |d|);
    assert body[..|d|] == d && body[|d| + |sep|..] == "";
    SplitNoSeparator("", sep);
  }

  lemma FirstOccurrence(s: string, pat: string, i: nat)
    requires OccursAt(s, pat, i) && forall j :: 0 <= j < i ==> !OccursAt(s, pat, j)
    ensures IndexOf(s, pat, 0) == i
  {
  }

  lemma OpenEndedNoComma(body: string)
    requires NoChar(body, ',')
    ensures IndexOf(body, ",", 0) == -1
  {
    forall j | 0 <= j <= |body| ensures !OccursAt(body, ",", j) {
      if j + 1 <= |body| {
        assert body[j..j + 1][0] == body[j];
      }
    }
  }

  /** `a${b,c}`: a set right after a dollar sign is not expanded. */
  lemma DollarIsLiteral(pre: string, body: string, post: string, isTop: bool)
    requires NoChar(pre, '{') && NoChar(body, '{') && NoChar(body, '}') && EndsWithDollar(pre)
    ensures ExpandSpec(pre + "{" + body + "}" + post, isTop) == Some([pre + "{" + body + "}" + post])
  {
    var str := pre + "{" + body + "}" + post;
    FlatMatch(str, pre, body, post);
    assert ExpandSpec(str, isTop) == ExpandMatched(str, pre, body, post, isTop);
  }

  // ---- What the nested loops produce ----

  /** The members that are not empty, in order. */
  function DropEmpty(xs: seq<string>): (r: seq<string>)
    ensures |r| <= |xs|
    ensures forall k :: 0 <= k < |r| ==> r[k] != ""
    decreases |xs|
  {
    if xs == [] then []
    else DropEmpty(xs[..|xs| - 1]) + (if xs[|xs| - 1] != "" then [xs[|xs| - 1]] else [])
  }

  lemma {:induction false} DropEmptyAppend(a: seq<string>, b: seq<string>)
    ensures DropEmpty(a + b) == DropEmpty(a) + DropEmpty(b)
    decreases |b|
  {
    if b != [] {
      var b' := b[..|b| - 1];
      assert (a + b)[..|a + b| - 1] == a + b';
      DropEmptyAppend(a, b');
    } else {
      assert a + b == a;
    }
  }

  lemma {:induction false} RowTop(pre: string, x: string, post: seq<string>)
    ensures Row(pre, x, post, false) == DropEmpty(Row(pre, x, post, true))
    decreases |post|
  {
    if post != [] {
      var e := pre + x + post[|post| - 1];
      RowTop(pre, x, post[..|post| - 1]);
      DropEmptyAppend(Row(pre, x, post[..|post| - 1], true), [e]);
      assert [e][..0] == [];
    }
  }

  /** At the top level, the expansions are those of an inner level with the
      empty ones dropped. */
  lemma {:induction false} CombineTop(pre: string, xs: seq<string>, post: seq<string>)
    ensures Combine(pre, xs, post, false) == DropEmpty(Combine(pre, xs, post, true))
    decreases |xs|
  {
    if xs != [] {
      CombineTop(pre, xs[..|xs| - 1], post);
      RowTop(pre, xs[|xs| - 1], post);
      DropEmptyAppend(Combine(pre, xs[..|xs| - 1], post, true), Row(pre, xs[|xs| - 1], post, true));
    }
  }

  lemma {:induction false} CombineLength(pre: string, xs: seq<string>, post: seq<string>)
    ensures |Combine(pre, xs, post, true)| == |xs| * |post|
    decreases |xs|
  {
    if xs != [] {
      var n := |xs| - 1;
      CombineLength(pre, xs[..n], post);
      RowIs(pre, xs[n], post);
      MulStep(n, |post|);
    }
  }

  /** Keeping every expansion, member `j` and post alternative `k` give
      entry `j * |post| + k`: members outside, alternatives inside. */
  lemma {:induction false} CombineAt(pre: string, xs: seq<string>, post: seq<string>, j: nat, k: nat)
    requires j < |xs| && k < |post|
    ensures j * |post| + k < |Combine(pre, xs, post, true)|
    ensures Combine(pre, xs, post, true)[j * |post| + k] == pre + xs[j] + post[k]
    decreases |xs|
  {
    var n := |xs| - 1;
    var p := |post|;
    var front := Combine(pre, xs[..n], post, true);
    var row := Row(pre, xs[n], post, true);
    CombineLength(pre, xs, post);
    CombineLength(pre, xs[..n], post);
    IndexBelow(j, |xs|, p, k);
    RowIs(pre, xs[n], post);
    var at := j * p + k;
    if j < n {
      CombineAt(pre, xs[..n], post, j, k);
      assert xs[..n][j] == xs[j];
      PickFront(front, row, at);
    } else {
      PickBack(front, row, k);
    }
  }

  lemma PickFront(a: seq<string>, b: seq<string>, i: nat)
    requires i < |a|
    ensures (a + b)[i] == a[i]
  {
  }

  lemma PickBack(a: seq<string>, b: seq<string>, k: nat)
    requires k < |b|
    ensures (a + b)[|a| + k] == b[k]
  {
  }

  lemma MulStep(n: nat, p: nat)
    ensures (n + 1) * p == n * p + p
  {
  }

  lemma {:induction false} IndexBelow(j: nat, n: nat, p: nat, k: nat)
    requires j < n && k < p
    ensures 0 <= j * p && j * p + k < n * p
    decreases n
  {
    MulStep(n - 1, p);
    if j < n - 1 {
      IndexBelow(j, n - 1, p, k);
    }
  }

  // ---- Sequence values ----

  /** A value belongs to the sequence from `x` towards `y` in steps of
      `incr` exactly when it lies between the endpoints at a whole number of
      steps from `x`. */
  lemma SeqValueIff(x: int, y: int, incr: nat, v: int)
    requires incr > 0
    ensures (exists k :: 0 <= k < SeqCount(x, y, incr) && SeqValue(x, y, incr, k) == v) <==>
      ((if y < x then y <= v <= x else x <= v <= y) && Abs(v - x) % incr == 0)
  {
    var d := if y < x then x - y else y - x;
    if exists k :: 0 <= k < SeqCount(x, y, incr) && SeqValue(x, y, incr, k) == v {
      var k :| 0 <= k < SeqCount(x, y, incr) && SeqValue(x, y, incr, k) == v;
      SeqValueBetween(x, y, incr, k);
      assert Abs(v - x) == k * incr;
      MulMod(k, incr);
    }
    if (if y < x then y <= v <= x else x <= v <= y) && Abs(v - x) % incr == 0 {
      var e := Abs(v - x);
      var k := e / incr;
      assert e == k * incr;
      DivMono(e, d, incr);
      assert SeqValue(x, y, incr, k) == v;
    }
  }

  lemma MulSign(t: int, b: nat)
    ensures t >= 1 ==> t * b >= b
    ensures t <= -1 ==> t * b <= 0 - b as int
  {
  }

  /** A multiple of `incr` leaves no remainder. */
  lemma MulMod(k: nat, incr: nat)
    requires incr > 0
    ensures (k * incr) % incr == 0
  {
    var a := k * incr;
    var q := a / incr;
    var r := a % incr;
    assert a == q * incr + r;
    var t := k - q;
    assert t * incr == r;
    MulSign(t, incr);
  }

  lemma MulMonotone(x: int, y: int, c: nat)
    ensures x <= y ==> x * c <= y * c
  {
  }

  lemma DivMono(e: nat, d: nat, incr: nat)
    requires incr > 0 && e <= d
    ensures e / incr <= d / incr
  {
    var qe := e / incr;
    var qd := d / incr;
    assert e == qe * incr + e % incr;
    assert d == qd * incr + d % incr;
    MulMonotone(qd + 1, qe, incr);
    assert (qd + 1) * incr == qd * incr + incr;
  }

  // ---- How a value is printed ----

  lemma {:induction false} ZerosValue(z: nat)
    ensures AllDigits(Zeros(z)) && DigitsValue(Zeros(z)) == 0
    decreases z
  {
    if z > 0 {
      ZerosValue(z - 1);
      assert Zeros(z)[..z - 1] == Zeros(z - 1);
    }
  }

  /** Leading zeros do not change the value of a digit string. */
  lemma {:induction false} LeadingZeros(z: nat, d: string)
    requires AllDigits(d)
    ensures AllDigits(Zeros(z) + d) && DigitsValue(Zeros(z) + d) == DigitsValue(d)
    decreases |d|
  {
    ZerosValue(z);
    var s := Zeros(z) + d;
    if d == [] {
      assert s == Zeros(z);
    } else {
      var d' := d[..|d| - 1];
      LeadingZeros(z, d');
      assert s[..|s| - 1] == Zeros(z) + d';
    }
  }

  /** A printed number reads back as the same number, and padding makes it
      exactly `width` characters long when `String(i)` is shorter. */
  lemma ItemDenotes(i: int, pad: bool, width: nat)
    ensures var c := Item(i, false, pad, width);
      && SignedInt(c) && SignedValue(c) == i
      && |c| == (if pad && width > |IntToString(i)| then width else |IntToString(i)|)
  {
    ItemWidth(i, pad, width);
    var c := IntToString(i);
    var m: nat := if i < 0 then -i else i;
    var digits := NatToString(m);
    DigitsOfNat(m);
    var need := width - |c|;
    var r := Item(i, false, pad, width);
    NumericItem(i, pad, width);
    if pad && need > 0 {
      SignedText(need, digits);
      if i < 0 {
        assert c[1..] == digits;
        assert r == "-" + (Zeros(need) + digits);
      } else {
        assert r == Zeros(need) + digits;
      }
    } else {
      SignedText(0, digits);
      assert Zeros(0) + digits == digits;
      if i < 0 {
        assert c == "-" + digits;
      } else {
        assert c == digits;
      }
    }
  }

  lemma ItemWidth(i: int, pad: bool, width: nat)
    ensures |Item(i, false, pad, width)| == (if pad && width > |IntToString(i)| then width else |IntToString(i)|)
  {
    var c := IntToString(i);
    if pad && width > |c| && i < 0 {
      assert c[0] == '-';
    }
  }

  /** A number printed without padding is `String(i)`. */
  lemma NumericItem(i: int, pad: bool, width: nat)
    ensures !pad || width <= |IntToString(i)| ==> Item(i, false, pad, width) == IntToString(i)
  {
  }

  /** Zeros and digits read back as the value of the digits, with a minus
      sign before them as its negation. */
  lemma SignedText(z: nat, digits: string)
    requires AllDigits(digits) && |digits| >= 1
    ensures var u := Zeros(z) + digits;
      && SignedInt(u) && SignedValue(u) == DigitsValue(digits)
      && SignedInt("-" + u) && SignedValue("-" + u) == -(DigitsValue(digits) as int)
  {
    LeadingZeros(z, digits);
    var u := Zeros(z) + digits;
    assert IsDigit(u[0]);
    var t := "-" + u;
    assert t[0] == '-' && t[1..] == u;
  }

  // ---- The entry point ----

  /** `expandTop(str)`: escapes, expands at the top level, and unescapes
      every expansion.  `None` when the expansion never returns. */
  function ExpandTop(s: string): (r: Option<seq<string>>)
    ensures s == "" ==> r == Some([])
  {
    if s == "" then Some([]) else ExpandEscaped(EscapeBraces(ProtectLeadingPair(s)))
  }

  /** A leading `{}` is escaped, so that it stays as written. */
  function ProtectLeadingPair(s: string): (r: string)
    ensures (|s| < 2 || s[..2] != "{}") ==> r == s
  {
    if |s| >= 2 && s[..2] == "{}" then "\\{\\}" + s[2..] else s
  }

  /** The top-level expansions of an escaped pattern, unescaped. */
  function ExpandEscaped(e: string): (r: Option<seq<string>>)
  {
    match ExpandSpec(e, true)
    case None => None
    case Some(xs) => Some(UnescapeAll(xs))
  }

  function UnescapeAll(xs: seq<string>): (r: seq<string>)
    ensures |r| == |xs| && forall k :: 0 <= k < |xs| ==> r[k] == UnescapeBraces(xs[k])
  {
    seq(|xs|, k requires 0 <= k < |xs| => UnescapeBraces(xs[k]))
  }

  predicate Plain(s: string)
  {
    NoChar(s, '{') && NoChar(s, '\\') && NoChar(s, '\0')
  }

  /** A non-empty pattern without braces, backslashes or NUL characters
      expands to itself alone. */
  lemma ExpandTopPlain(s: string)
    requires s != "" && Plain(s)
    ensures ExpandTop(s) == Some([s])
  {
    assert ProtectLeadingPair(s) == s by {
      if |s| >= 2 {
        assert s[..2][0] == s[0] != '{';
      }
    }
    EscapeRoundTripPlain(s);
    NoSetIsLiteral(s, true);
    assert UnescapeAll([s]) == [s];
  }

  lemma {:induction false} CombineNoChar(pre: string, xs: seq<string>, post: seq<string>, keepEmpty: bool, c: char)
    requires NoChar(pre, c)
    requires forall k :: 0 <= k < |xs| ==> NoChar(xs[k], c)
    requires forall k :: 0 <= k < |post| ==> NoChar(post[k], c)
    ensures forall k :: 0 <= k < |Combine(pre, xs, post, keepEmpty)| ==> NoChar(Combine(pre, xs, post, keepEmpty)[k], c)
    decreases |xs|
  {
    if xs != [] {
      CombineNoChar(pre, xs[..|xs| - 1], post, keepEmpty, c);
      RowNoChar(pre, xs[|xs| - 1], post, keepEmpty, c);
    }
  }

  lemma {:induction false} RowNoChar(pre: string, x: string, post: seq<string>, keepEmpty: bool, c: char)
    requires NoChar(pre, c) && NoChar(x, c)
    requires forall k :: 0 <= k < |post| ==> NoChar(post[k], c)
    ensures forall k :: 0 <= k < |Row(pre, x, post, keepEmpty)| ==> NoChar(Row(pre, x, post, keepEmpty)[k], c)
    decreases |post|
  {
    if post != [] {
      RowNoChar(pre, x, post[..|post| - 1], keepEmpty, c);
    }
  }

  lemma UnescapeAllPlain(xs: seq<string>)
    requires forall k :: 0 <= k < |xs| ==> NoChar(xs[k], '\\') && NoChar(xs[k], '\0')
    ensures UnescapeAll(xs) == xs
  {
    forall k | 0 <= k < |xs| ensures UnescapeAll(xs)[k] == xs[k] {
      EscapeRoundTripPlain(xs[k]);
    }
  }

  /** `expandTop("a{b,c}d")` for plain `a`, `b,c` and `d`: one expansion per
      member, the empty ones dropped. */
  lemma ExpandTopFlat(pre: string, body: string, post: string, j: int)
    requires Plain(pre) && Plain(body) && NoChar(body, '}') && Plain(post)
    requires !EndsWithDollar(pre) && 0 <= j < |body| && body[j] == ','
    ensures ExpandTop(pre + "{" + body + "}" + post) == Some(DropEmpty(Combine(pre, Split(body, ","), [post], true)))
  {
    var str := pre + "{" + body + "}" + post;
    FlatEscaped(str, pre, body, post);
    assert ExpandTop(str) == ExpandEscaped(str);
    FlatOptions(pre, body, post, true, j);
    var parts := Split(body, ",");
    FlatUnescaped(pre, body, post);
    assert ExpandEscaped(str) == Some(Combine(pre, parts, [post], false));
    CombineTop(pre, parts, [post]);
  }

  /** The expansions of a flat comma set hold no escape to undo. */
  lemma FlatUnescaped(pre: string, body: string, post: string)
    requires Plain(pre) && Plain(body) && Plain(post)
    ensures var xs := Combine(pre, Split(body, ","), [post], false); UnescapeAll(xs) == xs
  {
    var parts := Split(body, ",");
    var xs := Combine(pre, parts, [post], false);
    SplitNoChar(body, ",", '\\');
    SplitNoChar(body, ",", '\0');
    CombineNoChar(pre, parts, [post], false, '\\');
    CombineNoChar(pre, parts, [post], false, '\0');
    UnescapeAllPlain(xs);
  }

  lemma FlatEscaped(str: string, pre: string, body: string, post: string)
    requires str == pre + "{" + body + "}" + post
    requires Plain(pre) && Plain(body) && NoChar(body, '}') && Plain(post) && body != ""
    ensures EscapeBraces(ProtectLeadingPair(str)) == str
  {
    assert ProtectLeadingPair(str) == str by {
      if |pre| == 0 {
        assert str[1] == body[0] != '}';
      } else {
        assert str[0] == pre[0] != '{';
      }
      assert str[..2][0] == str[0] && str[..2][1] == str[1];
    }
    forall k | 0 <= k < |str| ensures str[k] != '\\' && str[k] != '\0' {
      if k < |pre| {
        assert str[k] == pre[k];
      } else if k == |pre| {
      } else if k < |pre| + 1 + |body| {
        assert str[k] == body[k - |pre| - 1];
      } else if k == |pre| + 1 + |body| {
      } else {
        assert str[k] == post[k - |pre| - 2 - |body|];
      }
    }
    EscapeRoundTripPlain(str);
  }

  lemma ExpandTopExample()
    ensures ExpandTop("a{b,c}d") == Some(["abd", "acd"])
  {
    assert "a" + "{" + "b,c" + "}" + "d" == "a{b,c}d";
    ExpandTopFlat("a", "b,c", "d", 1);
    SplitExample();
    CombineExample();
  }

  lemma SplitExample()
    ensures Split("b,c", ",") == ["b", "c"]
  {
    OccursAtChar("b,c", ',', 0);
    OccursAtChar("b,c", ',', 1);
    assert IndexOf("b,c", ",", 0) == 1;
    SplitAt("b,c", ",", 1);
    assert "b,c"[..1] == "b" && "b,c"[2..] == "c";
    NoCharNoToken("c", ",");
    SplitNoSeparator("c", ",");
  }

  lemma CombineExample()
    ensures DropEmpty(Combine("a", ["b", "c"], ["d"], true)) == ["abd", "acd"]
  {
    var xs := Combine("a", ["b", "c"], ["d"], true);
    CombineLength("a", ["b", "c"], ["d"]);
    CombineAt("a", ["b", "c"], ["d"], 0, 0);
    CombineAt("a", ["b", "c"], ["d"], 1, 0);
    assert "a" + "b" + "d" == "abd" && "a" + "c" + "d" == "acd";
    assert xs == ["abd", "acd"];
    assert xs[..1] == ["abd"];
    assert ["abd"][..0] == [];
  }
}
