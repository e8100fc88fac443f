// The brace expander as the module runs it: `expand` recursing through the
// brace sets, the `for` loop that prints a sequence, `concatMap` over the
// members of a set, and the two nested loops that join `pre`, each member and
// each `post` alternative.  Each method is proved to compute the matching
// function of BraceExpansion.
module BraceExpander {
  import opened Wrappers
  import opened JsString
  import opened Decimal
  import Balanced
  import opened BraceExpansion

  /** `expandTop(str)`, for the patterns on which it returns. */
  method ExpandPattern(s: string) returns (r: seq<string>)
    requires ExpandTop(s).Some?
    ensures ExpandTop(s) == Some(r)
  {
    if s == "" {
      return [];
    }
    var xs := Expand(EscapeBraces(ProtectLeadingPair(s)), true);
    r := UnescapeAll(xs);
  }

  /** `expand(str, isTop)`, for the patterns on which it returns. */
  method Expand(str: string, isTop: bool) returns (r: seq<string>)
    requires ExpandSpec(str, isTop).Some?
    ensures ExpandSpec(str, isTop) == Some(r)
    decreases Opens(str), Closes(str), 5
  {
    var m := Balanced.BalancedMatch('{', '}', str);
    if m.None? {
      return [str];
    }
    var pre, body, post := m.value.pre, m.value.body, m.value.post;
    assert ExpandSpec(str, isTop) == ExpandMatched(str, pre, body, post, isTop);
    if EndsWithDollar(pre) {
      return [str];
    }
    var n := Split(body, "..");
    var isSequence := NumericParts(n) || AlphaParts(n);
    var isOptions := IndexOf(body, ",", 0) >= 0;
    if !isSequence && !isOptions {
      if HasCommaThenClose(post) {
        ClosesEscaped(str, pre, body, post);
        r := Expand(pre + "{" + body + EscClose + post, false);
        return;
      }
      return [str];
    }
    r := ExpandBraceSet(str, pre, body, post, isTop);
  }

  /** `expand` once the set `{body}` is known to be a sequence or a comma
      set. */
  method ExpandBraceSet(str: string, pre: string, body: string, postText: string, isTop: bool) returns (r: seq<string>)
    requires str == pre + "{" + body + "}" + postText
    requires ExpandSet(str, pre, body, postText, isTop).Some?
    ensures ExpandSet(str, pre, body, postText, isTop) == Some(r)
    decreases Opens(str), Closes(str), 3
  {
    OpensSplit(str, pre, body, postText);
    var post: seq<string>;
    if |postText| > 0 {
      post := Expand(postText, false);
    } else {
      post := [""];
    }
    var n := Split(body, "..");
    if NumericParts(n) || AlphaParts(n) {
      var isAlpha := !NumericParts(n);
      var items := Sequence(n, isAlpha);
      r := Product(pre, items, post, true);
      return;
    }
    assert ExpandSet(str, pre, body, postText, isTop) == ExpandOptions(str, pre, body, postText, isTop, post);
    r := ExpandCommaSet(str, pre, body, postText, isTop, post);
  }

  /** The comma-set case, given the expansions `post` of the text after the
      set. */
  method ExpandCommaSet(str: string, pre: string, body: string, postText: string, isTop: bool, post: seq<string>)
    returns (r: seq<string>)
    requires str == pre + "{" + body + "}" + postText
    requires AllAtMost(post, Opens(postText))
    requires |post| >= 2 ==> AllBelow(post, Opens(postText))
    requires ExpandOptions(str, pre, body, postText, isTop, post).Some?
    ensures ExpandOptions(str, pre, body, postText, isTop, post) == Some(r)
    decreases Opens(str), Closes(str), 2
  {
    OpensSplit(str, pre, body, postText);
    var parts := ParseCommaParts(body);
    ParseCommaPartsJoin(body);
    PartsBelow(str, pre, body, postText, parts);
    if |parts| == 1 {
      assert ExpandOptions(str, pre, body, postText, isTop, post) == ExpandNested(str, pre, body, postText, isTop, post);
      r := ExpandSingleMember(str, pre, body, postText, isTop, post);
    } else {
      assert ExpandOptions(str, pre, body, postText, isTop, post) == ExpandMembers(str, pre, body, postText, isTop, post, parts);
      var items := ExpandEach(parts, Opens(str), Opens(body));
      r := Product(pre, items, post, !isTop);
    }
  }

  /** `x{{a,b}}y`: the single member is expanded, and each expansion braced
      again unless there is only one. */
  method ExpandSingleMember(str: string, pre: string, body: string, postText: string, isTop: bool, post: seq<string>)
    returns (r: seq<string>)
    requires str == pre + "{" + body + "}" + postText
    requires AllAtMost(post, Opens(postText))
    requires |post| >= 2 ==> AllBelow(post, Opens(postText))
    requires ExpandNested(str, pre, body, postText, isTop, post).Some?
    ensures ExpandNested(str, pre, body, postText, isTop, post) == Some(r)
    decreases Opens(str), Closes(str), 1
  {
    OpensSplit(str, pre, body, postText);
    var inner := Expand(body, false);
    if |inner| == 1 {
      return Row(pre, Embrace(inner[0]), post, true);
    }
    assert ExpandNested(str, pre, body, postText, isTop, post) == ExpandBraced(str, pre, body, postText, isTop, post, inner);
    var braced := EmbraceAll(inner);
    EmbracedBelow(inner, braced, Opens(body), Opens(str));
    var items := ExpandEach(braced, Opens(str), Opens(body));
    r := Product(pre, items, post, !isTop);
  }

  /** `concatMap(xs, el => expand(el, false))`. */
  method ExpandEach(xs: seq<string>, ghost bound: nat, ghost cap: nat) returns (r: seq<string>)
    requires AllBelow(xs, bound) && AllAtMost(xs, cap)
    requires ExpandAll(xs, bound, cap).Some?
    ensures ExpandAll(xs, bound, cap) == Some(r)
    decreases bound, 0
  {
    r := [];
    for i := 0 to |xs|
      invariant AllBelow(xs[..i], bound) && AllAtMost(xs[..i], cap)
      invariant ExpandAll(xs[..i], bound, cap) == Some(r)
    {
      ExpandAllStep(xs, i, bound, cap);
      var e := Expand(xs[i], false);
      r := r + e;
    }
    assert xs[..|xs|] == xs;
  }

  /** The values of a sequence body `x..y[..incr]`, printed one by one while
      the value has not passed `y`. */
  method Sequence(n: seq<string>, isAlpha: bool) returns (items: seq<string>)
    requires if isAlpha then AlphaParts(n) else NumericParts(n)
    requires SeqItems(n, isAlpha).Some?
    ensures SeqItems(n, isAlpha) == Some(items)
  {
    var x := Numeric(n[0]);
    var y := Numeric(n[1]);
    var width := if |n[0]| < |n[1]| then |n[1]| else |n[0]|;
    var incr: nat := if |n| == 3 then Abs(Numeric(n[2])) else 1;
    var pad := AnyPadded(n);
    if isAlpha {
      assert !SignedInt(n[0]) && !SignedInt(n[1]);
    }
    items := SequenceLoop(x, y, incr, isAlpha, pad, width);
    ghost var all := SeqItems(n, isAlpha).value;
    assert |all| == SeqCount(x, y, incr);
    forall k | 0 <= k < |all|
      ensures items[k] == all[k]
    {
      SeqItemsAt(n, isAlpha, k);
      assert items[k] == ItemAt(x, y, incr, k, isAlpha, pad, width);
    }
    assert items == all;
  }

  /** Value `k` of the sequence from `x` towards `y`, printed. */
  function ItemAt(x: int, y: int, incr: nat, k: nat, isAlpha: bool, pad: bool, width: nat): string
    requires incr > 0 && k < SeqCount(x, y, incr)
    requires isAlpha ==> 'A' as int <= x <= 'z' as int && 'A' as int <= y <= 'z' as int
  {
    SeqValueBetween(x, y, incr, k);
    Item(SeqValue(x, y, incr, k), isAlpha, pad, width)
  }

  /** The `for` loop of a sequence body: the value starts at `x` and moves
      by `incr` towards `y` while it has not passed `y`. */
  method SequenceLoop(x: int, y: int, incr: nat, isAlpha: bool, pad: bool, width: nat) returns (items: seq<string>)
    requires incr > 0
    requires isAlpha ==> 'A' as int <= x <= 'z' as int && 'A' as int <= y <= 'z' as int
    ensures |items| == SeqCount(x, y, incr)
    ensures forall k :: 0 <= k < |items| ==> items[k] == ItemAt(x, y, incr, k, isAlpha, pad, width)
  {
    var reverse := y < x;
    var delta: int := if reverse then -(incr as int) else incr as int;
    items := [];
    var i := x;
    SequenceGuard(x, y, incr, 0);
    while if reverse then i >= y else i <= y
      invariant |items| <= SeqCount(x, y, incr)
      invariant forall k :: 0 <= k < |items| ==> items[k] == ItemAt(x, y, incr, k, isAlpha, pad, width)
      invariant i == SeqValue(x, y, incr, |items|)
      invariant (if reverse then i >= y else i <= y) <==> |items| < SeqCount(x, y, incr)
      decreases SeqCount(x, y, incr) - |items|
    {
      SeqValueBetween(x, y, incr, |items|);
      var c := Item(i, isAlpha, pad, width);
      assert c == ItemAt(x, y, incr, |items|, isAlpha, pad, width);
      SeqValueNext(x, y, incr, |items|);
      items := items + [c];
      i := i + delta;
      SequenceGuard(x, y, incr, |items|);
    }
  }

  /** Item `k` of a sequence body is value `k` printed. */
  lemma SeqItemsAt(n: seq<string>, isAlpha: bool, k: nat)
    requires if isAlpha then AlphaParts(n) else NumericParts(n)
    requires SeqItems(n, isAlpha).Some? && k < |SeqItems(n, isAlpha).value|
    ensures var incr := if |n| == 3 then Abs(Numeric(n[2])) else 1;
            incr > 0 && k < SeqCount(Numeric(n[0]), Numeric(n[1]), incr)
            && (isAlpha ==> 'A' as int <= SeqValue(Numeric(n[0]), Numeric(n[1]), incr, k) <= 'z' as int)
    ensures var incr := if |n| == 3 then Abs(Numeric(n[2])) else 1;
            var width := if |n[0]| < |n[1]| then |n[1]| else |n[0]|;
            SeqItems(n, isAlpha).value[k]
            == Item(SeqValue(Numeric(n[0]), Numeric(n[1]), incr, k), isAlpha, AnyPadded(n), width)
  {
    var incr := if |n| == 3 then Abs(Numeric(n[2])) else 1;
    SeqItemsValueInRange(Numeric(n[0]), Numeric(n[1]), incr, k, isAlpha, n);
  }

  /** Value `k + 1` is one step past value `k`. */
  lemma SeqValueNext(x: int, y: int, incr: nat, k: nat)
    ensures SeqValue(x, y, incr, k + 1) == SeqValue(x, y, incr, k) + (if y < x then -(incr as int) else incr as int)
  {
    MulStep(k, incr);
  }

  /** The two nested loops: every member of `xs` with every alternative of
      `post`, keeping an empty expansion only when `keepEmpty` holds. */
  method Product(pre: string, xs: seq<string>, post: seq<string>, keepEmpty: bool) returns (r: seq<string>)
    ensures r == Combine(pre, xs, post, keepEmpty)
  {
    r := [];
    for j := 0 to |xs|
      invariant r == Combine(pre, xs[..j], post, keepEmpty)
    {
      assert xs[..j + 1][..j] == xs[..j];
      for k := 0 to |post|
        invariant r == Combine(pre, xs[..j], post, keepEmpty) + Row(pre, xs[j], post[..k], keepEmpty)
      {
        assert post[..k + 1][..k] == post[..k];
        var expansion := pre + xs[j] + post[k];
        if keepEmpty || expansion != "" {
          r := r + [expansion];
        }
      }
      assert post[..|post|] == post;
    }
    assert xs[..|xs|] == xs;
  }

  // ---- Facts the loops rest on ----

  /** One more member of `xs` adds its expansions at the end. */
  lemma ExpandAllStep(xs: seq<string>, i: nat, bound: nat, cap: nat)
    requires i < |xs| && AllBelow(xs, bound) && AllAtMost(xs, cap)
    requires ExpandAll(xs, bound, cap).Some? && ExpandAll(xs[..i], bound, cap).Some?
    ensures AllBelow(xs[..i + 1], bound) && AllAtMost(xs[..i + 1], cap)
    ensures AllBelow([xs[i]], bound)
    ensures ExpandSpec(xs[i], false).Some?
    ensures ExpandAll(xs[..i + 1], bound, cap) == Some(ExpandAll(xs[..i], bound, cap).value + ExpandSpec(xs[i], false).value)
  {
    ExpandAllPrefix(xs, i + 1, bound, cap);
    assert xs[..i + 1][..i] == xs[..i];
    assert xs[..i + 1][i] == xs[i];
    assert [xs[i]][0] == xs[i];
  }

  /** Every prefix of a list whose expansion returns also returns. */
  lemma {:induction false} ExpandAllPrefix(xs: seq<string>, i: nat, bound: nat, cap: nat)
    requires i <= |xs| && AllBelow(xs, bound) && AllAtMost(xs, cap)
    requires ExpandAll(xs, bound, cap).Some?
    ensures AllBelow(xs[..i], bound) && AllAtMost(xs[..i], cap)
    ensures ExpandAll(xs[..i], bound, cap).Some?
    decreases |xs| - i
  {
    if i < |xs| {
      var front := xs[..|xs| - 1];
      ExpandAllPrefix(front, i, bound, cap);
      assert front[..i] == xs[..i];
    } else {
      assert xs[..i] == xs;
    }
  }

  /** The loop of `Sequence` runs while the value has not passed `y`, which
      is exactly while fewer than SeqCount values have been printed. */
  lemma SequenceGuard(x: int, y: int, incr: nat, k: nat)
    requires incr > 0
    ensures (if y < x then SeqValue(x, y, incr, k) >= y else SeqValue(x, y, incr, k) <= y) <==> k < SeqCount(x, y, incr)
  {
    if k < SeqCount(x, y, incr) {
      SeqValueBetween(x, y, incr, k);
    } else {
      var d := if y < x then x - y else y - x;
      assert k >= d / incr + 1;
      MulMonotone(d / incr + 1, k, incr);
      assert d == (d / incr) * incr + d % incr;
      assert (d / incr + 1) * incr == (d / incr) * incr + incr;
    }
  }
}
