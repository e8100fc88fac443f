// The `balanced-match` package: find the first balanced pair of delimiters in
// a string. The delimiters are single characters here (the brace expander
// calls it with '{' and '}').
module Balanced {
  import opened Wrappers
  import opened JsString

  /** How a character changes the nesting depth. */
  function Delta(a: char, b: char, c: char): int
  {
    if c == a then 1 else if c == b then -1 else 0
  }

  /** Every prefix of `t` opens at least as often as it closes, and the whole
      of `t` closes everything it opens. */
  predicate BalancedText(a: char, b: char, t: string)
  {
    Seg(a, b, t, 0, |t|) == 0 && forall k :: 0 <= k <= |t| ==> Seg(a, b, t, 0, k) >= 0
  }

  /** The `a` at `p` is closed by the `b` at `q`. */
  predicate ClosedBy(a: char, b: char, s: string, p: int, q: int)
  {
    0 <= p < q < |s| && s[p] == a && s[q] == b && BalancedText(a, b, s[p + 1..q])
  }

  /** Opening minus closing delimiters in s[x..k]. */
  function Seg(a: char, b: char, s: string, x: int, k: int): int
    requires 0 <= x <= k <= |s|
    decreases k - x
  {
    if x == k then 0 else Delta(a, b, s[x]) + Seg(a, b, s, x + 1, k)
  }

  /** No prefix of s[x..j] dips below depth zero. */
  predicate NoDip(a: char, b: char, s: string, x: int, j: int)
    requires 0 <= x <= j <= |s|
  {
    forall k :: x <= k <= j ==> Seg(a, b, s, x, k) >= 0
  }

  /** The `a` at `p` is still open after s[..j]. */
  predicate NoCloseBy(a: char, b: char, s: string, p: int, j: int)
  {
    0 <= p < j <= |s| && NoDip(a, b, s, p + 1, j)
  }

  predicate Absent(s: string, c: char, x: int, y: int)
    requires 0 <= x <= y <= |s|
  {
    forall k :: x <= k < y ==> s[k] != c
  }

  /** Scans s[j..] at depth `d` for the `b` that brings the depth below zero. */
  function CloserFrom(a: char, b: char, s: string, j: nat, d: nat): (r: Option<nat>)
    ensures r.Some? ==> j <= r.value < |s| && s[r.value] == b
    decreases |s| - j
  {
    if j >= |s| then None
    else if s[j] == a then CloserFrom(a, b, s, j + 1, d + 1)
    else if s[j] == b then (if d == 0 then Some(j) else CloserFrom(a, b, s, j + 1, d - 1))
    else CloserFrom(a, b, s, j + 1, d)
  }

  /** The delimiter that closes the `a` at `p`, if any. */
  function Closer(a: char, b: char, s: string, p: nat): Option<nat>
  {
    CloserFrom(a, b, s, p + 1, 0)
  }

  /** The first `a` at or after `p` that has a closer, with that closer. */
  function FirstClosed(a: char, b: char, s: string, p: nat): (r: Option<(nat, nat)>)
    ensures r.Some? ==> p <= r.value.0 < |s| && s[r.value.0] == a && Closer(a, b, s, r.value.0) == Some(r.value.1)
    decreases |s| - p
  {
    if p >= |s| then None
    else if s[p] == a && Closer(a, b, s, p).Some? then Some((p, Closer(a, b, s, p).value))
    else FirstClosed(a, b, s, p + 1)
  }

  /** What `range(a, b, str)` returns: the first `a` with its closing `b`; when
      the first `a` is never closed, the first later `a` that is. */
  function FirstRange(a: char, b: char, s: string): Option<(nat, nat)>
  {
    var ai := IndexOf(s, [a], 0);
    var bi := IndexOf(s, [b], ai + 1);
    if ai < 0 || bi <= 0 then None
    else if a == b then Some((ai, bi))
    else match Closer(a, b, s, ai)
      case Some(q) => Some((ai, q))
      case None => FirstClosed(a, b, s, ai + 1)
  }

  // ---- Facts about Net ----

  lemma {:induction false} NetSplit(a: char, b: char, s: string, x: int, y: int, z: int)
    requires 0 <= x <= y <= z <= |s|
    ensures Seg(a, b, s, x, z) == Seg(a, b, s, x, y) + Seg(a, b, s, y, z)
    decreases y - x
  {
    if x < y {
      NetSplit(a, b, s, x + 1, y, z);
    }
  }

  lemma NetStep(a: char, b: char, s: string, x: int, y: int)
    requires 0 <= x <= y < |s|
    ensures Seg(a, b, s, x, y + 1) == Seg(a, b, s, x, y) + Delta(a, b, s[y])
  {
    NetSplit(a, b, s, x, y, y + 1);
  }

  lemma NetFront(a: char, b: char, s: string, j: int, k: int)
    requires 0 <= j < k <= |s|
    ensures Seg(a, b, s, j, k) == Delta(a, b, s[j]) + Seg(a, b, s, j + 1, k)
  {
  }

  /** Depth changes read the same inside a slice. */
  lemma {:induction false} SegSlice(a: char, b: char, s: string, o: int, n: int, i: int, j: int)
    requires 0 <= o <= o + n <= |s| && 0 <= i <= j <= n
    ensures Seg(a, b, s[o..o + n], i, j) == Seg(a, b, s, o + i, o + j)
    decreases j - i
  {
    if i < j {
      SegSlice(a, b, s, o, n, i + 1, j);
    }
  }

  lemma {:induction false} NetWithoutB(a: char, b: char, s: string, x: int, y: int)
    requires 0 <= x <= y <= |s| && Absent(s, b, x, y)
    ensures Seg(a, b, s, x, y) >= 0
    ensures Absent(s, a, x, y) ==> Seg(a, b, s, x, y) == 0
    decreases y - x
  {
    if x < y {
      NetFront(a, b, s, x, y);
      NetWithoutB(a, b, s, x + 1, y);
    }
  }

  /** Stretches NoCloseBy over a stretch holding no closing delimiter. */
  lemma ExtendNoClose(a: char, b: char, s: string, p: int, x: int, y: int)
    requires NoCloseBy(a, b, s, p, x) && x <= y <= |s| && Absent(s, b, x, y)
    ensures NoCloseBy(a, b, s, p, y)
    ensures Absent(s, a, x, y) ==> Seg(a, b, s, p + 1, y) == Seg(a, b, s, p + 1, x)
  {
    var p1 := p + 1;
    forall k | x <= k <= y
      ensures Seg(a, b, s, p1, k) >= 0
      ensures Absent(s, a, x, y) ==> Seg(a, b, s, p1, k) == Seg(a, b, s, p1, x)
    {
      NetSplit(a, b, s, p1, x, k);
      NetWithoutB(a, b, s, x, k);
    }
  }

  // ---- CloserFrom characterised by Net ----

  lemma {:induction false} CloserFromSound(a: char, b: char, s: string, j: nat, d: nat)
    requires a != b && CloserFrom(a, b, s, j, d).Some?
    ensures var q := CloserFrom(a, b, s, j, d).value;
      && d + Seg(a, b, s, j, q) == 0
      && forall k :: j <= k <= q ==> d + Seg(a, b, s, j, k) >= 0
    decreases |s| - j
  {
    var q := CloserFrom(a, b, s, j, d).value;
    if s[j] == b && d == 0 {
      assert q == j;
    } else {
      var d' := if s[j] == a then d + 1 else if s[j] == b then d - 1 else d;
      CloserFromSound(a, b, s, j + 1, d');
      forall k | j < k <= q ensures d + Seg(a, b, s, j, k) == d' + Seg(a, b, s, j + 1, k) {
        NetFront(a, b, s, j, k);
      }
    }
  }

  lemma {:induction false} CloserFromFinds(a: char, b: char, s: string, j: nat, d: nat, q: nat)
    requires a != b && j <= q < |s| && s[q] == b && d + Seg(a, b, s, j, q) == 0
    requires forall k :: j <= k <= q ==> d + Seg(a, b, s, j, k) >= 0
    ensures CloserFrom(a, b, s, j, d) == Some(q)
    decreases q - j
  {
    if j < q {
      NetFront(a, b, s, j, q);
      NetFront(a, b, s, j, j + 1);
      var d' := if s[j] == a then d + 1 else if s[j] == b then d - 1 else d;
      assert d + Seg(a, b, s, j, j + 1) >= 0;
      var j1 := j + 1;
      forall k | j1 <= k <= q ensures d' + Seg(a, b, s, j1, k) >= 0 {
        NetFront(a, b, s, j, k);
      }
      CloserFromFinds(a, b, s, j + 1, d', q);
    }
  }

  lemma {:induction false} CloserFromNone(a: char, b: char, s: string, j: nat, d: nat)
    requires a != b && j <= |s|
    requires forall k :: j <= k <= |s| ==> d + Seg(a, b, s, j, k) >= 0
    ensures CloserFrom(a, b, s, j, d) == None
    decreases |s| - j
  {
    if j < |s| {
      NetFront(a, b, s, j, j + 1);
      var d' := if s[j] == a then d + 1 else if s[j] == b then d - 1 else d;
      assert d + Seg(a, b, s, j, j + 1) >= 0;
      var j1 := j + 1;
      forall k | j1 <= k <= |s| ensures d' + Seg(a, b, s, j1, k) >= 0 {
        NetFront(a, b, s, j, k);
      }
      CloserFromNone(a, b, s, j + 1, d');
    }
  }

  /** An `a` whose depth never dips below zero up to the end has no closer. */
  lemma NoCloserToEnd(a: char, b: char, s: string, p: nat)
    requires a != b && NoCloseBy(a, b, s, p, |s|)
    ensures Closer(a, b, s, p).None?
  {
    CloserFromNone(a, b, s, p + 1, 0);
  }

  /** Closer agrees with the declarative ClosedBy. */
  lemma CloserIsClosedBy(a: char, b: char, s: string, p: nat, q: int)
    requires a != b && p < |s| && s[p] == a
    ensures Closer(a, b, s, p) == Some(q) <==> ClosedBy(a, b, s, p, q)
  {
    var p1 := p + 1;
    if Closer(a, b, s, p) == Some(q) {
      CloserFromSound(a, b, s, p1, 0);
      var t := s[p1..q];
      forall k | 0 <= k <= |t| ensures Seg(a, b, t, 0, k) == Seg(a, b, s, p1, p1 + k) {
        SegSlice(a, b, s, p1, q - p1, 0, k);
      }
      assert Seg(a, b, t, 0, |t|) == Seg(a, b, s, p1, q);
    }
    if ClosedBy(a, b, s, p, q) {
      var t := s[p1..q];
      forall k | p1 <= k <= q ensures Seg(a, b, s, p1, k) == Seg(a, b, t, 0, k - p1) {
        SegSlice(a, b, s, p1, q - p1, 0, k - p1);
      }
      assert Seg(a, b, s, p1, q) == Seg(a, b, t, 0, |t|);
      CloserFromFinds(a, b, s, p1, 0, q);
    }
  }

  lemma ClosedByUnique(a: char, b: char, s: string, p: nat, q1: int, q2: int)
    requires a != b && ClosedBy(a, b, s, p, q1) && ClosedBy(a, b, s, p, q2)
    ensures q1 == q2
  {
    CloserIsClosedBy(a, b, s, p, q1);
    CloserIsClosedBy(a, b, s, p, q2);
  }

  // ---- What range returns ----

  /** `c` next occurs at `r` at or after `from` (-1: not at all). */
  predicate NextAt(s: string, c: char, from: int, r: int)
    requires 0 <= from <= |s|
  {
    if r == -1 then Absent(s, c, from, |s|) else from <= r < |s| && s[r] == c && Absent(s, c, from, r)
  }

  lemma IndexOfChar(s: string, c: char, from: int)
    requires 0 <= from <= |s|
    ensures NextAt(s, c, from, IndexOf(s, [c], from))
  {
    var r := IndexOf(s, [c], from);
    if r != -1 {
      OccursAtChar(s, c, r);
    }
    forall k | from <= k < |s| && (r == -1 || k < r) ensures s[k] != c {
      OccursAtChar(s, c, k);
    }
  }

  /** A range exists exactly when there is an `a` followed later by a `b`. */
  lemma RangeFound(a: char, b: char, s: string)
    ensures FirstRange(a, b, s).Some? <==>
      exists i, j :: 0 <= i < j < |s| && s[i] == a && s[j] == b
  {
    var ai := IndexOf(s, [a], 0);
    IndexOfChar(s, a, 0);
    if ai == -1 {
      return;
    }
    var bi := IndexOf(s, [b], ai + 1);
    IndexOfChar(s, b, ai + 1);
    if bi == -1 {
      forall i, j | 0 <= i < j < |s| && s[i] == a ensures s[j] != b {
        assert ai <= i;
      }
    } else {
      assert 0 <= ai < bi < |s| && s[ai] == a && s[bi] == b;
      if a != b && Closer(a, b, s, ai).None? {
        FallbackExists(a, b, s, ai, bi);
      }
    }
  }

  /** When the first `a` is never closed but a `b` follows it, some later `a`
      is closed: the last `a` before the first such `b`. */
  lemma FallbackExists(a: char, b: char, s: string, f: nat, j: nat)
    requires a != b && f < j < |s| && s[f] == a && s[j] == b && Closer(a, b, s, f).None?
    ensures FirstClosed(a, b, s, f + 1).Some?
  {
    var q := FirstB(s, b, f + 1, j);
    var p := LastA(s, a, f, q);
    var p1 := p + 1;
    forall k | p1 <= k <= q ensures 0 + Seg(a, b, s, p1, k) >= 0 {
      NetWithoutB(a, b, s, p1, k);
    }
    NetWithoutB(a, b, s, p + 1, q);
    CloserFromFinds(a, b, s, p + 1, 0, q);
    if p == f {
      assert false;
    }
    FirstClosedReaches(a, b, s, f + 1, p);
  }

  /** The first `b` at or after `j`, given one at `e`. */
  function FirstB(s: string, b: char, j: nat, e: nat): (q: nat)
    requires j <= e < |s| && s[e] == b
    ensures j <= q <= e && s[q] == b && Absent(s, b, j, q)
    decreases e - j
  {
    if s[j] == b then j else FirstB(s, b, j + 1, e)
  }

  /** The last `a` in [lo, q), given s[lo] == a. */
  function LastA(s: string, a: char, lo: nat, q: nat): (p: nat)
    requires lo < q <= |s| && s[lo] == a
    ensures lo <= p < q && s[p] == a && Absent(s, a, p + 1, q)
    decreases q - lo
  {
    if s[q - 1] == a then q - 1 else LastA(s, a, lo, q - 1)
  }

  lemma {:induction false} FirstClosedReaches(a: char, b: char, s: string, j: nat, p: nat)
    requires j <= p < |s| && s[p] == a && Closer(a, b, s, p).Some?
    ensures FirstClosed(a, b, s, j).Some? && FirstClosed(a, b, s, j).value.0 <= p
    decreases p - j
  {
    if j < p && !(s[j] == a && Closer(a, b, s, j).Some?) {
      FirstClosedReaches(a, b, s, j + 1, p);
    }
  }

  lemma {:induction false} FirstClosedIs(a: char, b: char, s: string, j: nat, p: nat, q: nat)
    requires j <= p < |s| && s[p] == a && Closer(a, b, s, p) == Some(q)
    requires forall m :: j <= m < p && s[m] == a ==> Closer(a, b, s, m).None?
    ensures FirstClosed(a, b, s, j) == Some((p, q))
    decreases p - j
  {
    if j < p {
      FirstClosedIs(a, b, s, j + 1, p, q);
    }
  }

  /** The range's two ends are an `a` and a later `b`; for distinct delimiters
      the text between them is balanced. */
  lemma RangeShape(a: char, b: char, s: string)
    requires FirstRange(a, b, s).Some?
    ensures var (i, j) := FirstRange(a, b, s).value;
      && 0 <= i < j < |s| && s[i] == a && s[j] == b
      && (a != b ==> ClosedBy(a, b, s, i, j))
  {
    var ai := IndexOf(s, [a], 0);
    IndexOfChar(s, a, 0);
    var bi := IndexOf(s, [b], ai + 1);
    IndexOfChar(s, b, ai + 1);
    var (i, j) := FirstRange(a, b, s).value;
    if a != b {
      CloserIsClosedBy(a, b, s, i, j);
    }
  }

  /** The range starts at the first `a` exactly when that `a` is closed;
      otherwise no `a` between the first one and the range's start is closed. */
  lemma RangeStart(a: char, b: char, s: string)
    requires a != b && FirstRange(a, b, s).Some?
    ensures var f := IndexOf(s, [a], 0);
      var i := FirstRange(a, b, s).value.0;
      && 0 <= f <= i
      && (i == f <==> exists q :: ClosedBy(a, b, s, f, q))
      && forall p, q :: f < p < i ==> !ClosedBy(a, b, s, p, q)
  {
    var f := IndexOf(s, [a], 0);
    IndexOfChar(s, a, 0);
    var i := FirstRange(a, b, s).value.0;
    forall q ensures ClosedBy(a, b, s, f, q) <==> Closer(a, b, s, f) == Some(q) {
      CloserIsClosedBy(a, b, s, f, q);
    }
    forall p, q | f < p < i && ClosedBy(a, b, s, p, q) ensures false {
      CloserIsClosedBy(a, b, s, p, q);
      FirstClosedReaches(a, b, s, f + 1, p);
    }
  }

  /** With no `a` before `i` and neither delimiter strictly between `i` and
      `j`, the first range is exactly (i, j). */
  lemma FlatRange(a: char, b: char, s: string, i: nat, j: nat)
    requires a != b && i < j < |s| && s[i] == a && s[j] == b
    requires Absent(s, a, 0, i) && Absent(s, a, i + 1, j) && Absent(s, b, i + 1, j)
    ensures FirstRange(a, b, s) == Some((i, j))
  {
    IndexOfChar(s, a, 0);
    IndexOfChar(s, b, i + 1);
    var i1 := i + 1;
    forall k | i1 <= k <= j ensures Seg(a, b, s, i1, k) == 0 {
      NetWithoutB(a, b, s, i1, k);
    }
    var t := s[i1..j];
    forall k | 0 <= k <= |t| ensures Seg(a, b, t, 0, k) == 0 {
      SegSlice(a, b, s, i1, j - i1, 0, k);
    }
    assert ClosedBy(a, b, s, i, j);
    CloserIsClosedBy(a, b, s, i, j);
  }

  /** A text whose only delimiters are one `a` and a later `b` is
      balanced. */
  lemma PairBalanced(a: char, b: char, u: string, v: string, w: string)
    requires a != b
    requires a !in u && b !in u && a !in v && b !in v && a !in w && b !in w
    ensures BalancedText(a, b, u + [a] + v + [b] + w)
  {
    var t := u + [a] + v + [b] + w;
    var i := |u|;
    var j := |u| + 1 + |v|;
    assert t[i] == a && t[j] == b;
    assert Absent(t, a, 0, i) && Absent(t, b, 0, i) by {
      forall k | 0 <= k < i ensures t[k] == u[k] { }
    }
    assert Absent(t, a, i + 1, j) && Absent(t, b, i + 1, j) by {
      forall k | i + 1 <= k < j ensures t[k] == v[k - i - 1] { }
    }
    assert Absent(t, a, j + 1, |t|) && Absent(t, b, j + 1, |t|) by {
      forall k | j + 1 <= k < |t| ensures t[k] == w[k - j - 1] { }
    }
    forall k | 0 <= k <= |t| ensures Seg(a, b, t, 0, k) == (if i < k <= j then 1 else 0) {
      if k <= i {
        NetWithoutB(a, b, t, 0, k);
      } else {
        NetWithoutB(a, b, t, 0, i);
        NetSplit(a, b, t, 0, i, k);
        NetFront(a, b, t, i, k);
        if k <= j {
          NetWithoutB(a, b, t, i + 1, k);
        } else {
          NetWithoutB(a, b, t, i + 1, j);
          NetSplit(a, b, t, i + 1, j, k);
          NetFront(a, b, t, j, k);
          NetWithoutB(a, b, t, j + 1, k);
        }
      }
    }
  }

  /** With no `a` before it, an `a` followed by a balanced body and a `b`
      is the pair `balanced` finds, and it splits the text around it. */
  lemma BalancedAround(a: char, b: char, pre: string, body: string, post: string)
    requires a != b && a !in pre && BalancedText(a, b, body)
    ensures BalancedSpec(a, b, pre + [a] + body + [b] + post) == Some(Match(|pre|, |pre| + 1 + |body|, pre, body, post))
  {
    var s := pre + [a] + body + [b] + post;
    var i: nat := |pre|;
    var j: nat := |pre| + 1 + |body|;
    assert s[i] == a && s[j] == b;
    assert s[..i] == pre && s[i + 1..j] == body && s[j + 1..] == post;
    assert ClosedBy(a, b, s, i, j);
    CloserIsClosedBy(a, b, s, i, j);
    IndexOfChar(s, a, 0);
    assert Absent(s, a, 0, i) by {
      forall k | 0 <= k < i ensures s[k] == pre[k] { }
    }
    IndexOfChar(s, b, i + 1);
    assert FirstRange(a, b, s) == Some((i, j));
  }

  // ---- The scanning loop ----

  /** The stack of open delimiters after scanning s[..done] from the first `a`
      at `f`: the k-th entry sits at depth |begs| - 1 - k and is still open. */
  predicate StackOk(a: char, b: char, s: string, f: int, begs: seq<nat>, done: int)
  {
    && 0 <= f <= done <= |s|
    && (forall k :: 0 <= k < |begs| ==> f <= begs[k] < done && s[begs[k]] == a)
    && (forall j, k :: 0 <= j < k < |begs| ==> begs[j] < begs[k])
    && (|begs| > 0 ==> begs[0] == f)
    && forall k :: 0 <= k < |begs| ==>
         NoCloseBy(a, b, s, begs[k], done) && Seg(a, b, s, begs[k] + 1, done) == |begs| - 1 - k
  }

  /** Every `a` after `f` and before `left` seen so far is still open. */
  predicate OpenBelow(a: char, b: char, s: string, f: int, left: int, done: int)
    requires 0 <= done <= |s|
  {
    forall p :: 0 <= f < p < done && p < left && s[p] == a ==> NoCloseBy(a, b, s, p, done)
  }

  lemma SegEmpty(a: char, b: char, s: string, x: int)
    requires 0 <= x <= |s|
    ensures Seg(a, b, s, x, x) == 0
  {
  }

  lemma NoDipStep(a: char, b: char, s: string, x: int, j: int)
    requires 0 <= x <= j < |s| && NoDip(a, b, s, x, j) && Seg(a, b, s, x, j + 1) >= 0
    ensures NoDip(a, b, s, x, j + 1)
  {
  }

  lemma StackSkip(a: char, b: char, s: string, f: int, begs: seq<nat>, left: int, done: int, i: int)
    requires StackOk(a, b, s, f, begs, done) && OpenBelow(a, b, s, f, left, done)
    requires done <= i <= |s| && Absent(s, a, done, i) && Absent(s, b, done, i)
    ensures StackOk(a, b, s, f, begs, i) && OpenBelow(a, b, s, f, left, i)
  {
    forall k | 0 <= k < |begs|
      ensures NoCloseBy(a, b, s, begs[k], i) && Seg(a, b, s, begs[k] + 1, i) == |begs| - 1 - k
    {
      ExtendNoClose(a, b, s, begs[k], done, i);
    }
    forall p | 0 <= f < p < i && p < left && s[p] == a ensures NoCloseBy(a, b, s, p, i) {
      ExtendNoClose(a, b, s, p, done, i);
    }
  }

  lemma StackPush(a: char, b: char, s: string, f: int, begs: seq<nat>, left: int, i: nat)
    requires StackOk(a, b, s, f, begs, i) && OpenBelow(a, b, s, f, left, i)
    requires i < |s| && s[i] == a && (|begs| == 0 ==> i == f)
    ensures StackOk(a, b, s, f, begs + [i], i + 1) && OpenBelow(a, b, s, f, left, i + 1)
  {
    var nb := begs + [i];
    forall k | 0 <= k < |nb|
      ensures NoCloseBy(a, b, s, nb[k], i + 1) && Seg(a, b, s, nb[k] + 1, i + 1) == |nb| - 1 - k
    {
      if k < |begs| {
        assert nb[k] == begs[k];
        NetStep(a, b, s, begs[k] + 1, i);
        NoDipStep(a, b, s, begs[k] + 1, i);
      } else {
        SegEmpty(a, b, s, i + 1);
      }
    }
    forall p | 0 <= f < p < i + 1 && p < left && s[p] == a ensures NoCloseBy(a, b, s, p, i + 1) {
      if p < i {
        NetStep(a, b, s, p + 1, i);
        NoDipStep(a, b, s, p + 1, i);
      } else {
        SegEmpty(a, b, s, i + 1);
      }
    }
  }

  lemma StackPop(a: char, b: char, s: string, f: int, begs: seq<nat>, left: int, i: nat)
    requires a != b && StackOk(a, b, s, f, begs, i) && OpenBelow(a, b, s, f, left, i)
    requires i < |s| && s[i] == b && |begs| >= 2
    ensures var top := begs[|begs| - 1];
      && Closer(a, b, s, top) == Some(i) && f < top
      && StackOk(a, b, s, f, begs[..|begs| - 1], i + 1)
      && OpenBelow(a, b, s, f, if top < left then top else left, i + 1)
  {
    var top := |begs| - 1;
    var beg := begs[top];
    ClosesHere(a, b, s, beg, i);
    var nb := begs[..top];
    forall k | 0 <= k < |nb|
      ensures NoCloseBy(a, b, s, nb[k], i + 1) && Seg(a, b, s, nb[k] + 1, i + 1) == |nb| - 1 - k
    {
      assert nb[k] == begs[k];
      NetStep(a, b, s, begs[k] + 1, i);
      NoDipStep(a, b, s, begs[k] + 1, i);
    }
    var nl := if beg < left then beg else left;
    forall p | 0 <= f < p < i + 1 && p < nl && s[p] == a ensures NoCloseBy(a, b, s, p, i + 1) {
      StillOpen(a, b, s, p, beg, i);
    }
  }

  /** A `b` at depth zero above the `a` at `p` closes it. */
  lemma ClosesHere(a: char, b: char, s: string, p: nat, i: nat)
    requires a != b && NoCloseBy(a, b, s, p, i) && Seg(a, b, s, p + 1, i) == 0 && i < |s| && s[i] == b
    ensures Closer(a, b, s, p) == Some(i)
  {
    var p1 := p + 1;
    assert forall k :: p1 <= k <= i ==> 0 + Seg(a, b, s, p1, k) >= 0;
    CloserFromFinds(a, b, s, p + 1, 0, i);
  }

  /** An open `a` below an `a` closed at `i` stays open past `i`. */
  lemma StillOpen(a: char, b: char, s: string, p: nat, beg: nat, i: nat)
    requires p < beg < i < |s| && s[beg] == a && s[i] == b
    requires NoCloseBy(a, b, s, p, i) && Seg(a, b, s, beg + 1, i) == 0
    ensures NoCloseBy(a, b, s, p, i + 1)
  {
    NetSplit(a, b, s, p + 1, beg, i);
    NetFront(a, b, s, beg, i);
    NetStep(a, b, s, p + 1, i);
    NoDipStep(a, b, s, p + 1, i);
  }

  /** The loop ran out of closing delimiters: neither the first `a` nor any
      open `a` before `left` is ever closed. */
  lemma ScanExhausted(a: char, b: char, s: string, f: int, begs: seq<nat>, left: int, right: nat, done: int)
    requires a != b && StackOk(a, b, s, f, begs, done) && OpenBelow(a, b, s, f, left, done)
    requires |begs| > 0 && Absent(s, b, done, |s|)
    requires f < left < |s| && s[left] == a && Closer(a, b, s, left) == Some(right)
    ensures Closer(a, b, s, f).None? && FirstClosed(a, b, s, f + 1) == Some((left, right))
  {
    ExtendNoClose(a, b, s, f, done, |s|);
    NoCloserToEnd(a, b, s, f);
    forall m | f + 1 <= m < left && s[m] == a ensures Closer(a, b, s, m).None? {
      if m < done {
        ExtendNoClose(a, b, s, m, done, |s|);
        NoCloserToEnd(a, b, s, m);
      }
    }
    FirstClosedIs(a, b, s, f + 1, left, right);
  }

  /** The state of `range`'s loop at its head, `done` being how much of the
      string the loop has scanned and `popped` whether an `a` has been
      closed at depth > 1 yet. */
  predicate ScanInv(a: char, b: char, s: string, f: int, ai: int, bi: int, i: int, begs: seq<nat>,
                    left: int, right: int, done: int, popped: bool, r: Option<(nat, nat)>)
  {
    && a != b && 0 <= f < |s| && f <= done <= |s| && s[f] == a
    && (r.None? ==> NextAt(s, a, done, ai) && NextAt(s, b, done, bi))
    && (r.None? ==> i == if ai < bi && ai >= 0 then ai else bi)
    && (|begs| == 0 ==> r.Some? || (done == f && ai == f))
    && (r.Some? ==> begs == [] && Closer(a, b, s, f) == Some(r.value.1) && r.value.0 == f)
    && StackOk(a, b, s, f, begs, done)
    && (r.None? ==> OpenBelow(a, b, s, f, left, done))
    && (popped ==> f < left < done && s[left] == a && right >= 0 && Closer(a, b, s, left) == Some(right))
    && (!popped ==> left == |s| && (r.None? ==> bi >= 0))
  }

  function NextEvent(ai: int, bi: int): int
  {
    if ai < bi && ai >= 0 then ai else bi
  }

  lemma ScanStart(a: char, b: char, s: string, ai: int, bi: int)
    requires a != b && ai == IndexOf(s, [a], 0) && bi == IndexOf(s, [b], ai + 1) && ai >= 0 && bi > 0
    ensures ScanInv(a, b, s, ai, ai, bi, ai, [], |s|, -1, ai, false, None)
  {
    IndexOfChar(s, a, 0);
    IndexOfChar(s, b, ai + 1);
  }

  lemma ScanPush(a: char, b: char, s: string, f: int, ai: int, bi: int, i: int, begs: seq<nat>,
                 left: int, right: int, done: int, popped: bool, ai': int, begs': seq<nat>, i': int)
    requires ScanInv(a, b, s, f, ai, bi, i, begs, left, right, done, popped, None)
    requires i >= 0 && i == ai
    requires ai' == IndexOf(s, [a], i + 1) && begs' == begs + [i] && i' == NextEvent(ai', bi)
    ensures ScanInv(a, b, s, f, ai', bi, i', begs', left, right, i + 1, popped, None)
  {
    StackSkip(a, b, s, f, begs, left, done, i);
    StackPush(a, b, s, f, begs, left, i);
    IndexOfChar(s, a, i + 1);
  }

  lemma ScanClose(a: char, b: char, s: string, f: int, ai: int, bi: int, i: int, begs: seq<nat>,
                  left: int, right: int, done: int, popped: bool)
    requires ScanInv(a, b, s, f, ai, bi, i, begs, left, right, done, popped, None)
    requires i >= 0 && i != ai && |begs| == 1
    ensures begs[0] == f && bi >= 0
    ensures ScanInv(a, b, s, f, ai, bi, i, [], left, right, i + 1, popped, Some((f, bi as nat)))
  {
    StackSkip(a, b, s, f, begs, left, done, i);
    ClosesHere(a, b, s, f, i);
  }

  lemma ScanPop(a: char, b: char, s: string, f: int, ai: int, bi: int, i: int, begs: seq<nat>,
                left: int, right: int, done: int, popped: bool,
                bi': int, i': int, begs': seq<nat>, left': int, right': int)
    requires ScanInv(a, b, s, f, ai, bi, i, begs, left, right, done, popped, None)
    requires i >= 0 && i != ai && |begs| != 1
    requires |begs| >= 2 ==> begs' == begs[..|begs| - 1] && var beg := begs[|begs| - 1];
      (left', right') == if beg < left then (beg as int, bi) else (left, right)
    requires bi' == IndexOf(s, [b], i + 1) && i' == NextEvent(ai, bi')
    ensures |begs| >= 2
    ensures ScanInv(a, b, s, f, ai, bi', i', begs', left', right', i + 1, true, None)
  {
    StackSkip(a, b, s, f, begs, left, done, i);
    StackPop(a, b, s, f, begs, left, i);
    IndexOfChar(s, b, i + 1);
  }

  /** One turn of `range`'s loop: the next delimiter at `i` either opens a
      pair, closes the first `a`, or closes an inner `a`. */
  method ScanStep(a: char, b: char, s: string, ghost f: int, ai: int, bi: int, i: int, begs: seq<nat>,
                  left: int, right: int, ghost done: int, ghost popped: bool)
    returns (ai': int, bi': int, i': int, begs': seq<nat>, left': int, right': int,
             r': Option<(nat, nat)>, ghost popped': bool)
    requires ScanInv(a, b, s, f, ai, bi, i, begs, left, right, done, popped, None) && i >= 0
    ensures done <= i < |s|
    ensures ScanInv(a, b, s, f, ai', bi', i', begs', left', right', i + 1, popped', r')
  {
    IndexOfChar(s, a, done);
    IndexOfChar(s, b, done);
    ai', bi', begs', left', right', r', popped' := ai, bi, begs, left, right, None, popped;
    if i == ai {
      begs' := begs + [i];
      ai' := IndexOf(s, [a], i + 1);
      i' := if ai' < bi && ai' >= 0 then ai' else bi;
      ScanPush(a, b, s, f, ai, bi, i, begs, left, right, done, popped, ai', begs', i');
    } else if |begs| == 1 {
      ScanClose(a, b, s, f, ai, bi, i, begs, left, right, done, popped);
      r' := Some((begs[0], bi));
      begs' := [];
      i' := if ai < bi && ai >= 0 then ai else bi;
    } else {
      var beg := begs[|begs| - 1];
      begs' := begs[..|begs| - 1];
      if beg < left {
        left' := beg;
        right' := bi;
      }
      popped' := true;
      bi' := IndexOf(s, [b], i + 1);
      i' := if ai < bi' && ai >= 0 then ai else bi';
      ScanPop(a, b, s, f, ai, bi, i, begs, left, right, done, popped, bi', i', begs', left', right');
    }
  }

  /** `range(a, b, str)`: the delimiter positions of the first balanced pair. */
  method Range(a: char, b: char, s: string) returns (r: Option<(nat, nat)>)
    ensures r == FirstRange(a, b, s)
  {
    var ai := IndexOf(s, [a], 0);
    var bi := IndexOf(s, [b], ai + 1);
    var i := ai;
    r := None;
    if ai >= 0 && bi > 0 {
      if a == b {
        return Some((ai, bi));
      }
      ghost var f := ai;
      var begs: seq<nat> := [];
      var left: int := |s|;
      var right: int := -1;
      ghost var done: int := f;
      ghost var popped := false;
      ScanStart(a, b, s, ai, bi);
      while i >= 0 && r.None?
        invariant ScanInv(a, b, s, f, ai, bi, i, begs, left, right, done, popped, r)
        decreases |s| - done, if r.None? then 1 else 0
      {
        ghost var i0 := i;
        ai, bi, i, begs, left, right, r, popped := ScanStep(a, b, s, f, ai, bi, i, begs, left, right, done, popped);
        done := i0 + 1;
      }
      if |begs| > 0 {
        ScanExhausted(a, b, s, f, begs, left, right, done);
        r := Some((left, right));
      }
    }
  }

  /** The object `balanced(a, b, str)` returns. */
  datatype Match = Match(start: nat, end: nat, pre: string, body: string, post: string)

  function BalancedSpec(a: char, b: char, s: string): (r: Option<Match>)
    ensures r.Some? <==> FirstRange(a, b, s).Some?
    ensures r.Some? ==> MatchOk(a, b, s, r.value)
  {
    match FirstRange(a, b, s)
    case None => None
    case Some((i, j)) =>
      RangeShape(a, b, s);
      Some(Cut(a, b, s, i, j))
  }

  /** `m` splits `s` around an `a` and a later `b`, with a balanced body when
      the delimiters differ. */
  predicate MatchOk(a: char, b: char, s: string, m: Match)
  {
    && s == m.pre + [a] + m.body + [b] + m.post
    && m.start == |m.pre| && m.end == m.start + 1 + |m.body|
    && (a != b ==> BalancedText(a, b, m.body))
  }

  /** The match object for the delimiters at `i` and `j`. */
  function Cut(a: char, b: char, s: string, i: nat, j: nat): (m: Match)
    requires i < j < |s| && s[i] == a && s[j] == b && (a != b ==> ClosedBy(a, b, s, i, j))
    ensures MatchOk(a, b, s, m)
  {
    SliceAround(s, i, j);
    Match(i, j, s[..i], s[i + 1..j], s[j + 1..])
  }

  lemma SliceAround(s: string, i: nat, j: nat)
    requires i < j < |s|
    ensures s == s[..i] + [s[i]] + s[i + 1..j] + [s[j]] + s[j + 1..]
  {
  }

  /** `balanced(a, b, str)`: the first balanced pair split into pre, body and post. */
  method BalancedMatch(a: char, b: char, s: string) returns (r: Option<Match>)
    ensures r == BalancedSpec(a, b, s)
  {
    var range := Range(a, b, s);
    match range {
      case None => r := None;
      case Some((i, j)) =>
        RangeShape(a, b, s);
        r := Some(Cut(a, b, s, i, j));
    }
  }
}
