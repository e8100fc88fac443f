// `Array.prototype.sort` with a comparator, which the language requires to
// be stable: an insertion sort under an order `le` ("sorts no later than")
// stands for it.
module StableSort {
  /** `le` relates every pair one way or the other. */
  ghost predicate Total(le: (string, string) -> bool)
  {
    forall a, b :: le(a, b) || le(b, a)
  }

  ghost predicate Transitive(le: (string, string) -> bool)
  {
    forall a, b, c :: le(a, b) && le(b, c) ==> le(a, c)
  }

  predicate SortedBy(xs: seq<string>, le: (string, string) -> bool)
  {
    forall i, j :: 0 <= i < j < |xs| ==> le(xs[i], xs[j])
  }

  /** `x` in front of the first element it sorts no later than. */
  function Insert(x: string, ys: seq<string>, le: (string, string) -> bool): (r: seq<string>)
    ensures |r| == |ys| + 1
    decreases |ys|
  {
    if ys == [] then [x]
    else if le(x, ys[0]) then [x] + ys
    else [ys[0]] + Insert(x, ys[1..], le)
  }

  /** The stable sort: each element goes in front of the later ones it
      sorts no later than. */
  function Sort(xs: seq<string>, le: (string, string) -> bool): (r: seq<string>)
    ensures |r| == |xs|
    decreases |xs|
  {
    if xs == [] then [] else Insert(xs[0], Sort(xs[1..], le), le)
  }

  lemma {:induction false} InsertPermutes(x: string, ys: seq<string>, le: (string, string) -> bool)
    ensures multiset(Insert(x, ys, le)) == multiset(ys) + multiset{x}
    decreases |ys|
  {
    if ys != [] && !le(x, ys[0]) {
      InsertPermutes(x, ys[1..], le);
      assert ys == [ys[0]] + ys[1..];
    }
  }

  /** The result is a permutation of the input. */
  lemma {:induction false} SortPermutes(xs: seq<string>, le: (string, string) -> bool)
    ensures multiset(Sort(xs, le)) == multiset(xs)
    decreases |xs|
  {
    if xs != [] {
      SortPermutes(xs[1..], le);
      InsertPermutes(xs[0], Sort(xs[1..], le), le);
      assert xs == [xs[0]] + xs[1..];
    }
  }

  /** Inserting into a sorted sequence keeps it sorted. */
  lemma {:induction false} InsertSorted(x: string, ys: seq<string>, le: (string, string) -> bool)
    requires Total(le) && Transitive(le) && SortedBy(ys, le)
    ensures SortedBy(Insert(x, ys, le), le)
    decreases |ys|
  {
    if ys != [] && !le(x, ys[0]) {
      var tail := ys[1..];
      assert SortedBy(tail, le) by {
        forall i, j | 0 <= i < j < |tail| ensures le(tail[i], tail[j]) {
          assert tail[i] == ys[i + 1] && tail[j] == ys[j + 1];
        }
      }
      InsertSorted(x, tail, le);
      var rest := Insert(x, tail, le);
      InsertPermutes(x, tail, le);
      assert le(ys[0], x);
      forall k | 0 <= k < |rest| ensures le(ys[0], rest[k]) {
        assert rest[k] in multiset(rest);
        assert rest[k] in multiset(tail) + multiset{x};
        if rest[k] != x {
          assert rest[k] in multiset(tail);
          var m :| 0 <= m < |tail| && tail[m] == rest[k];
          assert tail[m] == ys[m + 1];
        }
      }
      ConsSorted(ys[0], rest, le);
    }
  }

  lemma ConsSorted(y: string, rest: seq<string>, le: (string, string) -> bool)
    requires SortedBy(rest, le) && forall k :: 0 <= k < |rest| ==> le(y, rest[k])
    ensures SortedBy([y] + rest, le)
  {
    var s := [y] + rest;
    forall i, j | 0 <= i < j < |s| ensures le(s[i], s[j]) {
      assert s[j] == rest[j - 1];
      if i > 0 {
        assert s[i] == rest[i - 1];
      }
    }
  }

  /** With a total, transitive order the result is sorted. */
  lemma {:induction false} SortSorted(xs: seq<string>, le: (string, string) -> bool)
    requires Total(le) && Transitive(le)
    ensures SortedBy(Sort(xs, le), le)
    decreases |xs|
  {
    if xs != [] {
      SortSorted(xs[1..], le);
      InsertSorted(xs[0], Sort(xs[1..], le), le);
    }
  }

  /** A sorted input comes back as it is. */
  lemma {:induction false} SortIdentity(xs: seq<string>, le: (string, string) -> bool)
    requires SortedBy(xs, le)
    ensures Sort(xs, le) == xs
    decreases |xs|
  {
    if xs != [] {
      var tail := xs[1..];
      assert SortedBy(tail, le) by {
        forall i, j | 0 <= i < j < |tail| ensures le(tail[i], tail[j]) {
          assert tail[i] == xs[i + 1] && tail[j] == xs[j + 1];
        }
      }
      SortIdentity(tail, le);
      if tail != [] {
        assert le(xs[0], tail[0]) by {
          assert tail[0] == xs[1];
        }
      }
      assert xs == [xs[0]] + tail;
    }
  }

  /** The elements `p` picks, in order. */
  function Picked(xs: seq<string>, p: string -> bool): (r: seq<string>)
    ensures forall k :: 0 <= k < |r| ==> p(r[k])
    ensures |r| <= |xs|
    decreases |xs|
  {
    if xs == [] then [] else (if p(xs[0]) then [xs[0]] else []) + Picked(xs[1..], p)
  }

  /** `p` picks elements that all sort no later than each other: a class of
      equal keys. */
  ghost predicate Tied(p: string -> bool, le: (string, string) -> bool)
  {
    forall a, b :: p(a) && p(b) ==> le(a, b)
  }

  /** Inserting passes only over elements outside the class of `x`. */
  lemma {:induction false} InsertPicked(x: string, ys: seq<string>, le: (string, string) -> bool, p: string -> bool)
    requires Tied(p, le)
    ensures Picked(Insert(x, ys, le), p) == (if p(x) then [x] else []) + Picked(ys, p)
    decreases |ys|
  {
    var r := Insert(x, ys, le);
    if ys == [] {
      assert r == [x] && r[1..] == [];
    } else if le(x, ys[0]) {
      assert r == [x] + ys && r[0] == x && r[1..] == ys;
      assert Picked(r, p) == (if p(x) then [x] else []) + Picked(ys, p);
    } else {
      var rest := Insert(x, ys[1..], le);
      assert r == [ys[0]] + rest && r[0] == ys[0] && r[1..] == rest;
      InsertPicked(x, ys[1..], le, p);
      var head := if p(ys[0]) then [ys[0]] else [];
      var own := if p(x) then [x] else [];
      assert Picked(r, p) == head + Picked(rest, p);
      assert Picked(ys, p) == head + Picked(ys[1..], p);
      assert p(x) ==> !p(ys[0]);
      assert head + (own + Picked(ys[1..], p)) == own + (head + Picked(ys[1..], p));
    }
  }

  /** The sort is stable: the elements of any class of equal keys keep
      their input order. */
  lemma {:induction false} SortStable(xs: seq<string>, le: (string, string) -> bool, p: string -> bool)
    requires Tied(p, le)
    ensures Picked(Sort(xs, le), p) == Picked(xs, p)
    decreases |xs|
  {
    if xs != [] {
      SortStable(xs[1..], le, p);
      InsertPicked(xs[0], Sort(xs[1..], le), le, p);
    }
  }

  /** Dropping elements keeps a sequence sorted. */
  lemma SortedSubsequence(xs: seq<string>, ys: seq<string>, le: (string, string) -> bool)
    requires SortedBy(xs, le)
    requires exists f: int -> int :: Embeds(f, ys, xs)
    ensures SortedBy(ys, le)
  {
    var f: int -> int :| Embeds(f, ys, xs);
    forall i, j | 0 <= i < j < |ys| ensures le(ys[i], ys[j]) {
      assert ys[i] == xs[f(i)] && ys[j] == xs[f(j)];
    }
  }

  /** `f` maps each position of `ys` to a position of `xs` holding the same
      element, in increasing order. */
  ghost predicate Embeds(f: int -> int, ys: seq<string>, xs: seq<string>)
  {
    && (forall i :: 0 <= i < |ys| ==> 0 <= f(i) < |xs| && ys[i] == xs[f(i)])
    && (forall i, j :: 0 <= i < j < |ys| ==> f(i) < f(j))
  }
}
