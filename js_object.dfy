// A plain JavaScript object as far as its keys go: properties are kept in
// the order they were first set, and `Object.keys` lists the array-index
// keys first, in ascending numeric order, then the other keys in that
// insertion order.
module JsObject {
  import opened Decimal
  import opened StableSort

  /** 2^32 - 1: array indices are the naturals below it. */
  const IndexLimit: nat := 4294967295

  /** A key that is an array index: the canonical decimal form of a number
      below 2^32 - 1 (no sign, no leading zero). */
  predicate IsIndexKey(k: string)
  {
    |k| > 0 && AllDigits(k) && NatToString(DigitsValue(k)) == k && DigitsValue(k) < IndexLimit
  }

  function IndexValue(k: string): nat
  {
    if IsIndexKey(k) then DigitsValue(k) else 0
  }

  /** The order `Object.keys` puts index keys in. */
  function IndexOrder(a: string, b: string): bool
  {
    IndexValue(a) <= IndexValue(b)
  }

  predicate Distinct(xs: seq<string>)
  {
    forall i, j :: 0 <= i < j < |xs| ==> xs[i] != xs[j]
  }

  function IndexKeys(keys: seq<string>): (r: seq<string>)
  {
    if keys == [] then []
    else
      assert keys == [keys[0]] + keys[1..];
      (if IsIndexKey(keys[0]) then [keys[0]] else []) + IndexKeys(keys[1..])
  }

  function NamedKeys(keys: seq<string>): (r: seq<string>)
  {
    if keys == [] then []
    else (if IsIndexKey(keys[0]) then [] else [keys[0]]) + NamedKeys(keys[1..])
  }

  /** `o[k] = v` on an object whose keys went in in the order `keys`: a new
      key goes at the end, an existing one keeps its place. */
  function SetKey(keys: seq<string>, k: string): (r: seq<string>)
    ensures Distinct(keys) ==> Distinct(r)
    ensures forall x :: x in r <==> x in keys || x == k
  {
    if k in keys then keys else keys + [k]
  }

  /** `Object.keys(o)` for an object whose keys went in in the order
      `keys`. */
  function Keys(keys: seq<string>): (r: seq<string>)
  {
    Sort(IndexKeys(keys), IndexOrder) + NamedKeys(keys)
  }

  lemma IndexOrderTotal()
    ensures Total(IndexOrder) && Transitive(IndexOrder)
  {
  }

  lemma {:induction false} KeysSplit(keys: seq<string>)
    ensures multiset(IndexKeys(keys)) + multiset(NamedKeys(keys)) == multiset(keys)
  {
    if keys != [] {
      KeysSplit(keys[1..]);
      assert keys == [keys[0]] + keys[1..];
    }
  }

  lemma {:induction false} IndexKeysIndex(keys: seq<string>)
    ensures forall k :: 0 <= k < |IndexKeys(keys)| ==> IsIndexKey(IndexKeys(keys)[k])
  {
    if keys != [] {
      IndexKeysIndex(keys[1..]);
    }
  }

  lemma {:induction false} NamedKeysNamed(keys: seq<string>)
    ensures forall k :: 0 <= k < |NamedKeys(keys)| ==> !IsIndexKey(NamedKeys(keys)[k])
  {
    if keys != [] {
      NamedKeysNamed(keys[1..]);
    }
  }

  /** `Object.keys` lists every key that was set, as often as it was set. */
  lemma KeysPermutes(keys: seq<string>)
    ensures multiset(Keys(keys)) == multiset(keys)
  {
    KeysSplit(keys);
    SortPermutes(IndexKeys(keys), IndexOrder);
  }

  /** `Object.keys` lists the index keys first, in ascending order, then
      the other keys in insertion order. */
  lemma KeysAre(keys: seq<string>)
    ensures var n := |IndexKeys(keys)|;
            && n <= |Keys(keys)|
            && (forall i :: 0 <= i < n ==> IsIndexKey(Keys(keys)[i]))
            && (forall i :: n <= i < |Keys(keys)| ==> !IsIndexKey(Keys(keys)[i]))
            && SortedBy(Keys(keys)[..n], IndexOrder)
            && Keys(keys)[n..] == NamedKeys(keys)
  {
    var idx := Sort(IndexKeys(keys), IndexOrder);
    IndexOrderTotal();
    SortSorted(IndexKeys(keys), IndexOrder);
    IndexKeysIndex(keys);
    SortIndexKeys(IndexKeys(keys));
    NamedKeysNamed(keys);
    var r := Keys(keys);
    var n := |IndexKeys(keys)|;
    assert r[..n] == idx && r[n..] == NamedKeys(keys);
    forall i | 0 <= i < n ensures IsIndexKey(r[i]) {
      assert r[i] == idx[i];
    }
    forall i | n <= i < |r| ensures !IsIndexKey(r[i]) {
      assert r[i] == NamedKeys(keys)[i - n];
    }
  }

  /** Sorting index keys leaves index keys. */
  lemma SortIndexKeys(xs: seq<string>)
    requires forall k :: 0 <= k < |xs| ==> IsIndexKey(xs[k])
    ensures forall k :: 0 <= k < |xs| ==> IsIndexKey(Sort(xs, IndexOrder)[k])
  {
    SortPermutes(xs, IndexOrder);
    var r := Sort(xs, IndexOrder);
    forall k | 0 <= k < |r| ensures IsIndexKey(r[k]) {
      assert r[k] in multiset(xs);
    }
  }

  /** The keys `Object.keys` lists are those that were set. */
  lemma KeysMembers(keys: seq<string>, x: string)
    ensures x in Keys(keys) <==> x in keys
  {
    KeysPermutes(keys);
    assert x in Keys(keys) <==> x in multiset(Keys(keys));
  }

  /** A key list without repeats stays without repeats. */
  lemma KeysDistinct(keys: seq<string>)
    requires Distinct(keys)
    ensures Distinct(Keys(keys))
  {
    KeysPermutes(keys);
    MultisetDistinct(keys, Keys(keys));
  }

  lemma MultisetDistinct(xs: seq<string>, ys: seq<string>)
    requires Distinct(xs) && multiset(xs) == multiset(ys)
    ensures Distinct(ys)
  {
    forall x | x in multiset(xs) ensures multiset(xs)[x] == 1 {
      DistinctCount(xs, x);
    }
    forall i, j | 0 <= i < j < |ys| ensures ys[i] != ys[j] {
      if ys[i] == ys[j] {
        TwoCopies(ys, i, j);
        assert false;
      }
    }
  }

  lemma TwoCopies(ys: seq<string>, i: nat, j: nat)
    requires i < j < |ys| && ys[i] == ys[j]
    ensures multiset(ys)[ys[i]] >= 2
  {
    assert ys == ys[..i] + [ys[i]] + ys[i + 1..j] + [ys[j]] + ys[j + 1..];
  }

  lemma {:induction false} DistinctCount(xs: seq<string>, x: string)
    requires Distinct(xs) && x in xs
    ensures multiset(xs)[x] == 1
  {
    if xs[0] == x {
      assert x !in xs[1..];
    } else {
      assert Distinct(xs[1..]) by {
        forall i, j | 0 <= i < j < |xs[1..]| ensures xs[1..][i] != xs[1..][j] {
          assert xs[1..][i] == xs[i + 1] && xs[1..][j] == xs[j + 1];
        }
      }
      DistinctCount(xs[1..], x);
    }
    assert xs == [xs[0]] + xs[1..];
  }

  /** Keys that are not array indices keep their insertion order. */
  lemma NamedKeysKept(keys: seq<string>)
    requires forall k :: 0 <= k < |keys| ==> !IsIndexKey(keys[k])
    ensures Keys(keys) == keys
  {
    NoIndexKeys(keys);
  }

  lemma {:induction false} NoIndexKeys(keys: seq<string>)
    requires forall k :: 0 <= k < |keys| ==> !IsIndexKey(keys[k])
    ensures IndexKeys(keys) == [] && NamedKeys(keys) == keys
  {
    if keys != [] {
      NoIndexKeys(keys[1..]);
      assert keys == [keys[0]] + keys[1..];
    }
  }
}
