// The bundled `concat-map` package: maps each element with its index and
// concatenates the results, an array result being spread and any other value
// pushed as one element.
module ConcatMap {

  /** What the callback returns: an array, or a single value. */
  datatype Item<T> = One(x: T) | Many(xs: seq<T>)

  function Elements<T>(i: Item<T>): seq<T>
  {
    match i
    case One(x) => [x]
    case Many(xs) => xs
  }

  /** The results for the first `|xs|` elements, in order. */
  function Concatenated<T>(xs: seq<T>, fn: (T, nat) -> Item<T>): seq<T>
  {
    if xs == [] then []
    else Concatenated(xs[..|xs| - 1], fn) + Elements(fn(xs[|xs| - 1], |xs| - 1))
  }

  /** `concatMap(xs, fn)`: the loop pushing each result onto `res`. */
  method Apply<T>(xs: seq<T>, fn: (T, nat) -> Item<T>) returns (res: seq<T>)
    ensures res == Concatenated(xs, fn)
  {
    res := [];
    var i := 0;
    while i < |xs|
      invariant 0 <= i <= |xs|
      invariant res == Concatenated(xs[..i], fn)
    {
      assert xs[..i + 1][..i] == xs[..i];
      var x := fn(xs[i], i);
      if x.Many? {
        res := res + x.xs;
      } else {
        res := res + [x.x];
      }
      i := i + 1;
    }
    assert xs[..i] == xs;
  }

  /** A value is in the result iff some element's result holds it. */
  lemma {:induction false} ConcatenatedHas<T>(xs: seq<T>, fn: (T, nat) -> Item<T>, y: T)
    ensures y in Concatenated(xs, fn) <==>
              exists k :: 0 <= k < |xs| && y in Elements(fn(xs[k], k))
  {
    if xs != [] {
      var init := xs[..|xs| - 1];
      ConcatenatedHas(init, fn, y);
      assert forall k :: 0 <= k < |init| ==> init[k] == xs[k];
    }
  }

  /** The result is as long as all the results together; with only single
      values it is as long as the input. */
  lemma {:induction false} ConcatenatedOnes<T>(xs: seq<T>, fn: (T, nat) -> Item<T>)
    requires forall k :: 0 <= k < |xs| ==> fn(xs[k], k).One?
    ensures |Concatenated(xs, fn)| == |xs|
    ensures forall k :: 0 <= k < |xs| ==> Concatenated(xs, fn)[k] == fn(xs[k], k).x
  {
    if xs != [] {
      var init := xs[..|xs| - 1];
      assert forall k :: 0 <= k < |init| ==> init[k] == xs[k];
      ConcatenatedOnes(init, fn);
    }
  }
}
