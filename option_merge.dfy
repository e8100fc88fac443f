// `ext(a, b)` of the bundled minimatch, which `minimatch.defaults` uses to
// lay the caller's options over the defaults: a fresh object with every own
// key of `a`, then every own key of `b` written over it.
module OptionMerge {
  import opened Wrappers

  /** The fresh object `t` after both `forEach` loops; a missing `b` is `{}`. */
  function Ext<V>(a: map<string, V>, b: Option<map<string, V>>): (t: map<string, V>)
    ensures t.Keys == a.Keys + b.GetOr(map[]).Keys
    ensures forall k :: k in b.GetOr(map[]) ==> t[k] == b.GetOr(map[])[k]
    ensures forall k :: k in a && k !in b.GetOr(map[]) ==> t[k] == a[k]
  {
    a + b.GetOr(map[])
  }

  /** Without `b` the result copies `a`. */
  lemma ExtNone<V>(a: map<string, V>)
    ensures Ext(a, None) == a
  {
  }

  /** Merging twice is merging with the merged overrides:
      `ext(ext(a, b), c) == ext(a, ext(b, c))`. */
  lemma ExtAssociative<V>(a: map<string, V>, b: map<string, V>, c: map<string, V>)
    ensures Ext(Ext(a, Some(b)), Some(c)) == Ext(a, Some(Ext(b, Some(c))))
  {
  }

  /** Laying the same options over the result again changes nothing. */
  lemma ExtIdempotent<V>(a: map<string, V>, b: map<string, V>)
    ensures Ext(Ext(a, Some(b)), Some(b)) == Ext(a, Some(b))
  {
  }
}
