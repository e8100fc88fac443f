// `matchOne`: a path, split into its names, against one compiled pattern,
// portion by portion.  A literal portion needs an equal name, a regular
// expression is handed to the engine, and `**` swallows names, trying the
// rest of the pattern first and never swallowing `.`, `..` or (without
// `dot`) a name that starts with a dot.
module MinimatchMatch {
  import opened MinimatchParse

  /** Names `**` never swallows. */
  predicate Unswallowable(f: string, dot: bool)
  {
    f == "." || f == ".." || (!dot && |f| > 0 && f[0] == '.')
  }

  predicate AllSwallowable(file: seq<string>, dot: bool)
  {
    forall k :: 0 <= k < |file| ==> !Unswallowable(file[k], dot)
  }

  /** A portion other than `**` against one name: equality for a literal,
      the engine for an expression, never for `/$./`. */
  predicate SegMatches(s: Seg, f: string, e: Engine)
  {
    match s
    case Lit(t) => f == t
    case Globstar => false
    case Magic(_, src, flags) => e.test(src, flags, f)
    case Never => false
  }

  /** The verdict once the names or the portions ran out: both together is
      a hit, only the names is a hit in partial mode, only the portions is
      a hit when a single empty name (a trailing slash) is left. */
  function Ends(file: seq<string>, pattern: seq<Seg>, partial: bool): bool
    requires file == [] || pattern == []
  {
    if file == [] && pattern == [] then true
    else if file == [] then partial
    else file == [""]
  }

  /** `matchOne(file, pattern, partial)`. */
  function MatchOneSpec(file: seq<string>, pattern: seq<Seg>, dot: bool, partial: bool, e: Engine): bool
    decreases |pattern|, 1, 0
  {
    if file == [] || pattern == [] then Ends(file, pattern, partial)
    else if pattern[0].Globstar? then
      if |pattern| == 1 then AllSwallowable(file, dot)
      else Swallow(file, pattern[1..], 0, dot, partial, e)
    else SegMatches(pattern[0], file[0], e) && MatchOneSpec(file[1..], pattern[1..], dot, partial, e)
  }

  /** The swallowing loop of an inner `**` from name `fr` on: the rest of
      the pattern against the names from `fr`, else swallow `file[fr]` if
      it may be swallowed.  Running out of names is a hit only in partial
      mode. */
  function Swallow(file: seq<string>, rest: seq<Seg>, fr: nat, dot: bool, partial: bool, e: Engine): bool
    requires fr <= |file|
    decreases |rest| + 1, 0, |file| - fr
  {
    if fr == |file| then partial
    else if MatchOneSpec(file[fr..], rest, dot, partial, e) then true
    else if Unswallowable(file[fr], dot) then false
    else Swallow(file, rest, fr + 1, dot, partial, e)
  }

  /** The literal portions `ts`. */
  function Lits(ts: seq<string>): (r: seq<Seg>)
    ensures |r| == |ts| && forall k :: 0 <= k < |ts| ==> r[k] == Lit(ts[k])
  {
    if ts == [] then [] else [Lit(ts[0])] + Lits(ts[1..])
  }

  // ---- What matchOne promises ----

  /** Literal portions need equal names, one for one; in partial mode a
      prefix of them will do, and one trailing empty name is allowed. */
  lemma {:induction false} LiteralsMatch(file: seq<string>, ts: seq<string>, dot: bool, partial: bool, e: Engine)
    ensures MatchOneSpec(file, Lits(ts), dot, partial, e)
            <==> (file == ts || file == ts + [""] || (partial && |file| < |ts| && file == ts[..|file|]))
    decreases |ts|
  {
    if file != [] && ts != [] {
      LiteralsMatch(file[1..], ts[1..], dot, partial, e);
      assert Lits(ts)[1..] == Lits(ts[1..]);
      assert file == [file[0]] + file[1..];
      assert ts == [ts[0]] + ts[1..];
      if file == ts + [""] {
        assert file[1..] == ts[1..] + [""];
      }
      if partial && |file| < |ts| && file == ts[..|file|] {
        assert ts[1..][..|file| - 1] == ts[..|file|][1..];
        assert file[1..] == ts[1..][..|file| - 1];
      }
      if partial && 0 < |file| - 1 < |ts| - 1 && file[1..] == ts[1..][..|file| - 1] && file[0] == ts[0] {
        assert file == ts[..|file|];
      }
    } else if file == [] {
      assert ts[..0] == [];
    }
  }

  /** A `**` at the end swallows all the names that are left, if it may
      swallow every one of them; with no names left it needs partial mode. */
  lemma FinalGlobstar(file: seq<string>, dot: bool, partial: bool, e: Engine)
    ensures MatchOneSpec(file, [Globstar], dot, partial, e)
            <==> (if file == [] then partial else AllSwallowable(file, dot))
  {
  }

  /** `k` names swallowed by an inner `**`, then the rest of the pattern on
      the names after them. */
  predicate SwallowsTo(file: seq<string>, rest: seq<Seg>, fr: nat, k: nat, dot: bool, partial: bool, e: Engine)
    requires fr <= k < |file|
  {
    AllSwallowable(file[fr..k], dot) && MatchOneSpec(file[k..], rest, dot, partial, e)
  }

  /** The swallowing loop finds a hit exactly when some number of names it
      may swallow, followed by the rest of the pattern, matches; or when it
      may swallow every name and partial mode is on. */
  lemma {:induction false} SwallowIs(file: seq<string>, rest: seq<Seg>, fr: nat, dot: bool, partial: bool, e: Engine)
    requires fr <= |file|
    ensures Swallow(file, rest, fr, dot, partial, e)
            <==> ((exists k :: fr <= k < |file| && SwallowsTo(file, rest, fr, k, dot, partial, e))
                  || (partial && AllSwallowable(file[fr..], dot)))
    decreases |file| - fr
  {
    if fr < |file| {
      SwallowIs(file, rest, fr + 1, dot, partial, e);
      assert file[fr..fr] == [];
      if MatchOneSpec(file[fr..], rest, dot, partial, e) {
        assert SwallowsTo(file, rest, fr, fr, dot, partial, e);
      } else if Unswallowable(file[fr], dot) {
        forall k | fr <= k < |file| ensures !SwallowsTo(file, rest, fr, k, dot, partial, e) {
          if k > fr {
            assert file[fr..k][0] == file[fr];
          }
        }
        assert file[fr..][0] == file[fr];
      } else {
        SwallowOne(file, rest, fr, fr + 1, dot, partial, e);
      }
    }
  }

  /** Swallowing `file[fr]` when it may be swallowed and the rest of the
      pattern does not match from `fr`. */
  lemma SwallowOne(file: seq<string>, rest: seq<Seg>, fr: nat, nx: nat, dot: bool, partial: bool, e: Engine)
    requires nx == fr + 1 && nx <= |file|
    requires !Unswallowable(file[fr], dot) && !MatchOneSpec(file[fr..], rest, dot, partial, e)
    ensures (exists k :: fr <= k < |file| && SwallowsTo(file, rest, fr, k, dot, partial, e))
            <==> (exists k :: nx <= k < |file| && SwallowsTo(file, rest, nx, k, dot, partial, e))
    ensures AllSwallowable(file[fr..], dot) <==> AllSwallowable(file[nx..], dot)
  {
    assert file[fr..fr] == [];
    assert !SwallowsTo(file, rest, fr, fr, dot, partial, e);
    forall k | nx <= k < |file|
      ensures SwallowsTo(file, rest, fr, k, dot, partial, e) <==> SwallowsTo(file, rest, nx, k, dot, partial, e)
    {
      assert file[fr..k] == [file[fr]] + file[nx..k];
      ConsSwallowable(file[fr], file[nx..k], dot);
    }
    assert file[fr..] == [file[fr]] + file[nx..];
    ConsSwallowable(file[fr], file[nx..], dot);
  }

  lemma ConsSwallowable(f: string, fs: seq<string>, dot: bool)
    ensures AllSwallowable([f] + fs, dot) <==> !Unswallowable(f, dot) && AllSwallowable(fs, dot)
  {
    if !Unswallowable(f, dot) && AllSwallowable(fs, dot) {
      forall k | 0 <= k < |fs| + 1 ensures !Unswallowable(([f] + fs)[k], dot) {
        if k > 0 {
          assert ([f] + fs)[k] == fs[k - 1];
        }
      }
    }
    if AllSwallowable([f] + fs, dot) {
      assert ([f] + fs)[0] == f;
      forall k | 0 <= k < |fs| ensures !Unswallowable(fs[k], dot) {
        assert ([f] + fs)[k + 1] == fs[k];
      }
    }
  }

  /** An inner `**` matches when, after swallowing a run of names it may
      swallow (possibly none), the rest of the pattern matches the names
      left; in partial mode also when it may swallow every name. */
  lemma InnerGlobstar(file: seq<string>, rest: seq<Seg>, dot: bool, partial: bool, e: Engine)
    requires rest != []
    ensures MatchOneSpec(file, [Globstar] + rest, dot, partial, e)
            <==> ((exists k :: 0 <= k < |file| && SwallowsTo(file, rest, 0, k, dot, partial, e))
                  || (partial && AllSwallowable(file, dot)))
  {
    assert ([Globstar] + rest)[1..] == rest;
    SwallowIs(file, rest, 0, dot, partial, e);
    assert file[0..] == file;
  }

  /** An inner `**` tries the zero-name case first: whatever the rest of
      the pattern matches, the pattern with `**` in front matches too. */
  lemma GlobstarZeroFirst(file: seq<string>, rest: seq<Seg>, dot: bool, partial: bool, e: Engine)
    requires rest != []
    requires MatchOneSpec(file, rest, dot, partial, e)
    ensures MatchOneSpec(file, [Globstar] + rest, dot, partial, e)
  {
    assert ([Globstar] + rest)[1..] == rest;
    if file != [] {
      assert file[0..] == file;
    }
  }

  /** `**` never swallows `.`, `..` or a hidden name without `dot`: in front
      of such a name it adds nothing to the rest of the pattern. */
  lemma GlobstarStopsAtDot(file: seq<string>, rest: seq<Seg>, dot: bool, partial: bool, e: Engine)
    requires rest != [] && file != [] && Unswallowable(file[0], dot)
    ensures MatchOneSpec(file, [Globstar] + rest, dot, partial, e) == MatchOneSpec(file, rest, dot, partial, e)
  {
    assert ([Globstar] + rest)[1..] == rest;
    assert file[0..] == file;
  }

  /** With the pattern used up, only an exhausted path or one trailing empty
      name is a hit. */
  lemma EmptyPattern(file: seq<string>, dot: bool, partial: bool, e: Engine)
    ensures MatchOneSpec(file, [], dot, partial, e) <==> (file == [] || file == [""])
  {
  }

  /** A pattern holding the `/$./` portion matches no path outside partial
      mode: no `**` may skip a portion, so some name would have to match
      it. */
  lemma {:induction false} NeverMatchesNothing(file: seq<string>, pattern: seq<Seg>, dot: bool, e: Engine)
    requires Never in pattern
    ensures !MatchOneSpec(file, pattern, dot, false, e)
    decreases |pattern|, 1, 0
  {
    if file != [] {
      assert pattern[0] == Never || Never in pattern[1..];
      if pattern[0].Globstar? {
        SwallowNever(file, pattern[1..], 0, dot, e);
      } else if pattern[0] != Never {
        NeverMatchesNothing(file[1..], pattern[1..], dot, e);
      }
    }
  }

  lemma {:induction false} SwallowNever(file: seq<string>, rest: seq<Seg>, fr: nat, dot: bool, e: Engine)
    requires fr <= |file| && Never in rest
    ensures !Swallow(file, rest, fr, dot, false, e)
    decreases |rest| + 1, 0, |file| - fr
  {
    if fr < |file| {
      NeverMatchesNothing(file[fr..], rest, dot, e);
      SwallowNever(file, rest, fr + 1, dot, e);
    }
  }

  /** With the path used up, only an exhausted pattern or partial mode is a
      hit. */
  lemma EmptyFile(pattern: seq<Seg>, dot: bool, partial: bool, e: Engine)
    ensures MatchOneSpec([], pattern, dot, partial, e) <==> (pattern == [] || partial)
  {
  }

  /** Partial mode only adds hits. */
  lemma {:induction false} PartialWeaker(file: seq<string>, pattern: seq<Seg>, dot: bool, e: Engine)
    requires MatchOneSpec(file, pattern, dot, false, e)
    ensures MatchOneSpec(file, pattern, dot, true, e)
    decreases |pattern|, 1, 0
  {
    if file != [] && pattern != [] {
      if pattern[0].Globstar? {
        if |pattern| > 1 {
          SwallowWeaker(file, pattern[1..], 0, dot, e);
        }
      } else {
        PartialWeaker(file[1..], pattern[1..], dot, e);
      }
    }
  }

  lemma {:induction false} SwallowWeaker(file: seq<string>, rest: seq<Seg>, fr: nat, dot: bool, e: Engine)
    requires fr <= |file|
    requires Swallow(file, rest, fr, dot, false, e)
    ensures Swallow(file, rest, fr, dot, true, e)
    decreases |rest| + 1, 0, |file| - fr
  {
    if fr < |file| {
      if MatchOneSpec(file[fr..], rest, dot, false, e) {
        PartialWeaker(file[fr..], rest, dot, e);
      } else {
        SwallowWeaker(file, rest, fr + 1, dot, e);
      }
    }
  }
}
