// `matchOne` as the module runs it: the `fi`/`pi` loop over names and
// portions, the loop that checks the names a final `**` swallows, and the
// `fr` loop of an inner `**` that calls `matchOne` again on the rest.
module MinimatchMatcher {
  import opened MinimatchParse
  import opened MinimatchMatch

  /** `matchOne(file, pattern, partial)`, with `dot` from the options. */
  method MatchOne(file: seq<string>, pattern: seq<Seg>, dot: bool, partial: bool, e: Engine) returns (hit: bool)
    ensures hit == MatchOneSpec(file, pattern, dot, partial, e)
    decreases |pattern|, 1
  {
    var fi, pi := 0, 0;
    var fl, pl := |file|, |pattern|;
    while fi < fl && pi < pl
      invariant fi == pi && fi <= fl && pi <= pl
      invariant MatchOneSpec(file[fi..], pattern[pi..], dot, partial, e) == MatchOneSpec(file, pattern, dot, partial, e)
    {
      var p := pattern[pi];
      var f := file[fi];
      if p.Globstar? {
        assert file[fi..][0] == f && pattern[pi..][0] == p;
        var pr := pi + 1;
        if pr == pl {
          assert |pattern[pi..]| == 1;
          hit := SwallowsRest(file, fi, dot);
          return;
        }
        assert pattern[pi..][1..] == pattern[pr..];
        hit := SwallowLoop(file[fi..], pattern[pr..], dot, partial, e);
        return;
      }
      var matched := SegMatches(p, f, e);
      assert file[fi..][1..] == file[fi + 1..] && pattern[pi..][1..] == pattern[pi + 1..];
      if !matched {
        return false;
      }
      fi, pi := fi + 1, pi + 1;
    }
    if fi == fl && pi == pl {
      hit := true;
    } else if fi == fl {
      hit := partial;
    } else {
      assert file[fi..] == [""] <==> (fi == fl - 1 && file[fi] == "");
      hit := fi == fl - 1 && file[fi] == "";
    }
  }

  /** A `**` at the end: every name from `fi` on must be one it may
      swallow. */
  method SwallowsRest(file: seq<string>, fi0: nat, dot: bool) returns (ok: bool)
    requires fi0 <= |file|
    ensures ok == AllSwallowable(file[fi0..], dot)
  {
    var fi := fi0;
    while fi < |file|
      invariant fi0 <= fi <= |file|
      invariant AllSwallowable(file[fi0..fi], dot)
    {
      if Unswallowable(file[fi], dot) {
        assert file[fi0..][fi - fi0] == file[fi];
        return false;
      }
      assert file[fi0..fi + 1] == file[fi0..fi] + [file[fi]];
      fi := fi + 1;
    }
    assert file[fi0..fi] == file[fi0..];
    return true;
  }

  /** The `fr` loop of an inner `**`, on the names `names` left at the `**`
      and the portions `rest` after it: try the rest from `fr`, else swallow
      `names[fr]` unless it is `.`, `..` or hidden. */
  method SwallowLoop(names: seq<string>, rest: seq<Seg>, dot: bool, partial: bool, e: Engine) returns (hit: bool)
    ensures hit == Swallow(names, rest, 0, dot, partial, e)
    decreases |rest| + 1, 0
  {
    var fr := 0;
    var fl := |names|;
    while fr < fl
      invariant 0 <= fr <= fl
      invariant Swallow(names, rest, fr, dot, partial, e) == Swallow(names, rest, 0, dot, partial, e)
    {
      var swallowee := names[fr];
      var found := MatchOne(names[fr..], rest, dot, partial, e);
      if found {
        return true;
      }
      if Unswallowable(swallowee, dot) {
        break;
      }
      fr := fr + 1;
    }
    return partial && fr == fl;
  }
}
