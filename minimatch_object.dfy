// The `Minimatch` object.  Its constructor trims the pattern and `make`
// fills the fields: the negation, the brace alternatives, their names and
// the compiled set.  `match` tests a path against the set and `makeRe`
// builds the one regular expression and caches it.  Around the object
// stand `minimatch(path, pattern)`, `minimatch.match(list, pattern)`,
// `minimatch.makeRe` and `minimatch.braceExpand`.
module MinimatchObject {
  import opened Wrappers
  import opened JsString
  import opened BraceExpansion
  import opened BraceExpander
  import opened MinimatchParse
  import opened MinimatchCompiler
  import opened MinimatchMatch
  import opened MinimatchMatcher
  import opened MinimatchMake

  class Minimatch {
    const options: Options
    const engine: Engine
    const partial: bool
    var pattern: string
    var negate: bool
    var comment: bool
    var empty: bool
    var globSet: seq<string>
    var globParts: seq<seq<string>>
    var matchSet: seq<seq<Seg>>
    var regexp: Cached

    /** The fields `make` fills, as one value. */
    function Fields(): Built
      reads this
    {
      Built(pattern, negate, comment, empty, globSet, globParts, matchSet)
    }

    /** A cached expression is the one the fields give. */
    predicate Valid()
      reads this
    {
      regexp == NotMade || regexp == MakeReSpec(Fields(), options, engine)
    }

    /** The fields as the constructor leaves them, before `make`. */
    predicate Unmade()
      reads this
    {
      !negate && !comment && !empty && globSet == [] && globParts == [] && matchSet == [] && regexp == NotMade
    }

    /** The field initialisation of the constructor; `make` follows. */
    constructor (pattern: string, options: Options, engine: Engine)
      ensures this.options == options && this.engine == engine && partial == options.partial
      ensures this.pattern == Trim(pattern) && Unmade()
    {
      this.options := options;
      this.engine := engine;
      this.partial := options.partial;
      this.pattern := Trim(pattern);
      negate, comment, empty := false, false, false;
      globSet, globParts, matchSet := [], [], [];
      regexp := NotMade;
    }

    /** `make()`: the fields from the pattern, or the TypeError a portion
        over the length limit raises. */
    method Make() returns (err: Option<string>)
      requires Unmade() && |pattern| <= MaxPatternLength
      requires !MakeSpec(pattern, options, engine).Diverges?
      modifies this
      ensures regexp == NotMade
      ensures MakeSpec(old(pattern), options, engine).Made? ==>
                err == None && Fields() == MakeSpec(old(pattern), options, engine).built
      ensures MakeSpec(old(pattern), options, engine).Throws? ==>
                err == Some(MakeSpec(old(pattern), options, engine).message)
    {
      ghost var p0 := pattern;
      if !options.nocomment && |pattern| > 0 && pattern[0] == '#' {
        comment := true;
        assert Fields() == MakeSpec(p0, options, engine).built;
        return None;
      }
      if pattern == "" {
        empty := true;
        assert Fields() == MakeSpec(p0, options, engine).built;
        return None;
      }
      ghost var spec := MakeSpec(p0, options, engine);
      ParseNegate();
      assert (negate, pattern) == ParseNegateSpec(p0, options.nonegate);
      assert spec == MakeBody(negate, pattern, options, engine);
      err := Build();
    }

    /** The steps of `make` after `parseNegate`: `braceExpand`, the split at
        `/+`, `parse` of every portion and the filter of the alternatives
        that did not compile. */
    method Build() returns (err: Option<string>)
      requires !comment && !empty
      requires !MakeBody(negate, pattern, options, engine).Diverges?
      modifies this`globSet, this`globParts, this`matchSet
      ensures MakeBody(negate, pattern, options, engine).Made? ==>
                err == None && Fields() == MakeBody(negate, pattern, options, engine).built
      ensures MakeBody(negate, pattern, options, engine).Throws? ==>
                err == Some(MakeBody(negate, pattern, options, engine).message)
    {
      var alts := BraceExpand(pattern, options.nobrace);
      globSet := alts;
      globParts := SplitAll(alts);
      var rows := ParseSet(globSet, globParts, options, engine);
      MakeBodyOf(negate, pattern, options, engine, alts, rows);
      if rows.Err? {
        return Some(rows.error);
      }
      matchSet := KeepCompiled(rows.value);
      return None;
    }

    /** `parseNegate()`: count the leading `!`, drop them, and negate for an
        odd count; with `nonegate` nothing changes. */
    method ParseNegate()
      modifies this`pattern, this`negate
      ensures options.nonegate ==> pattern == old(pattern) && negate == old(negate)
      ensures !options.nonegate ==> (negate, pattern) == ParseNegateSpec(old(pattern), false)
    {
      if options.nonegate {
        return;
      }
      var p := pattern;
      var neg := false;
      var offset := 0;
      var i := 0;
      while i < |p| && p[i] == '!'
        invariant 0 <= i == offset <= NegateCount(p)
        invariant neg == (i % 2 == 1)
      {
        neg := !neg;
        offset := offset + 1;
        i := i + 1;
      }
      if offset > 0 {
        pattern := p[offset..];
      } else {
        assert p[0..] == p;
      }
      negate := neg;
    }

    /** `match(f, partial)`: the first alternative that matches decides;
        under `matchBase` a one-portion alternative meets the base name
        only. */
    method Match(f: string, partial: bool) returns (hit: bool)
      ensures hit == MatchSpec(Fields(), options, engine, f, partial)
    {
      if comment {
        return false;
      }
      if empty {
        return f == "";
      }
      if f == "/" && partial {
        return true;
      }
      var names := SplitSlashes(f);
      var filename := BaseName(names);
      var i := 0;
      while i < |matchSet|
        invariant 0 <= i <= |matchSet|
        invariant forall k :: 0 <= k < i ==>
                    !MatchOneSpec(FileFor(matchSet[k], names, filename, options.matchBase), matchSet[k], options.dot, partial, engine)
      {
        var pat := matchSet[i];
        var file := names;
        if options.matchBase && |pat| == 1 {
          file := [filename];
        }
        var h := MatchOne(file, pat, options.dot, partial, engine);
        if h {
          return options.flipNegate || !negate;
        }
        i := i + 1;
      }
      return !options.flipNegate && negate;
    }

    /** `makeRe()`: the cached expression when there is one; otherwise
        `false` for an empty set or a source `new RegExp` refuses, and the
        assembled expression else, which is then cached. */
    method MakeRe() returns (r: Cached)
      requires Valid()
      modifies this`regexp
      ensures Valid() && r == regexp && r == MakeReSpec(Fields(), options, engine)
      ensures old(regexp) != NotMade ==> regexp == old(regexp)
    {
      if regexp != NotMade {
        return regexp;
      }
      if matchSet == [] {
        regexp := NoRegExp;
        return regexp;
      }
      var twoStar := TwoStar(options);
      var flags := if options.nocase then "i" else "";
      var re := Join(SetSource(matchSet, twoStar), "|");
      re := "^(?:" + re + ")$";
      if negate {
        re := "^(?!" + re + ").*$";
      }
      if engine.compiles(re, flags) {
        regexp := RegExp(re, flags);
      } else {
        regexp := NoRegExp;
      }
      return regexp;
    }
  }

  /** The base name loop of `match`: the last non-empty name, scanning from
      the end; the first name when every name is empty. */
  method BaseName(f: seq<string>) returns (filename: string)
    requires |f| >= 1
    ensures filename == LastName(f, |f| - 1)
  {
    var i := |f|;
    filename := "";
    while i > 0
      invariant 0 <= i <= |f|
      invariant forall m :: i <= m < |f| ==> f[m] == ""
      invariant i < |f| ==> filename == f[i]
    {
      i := i - 1;
      filename := f[i];
      if filename != "" {
        break;
      }
    }
    LastNameAt(f, i, |f| - 1);
  }

  /** `braceExpand(pattern, options)`. */
  method BraceExpand(p: string, nobrace: bool) returns (r: seq<string>)
    requires BraceExpandSpec(p, nobrace).Some?
    ensures BraceExpandSpec(p, nobrace) == Some(r)
  {
    if nobrace || !HasBraceSet(p) {
      return [p];
    }
    r := ExpandPattern(p);
  }

  /** `minimatch.braceExpand(pattern, options)`, which first checks the
      pattern's length. */
  method BraceExpandPattern(p: string, nobrace: bool) returns (r: Result<seq<string>, string>)
    requires |p| <= MaxPatternLength ==> BraceExpandSpec(p, nobrace).Some?
    ensures |p| > MaxPatternLength ==> r == Err("pattern is too long")
    ensures |p| <= MaxPatternLength ==> r.Ok? && BraceExpandSpec(p, nobrace) == Some(r.value)
  {
    if |p| > MaxPatternLength {
      return Err("pattern is too long");
    }
    var xs := BraceExpand(p, nobrace);
    return Ok(xs);
  }

  /** `set.map(s => s.map(this.parse, this))`, stopping at the TypeError of
      the first portion over the length limit. */
  method ParseSet(ghost alts: seq<string>, parts: seq<seq<string>>, o: Options, e: Engine)
    returns (r: Result<seq<seq<Parsed>>, string>)
    requires parts == SplitAll(alts)
    ensures r == SetResult(ParseRows(alts, o, e))
  {
    ghost var all := ParseRows(alts, o, e);
    var rows: seq<seq<Parsed>> := [];
    var i := 0;
    while i < |parts|
      invariant 0 <= i <= |parts| == |alts| == |all|
      invariant rows == all[..i] && !AnyTooLong(rows)
    {
      var row := ParsePortions(parts[i], o, e);
      assert all[i] == ParseRow(parts[i], o, e);
      if row.Err? {
        assert AnyTooLong(all) by {
          assert RowTooLong(all[i]);
        }
        return Err(row.error);
      }
      ExtendRows(rows, all, i);
      rows := rows + [row.value];
      i := i + 1;
    }
    assert all[..i] == all;
    return Ok(rows);
  }

  lemma ExtendRows(rows: seq<seq<Parsed>>, all: seq<seq<Parsed>>, i: nat)
    requires i < |all| && rows == all[..i] && !AnyTooLong(rows) && !RowTooLong(all[i])
    ensures rows + [all[i]] == all[..i + 1] && !AnyTooLong(rows + [all[i]])
  {
    assert all[..i + 1] == all[..i] + [all[i]];
    forall j | 0 <= j < |rows| + 1 ensures !RowTooLong((rows + [all[i]])[j]) {
      if j < |rows| {
        assert (rows + [all[i]])[j] == rows[j];
      }
    }
  }

  /** `s.map(this.parse, this)` on the names of one alternative. */
  method ParsePortions(names: seq<string>, o: Options, e: Engine) returns (r: Result<seq<Parsed>, string>)
    ensures r == RowResult(ParseRow(names, o, e))
  {
    ghost var full := ParseRow(names, o, e);
    var row: seq<Parsed> := [];
    var k := 0;
    while k < |names|
      invariant 0 <= k <= |names| == |full|
      invariant row == full[..k] && !RowTooLong(row)
    {
      var x := Parse(names[k], o, e);
      assert x == full[k];
      if x == TooLong {
        assert RowTooLong(full);
        return Err("pattern is too long");
      }
      ExtendRow(row, full, k);
      row := row + [x];
      k := k + 1;
    }
    assert full[..k] == full;
    return Ok(row);
  }

  lemma ExtendRow(row: seq<Parsed>, full: seq<Parsed>, k: nat)
    requires k < |full| && row == full[..k] && !RowTooLong(row) && full[k] != TooLong
    ensures row + [full[k]] == full[..k + 1] && !RowTooLong(row + [full[k]])
  {
    assert full[..k + 1] == full[..k] + [full[k]];
  }

  /** `new Minimatch(pattern, options)`: the length check, the constructor
      and `make`. */
  method New(pattern: string, o: Options, e: Engine) returns (r: Result<Minimatch, string>)
    requires |pattern| <= MaxPatternLength ==> !MakeSpec(Trim(pattern), o, e).Diverges?
    ensures |pattern| > MaxPatternLength ==> r == Err("pattern is too long")
    ensures |pattern| <= MaxPatternLength && MakeSpec(Trim(pattern), o, e).Throws? ==>
              r == Err(MakeSpec(Trim(pattern), o, e).message)
    ensures |pattern| <= MaxPatternLength && MakeSpec(Trim(pattern), o, e).Made? ==>
              && r.Ok? && fresh(r.value) && r.value.options == o && r.value.engine == e
              && r.value.partial == o.partial && r.value.regexp == NotMade
              && r.value.Fields() == MakeSpec(Trim(pattern), o, e).built
  {
    if |pattern| > MaxPatternLength {
      return Err("pattern is too long");
    }
    var m := new Minimatch(pattern, o, e);
    var err := m.Make();
    if err.Some? {
      return Err(err.value);
    }
    return Ok(m);
  }

  /** What `minimatch(path, pattern, options)` returns: the comment
      shortcut on the untrimmed pattern, then `match` with the `partial`
      option. */
  function MinimatchSpec(f: string, pattern: string, o: Options, e: Engine): (r: Result<bool, string>)
    requires |pattern| <= MaxPatternLength ==> !MakeSpec(Trim(pattern), o, e).Diverges?
  {
    if |pattern| > MaxPatternLength then Err("pattern is too long")
    else if !o.nocomment && |pattern| > 0 && pattern[0] == '#' then Ok(false)
    else match MakeSpec(Trim(pattern), o, e)
      case Made(b) => Ok(MatchSpec(b, o, e, f, o.partial))
      case Throws(msg) => Err(msg)
  }

  /** `minimatch(path, pattern, options)`. */
  method Matches(f: string, pattern: string, o: Options, e: Engine) returns (r: Result<bool, string>)
    requires |pattern| <= MaxPatternLength ==> !MakeSpec(Trim(pattern), o, e).Diverges?
    ensures r == MinimatchSpec(f, pattern, o, e)
  {
    if |pattern| > MaxPatternLength {
      return Err("pattern is too long");
    }
    if !o.nocomment && |pattern| > 0 && pattern[0] == '#' {
      return Ok(false);
    }
    var mm := New(pattern, o, e);
    if mm.Err? {
      return Err(mm.error);
    }
    var m := mm.value;
    var hit := m.Match(f, m.partial);
    return Ok(hit);
  }

  /** The paths of `list` that `b` matches, in order. */
  function Kept(list: seq<string>, b: Built, o: Options, e: Engine): (r: seq<string>)
    ensures |r| <= |list|
  {
    if list == [] then []
    else if MatchSpec(b, o, e, list[0], o.partial) then [list[0]] + Kept(list[1..], b, o, e)
    else Kept(list[1..], b, o, e)
  }

  /** A path is kept exactly when it is in the list and matches. */
  lemma {:induction false} KeptIs(list: seq<string>, b: Built, o: Options, e: Engine, x: string)
    ensures x in Kept(list, b, o, e) <==> x in list && MatchSpec(b, o, e, x, o.partial)
  {
    if list != [] {
      KeptIs(list[1..], b, o, e, x);
      assert list == [list[0]] + list[1..];
    }
  }

  /** `minimatch.match(list, pattern, options)`: the matching paths in
      order; under `nonull`, the pattern itself when none matches. */
  function MatchListSpec(list: seq<string>, pattern: string, o: Options, e: Engine): (r: Result<seq<string>, string>)
    requires |pattern| <= MaxPatternLength ==> !MakeSpec(Trim(pattern), o, e).Diverges?
  {
    if |pattern| > MaxPatternLength then Err("pattern is too long")
    else match MakeSpec(Trim(pattern), o, e)
      case Made(b) =>
        var kept := Kept(list, b, o, e);
        Ok(if o.nonull && kept == [] then [pattern] else kept)
      case Throws(msg) => Err(msg)
  }

  /** `minimatch.match(list, pattern, options)`. */
  method MatchList(list: seq<string>, pattern: string, o: Options, e: Engine) returns (r: Result<seq<string>, string>)
    requires |pattern| <= MaxPatternLength ==> !MakeSpec(Trim(pattern), o, e).Diverges?
    ensures r == MatchListSpec(list, pattern, o, e)
  {
    var mm := New(pattern, o, e);
    if mm.Err? {
      return Err(mm.error);
    }
    var m := mm.value;
    assert MakeSpec(Trim(pattern), o, e) == Made(m.Fields());
    var kept := Filter(m, list);
    if o.nonull && kept == [] {
      kept := [pattern];
    }
    return Ok(kept);
  }

  /** `list.filter(f => mm.match(f))`. */
  method Filter(m: Minimatch, list: seq<string>) returns (kept: seq<string>)
    requires m.partial == m.options.partial
    ensures kept == Kept(list, m.Fields(), m.options, m.engine)
  {
    ghost var b := m.Fields();
    kept := [];
    var i := 0;
    assert list[0..] == list;
    while i < |list|
      invariant 0 <= i <= |list|
      invariant Kept(list, b, m.options, m.engine) == kept + Kept(list[i..], b, m.options, m.engine)
    {
      var hit := m.Match(list[i], m.partial);
      KeptStep(list, i, b, m.options, m.engine);
      ghost var rest := Kept(list[i + 1..], b, m.options, m.engine);
      if hit {
        assert kept + ([list[i]] + rest) == (kept + [list[i]]) + rest;
        kept := kept + [list[i]];
      }
      i := i + 1;
    }
  }

  /** One element of the list: kept when it matches, then the rest. */
  lemma KeptStep(list: seq<string>, i: nat, b: Built, o: Options, e: Engine)
    requires i < |list|
    ensures Kept(list[i..], b, o, e) ==
              (if MatchSpec(b, o, e, list[i], o.partial) then [list[i]] else []) + Kept(list[i + 1..], b, o, e)
  {
    assert list[i..][0] == list[i];
    assert list[i..][1..] == list[i + 1..];
  }

  /** `minimatch.makeRe(pattern, options)`. */
  method MakeReOf(pattern: string, o: Options, e: Engine) returns (r: Result<Cached, string>)
    requires |pattern| <= MaxPatternLength ==> !MakeSpec(Trim(pattern), o, e).Diverges?
    ensures |pattern| <= MaxPatternLength && MakeSpec(Trim(pattern), o, e).Made? ==>
              r == Ok(MakeReSpec(MakeSpec(Trim(pattern), o, e).built, o, e))
    ensures !(|pattern| <= MaxPatternLength && MakeSpec(Trim(pattern), o, e).Made?) ==> r.Err?
  {
    var mm := New(pattern, o, e);
    if mm.Err? {
      return Err(mm.error);
    }
    var re := mm.value.MakeRe();
    return Ok(re);
  }
}
