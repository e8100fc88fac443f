// The synchronous glob object: `setopts` fills in its options, `_process`
// walks every alternative of the pattern through the caches and the file
// system, recording what matched in one match set per alternative, and
// `_finish` turns the match sets into `found`.
module GlobSyncModel {
  import opened Wrappers
  import opened JsString
  import opened MinimatchParse
  import opened MinimatchMatch
  import opened StableSort
  import opened JsObject
  import opened GlobCommon
  import opened GlobSyncSpec

  /** The options the walk reads, taken from the settings. */
  function WalkOf(s: Settings, fs: FileSystem, e: Engine): (w: Walk)
    ensures w.place == s.place && w.ignore == s.ignore && w.engine == e && w.fs == fs
    ensures w.mark == s.mark && w.absolute == s.absolute && w.nodir == s.nodir && w.stat == s.stat
  {
    Walk(s.place, fs, s.mark, s.stat, s.follow, s.strict, s.dot, s.nomount, s.nodir, s.absolute,
         s.maxLength, s.place.cwd, s.cwdAbs, s.ignore, s.minimatch.negate, e)
  }

  /** The options `finish` reads, taken from the settings. */
  function FinishingOf(s: Settings, collate: (string, string) -> bool, e: Engine): (f: Finishing)
    ensures f.place == s.place && f.ignore == s.ignore && f.engine == e && f.collate == collate
    ensures f.globSet == s.minimatch.globSet && f.nounique == s.nounique && f.nosort == s.nosort
    ensures f.mark == s.mark && f.nodir == s.nodir && f.nonull == s.nonull
  {
    Finishing(s.nounique, s.nonull, s.nosort, s.mark, s.nodir, s.ignore, s.minimatch.globSet, s.place, collate, e)
  }

  /** No name of `xs` is ignored. */
  predicate NoneIgnored(ignore: seq<IgnoreItem>, e: Engine, xs: seq<string>)
  {
    forall k :: 0 <= k < |xs| ==> !IsIgnored(ignore, xs[k], e)
  }

  /** The match sets and both caches after `_emitMatch`. */
  datatype Emitted = Emitted(matches: seq<MatchSet>, cache: map<string, CacheEntry>, statCache: map<string, StatEntry>)

  /** The key `_emitMatch` records for `e` after `mark`: the marked name,
      or the absolute path under `absolute`. */
  function EmitKey(w: Walk, e: string, mk: Marked): string
  {
    if w.absolute then MakeAbs(w.place, e) else mk.name
  }

  /** `_mark(e)` when `mark` is set; nothing otherwise. */
  function MarkIf(w: Walk, e: string, cache: map<string, CacheEntry>, statCache: map<string, StatEntry>): Marked
  {
    if w.mark then MarkSpec(w.place, e, cache, statCache) else Marked(e, cache, statCache)
  }

  /** `_emitMatch(index, e)`: not for an ignored name, a name already
      recorded, or under `nodir` a directory; a new name goes at the end of
      the match set and is statted under `stat`. */
  function EmitSpec(w: Walk, index: nat, e: string, ms: seq<MatchSet>, cache: map<string, CacheEntry>, statCache: map<string, StatEntry>): Emitted
    requires index < |ms| && ms[index].Some?
  {
    if IsIgnored(w.ignore, e, w.engine) then Emitted(ms, cache, statCache)
    else
      var mk := MarkIf(w, e, cache, statCache);
      var key := EmitKey(w, e, mk);
      if key in ms[index].value then Emitted(ms, mk.cache, mk.statCache)
      else if w.nodir && IsDirEntry(Lookup(mk.cache, MakeAbs(w.place, e))) then Emitted(ms, mk.cache, mk.statCache)
      else
        var grown := ms[index := Some(ms[index].value + [key])];
        if w.stat then
          var st := StatSpec(w, key, mk.cache, mk.statCache);
          Emitted(grown, st.cache, st.statCache)
        else Emitted(grown, mk.cache, mk.statCache)
  }

  /** `_emitMatch` grows one match set by at most its key, keeps it free of
      repeats, and records the key unless the name is ignored or, under
      `nodir`, a directory. */
  lemma EmitRecords(w: Walk, index: nat, e: string, ms: seq<MatchSet>, cache: map<string, CacheEntry>, statCache: map<string, StatEntry>)
    requires index < |ms| && ms[index].Some? && Distinct(ms[index].value)
    ensures var r := EmitSpec(w, index, e, ms, cache, statCache);
            var mk := MarkIf(w, e, cache, statCache);
            && GrewAt(ms, r.matches, index)
            && Distinct(r.matches[index].value)
            && (r.matches[index] == ms[index] || r.matches[index].value == ms[index].value + [EmitKey(w, e, mk)])
            && (!IsIgnored(w.ignore, e, w.engine) && !(w.nodir && IsDirEntry(Lookup(mk.cache, MakeAbs(w.place, e)))) ==>
                  EmitKey(w, e, mk) in r.matches[index].value)
            && (IsIgnored(w.ignore, e, w.engine) ==> r == Emitted(ms, cache, statCache))
  {
    var r := EmitSpec(w, index, e, ms, cache, statCache);
    var mk := MarkIf(w, e, cache, statCache);
    var key := EmitKey(w, e, mk);
    if r.matches[index] != ms[index] {
      var xs := ms[index].value;
      assert key !in xs;
      var ys := xs + [key];
      forall i, j | 0 <= i < j < |ys| ensures ys[i] != ys[j] {
        if j == |xs| {
          assert ys[i] == xs[i];
        } else {
          assert ys[i] == xs[i] && ys[j] == xs[j];
        }
      }
    }
  }

  /** No match set holds a name twice, and while names are recorded as
      given (no `mark`, no `absolute`) none of them is ignored. */
  predicate SetsOk(w: Walk, ms: seq<MatchSet>)
  {
    && (forall j :: 0 <= j < |ms| && ms[j].Some? ==> Distinct(ms[j].value))
    && (!w.mark && !w.absolute ==>
          forall j :: 0 <= j < |ms| && ms[j].Some? ==> NoneIgnored(w.ignore, w.engine, ms[j].value))
  }

  /** `_emitMatch` keeps the match sets free of repeats and of ignored
      names. */
  lemma EmitKeeps(w: Walk, index: nat, e: string, ms: seq<MatchSet>, cache: map<string, CacheEntry>, statCache: map<string, StatEntry>)
    requires index < |ms| && ms[index].Some? && SetsOk(w, ms)
    ensures SetsOk(w, EmitSpec(w, index, e, ms, cache, statCache).matches)
  {
    var r := EmitSpec(w, index, e, ms, cache, statCache);
    EmitRecords(w, index, e, ms, cache, statCache);
    if !w.mark && !w.absolute && r.matches[index] != ms[index] {
      var xs := r.matches[index].value;
      assert xs == ms[index].value + [e];
      forall k | 0 <= k < |xs| ensures !IsIgnored(w.ignore, xs[k], w.engine) {
        if k < |ms[index].value| {
          assert xs[k] == ms[index].value[k];
        }
      }
    }
  }

  /** `_processSimple(prefix, index)`: `_stat` the literal path, make sure
      the match set exists, and, when the path exists, emit it (mounted
      below `root` when it is absolute). */
  function SimpleSpec(w: Walk, index: nat, prefix: string, ms: seq<MatchSet>, cache: map<string, CacheEntry>, statCache: map<string, StatEntry>): Emitted
    requires index < |ms|
  {
    var st := StatSpec(w, prefix, cache, statCache);
    var base := if ms[index].None? then ms[index := Some([])] else ms;
    if !Truthy(st.result) then Emitted(base, st.cache, st.statCache)
    else EmitSpec(w, index, EmitName(w, "", prefix), base, st.cache, st.statCache)
  }

  /** After `_processSimple` the match set exists and holds what it held
      before, plus at most the emitted key, and only when `_stat` found the
      path; it gains the key whenever `_stat` found the path and the name is
      neither ignored nor, under `nodir`, a directory. */
  lemma SimpleRecords(w: Walk, index: nat, prefix: string, ms: seq<MatchSet>, cache: map<string, CacheEntry>, statCache: map<string, StatEntry>)
    requires index < |ms| && SetsOk(w, ms)
    ensures var st := StatSpec(w, prefix, cache, statCache);
            var r := SimpleSpec(w, index, prefix, ms, cache, statCache);
            var n := EmitName(w, "", prefix);
            var mk := MarkIf(w, n, st.cache, st.statCache);
            var before := if ms[index].Some? then ms[index].value else [];
            && r.matches[index].Some? && GrewAt(ms, r.matches, index) && SetsOk(w, r.matches)
            && (!Truthy(st.result) ==> r.matches[index].value == before)
            && (Truthy(st.result) ==>
                  r.matches[index].value == before || r.matches[index].value == before + [EmitKey(w, n, mk)])
            && (Truthy(st.result) && !IsIgnored(w.ignore, n, w.engine) && !(w.nodir && IsDirEntry(Lookup(mk.cache, MakeAbs(w.place, n)))) ==>
                  EmitKey(w, n, mk) in r.matches[index].value)
  {
    var st := StatSpec(w, prefix, cache, statCache);
    var base := if ms[index].None? then ms[index := Some([])] else ms;
    assert SetsOk(w, base) by {
      if ms[index].None? {
        forall j | 0 <= j < |base| && base[j].Some? ensures Distinct(base[j].value) && (!w.mark && !w.absolute ==> NoneIgnored(w.ignore, w.engine, base[j].value)) {
          if j != index {
            assert base[j] == ms[j];
          }
        }
      }
    }
    if Truthy(st.result) {
      var n := EmitName(w, "", prefix);
      EmitRecords(w, index, n, base, st.cache, st.statCache);
      EmitKeeps(w, index, n, base, st.cache, st.statCache);
    }
  }

  /** The loop of `common.finish` that gathers every pattern's matches,
      or the pattern itself under `nonull`, as the keys of `all` (or as a
      plain list under `nounique`). */
  method CollectAll(matches: seq<MatchSet>, globSet: seq<string>, nonull: bool, nounique: bool) returns (all: seq<string>)
    requires |matches| <= |globSet|
    ensures all == Collected(matches, globSet, nonull, nounique)
  {
    all := [];
    var obj: seq<string> := [];
    ghost var xs: seq<string> := [];
    var i := 0;
    while i < |matches|
      invariant 0 <= i <= |matches|
      invariant xs == Gathered(matches[..i], globSet, nonull)
      invariant nounique ==> all == xs
      invariant !nounique ==> obj == Dedup(xs)
    {
      all, obj := CollectOne(matches[i], globSet[i], nonull, nounique, all, obj, xs);
      GatheredSnoc(matches, globSet, nonull, i);
      xs := xs + Contribution(matches[i], globSet[i], nonull);
      i := i + 1;
    }
    assert matches[..|matches|] == matches;
    if !nounique {
      all := Keys(obj);
    }
  }

  /** One pattern's turn in that loop. */
  method CollectOne(m: MatchSet, literal: string, nonull: bool, nounique: bool,
                    all: seq<string>, obj: seq<string>, ghost xs: seq<string>)
    returns (all': seq<string>, obj': seq<string>)
    requires !nounique ==> obj == Dedup(xs)
    ensures nounique ==> all' == all + Contribution(m, literal, nonull)
    ensures !nounique ==> obj' == Dedup(xs + Contribution(m, literal, nonull))
  {
    all', obj' := all, obj;
    if m.None? || m.value == [] {
      if nonull {
        if nounique {
          all' := all + [literal];
        } else {
          DedupSnoc(xs, literal);
          obj' := SetKey(obj, literal);
        }
      } else {
        assert xs + [] == xs;
      }
    } else {
      var ks := Keys(m.value);
      if nounique {
        all' := all + ks;
      } else {
        obj' := SetKeys(obj, xs, ks);
      }
    }
  }

  /** `m.forEach(function (m) { all[m] = true })`. */
  method SetKeys(obj: seq<string>, ghost xs: seq<string>, ks: seq<string>) returns (r: seq<string>)
    requires obj == Dedup(xs)
    ensures r == Dedup(xs + ks)
  {
    r := obj;
    var k := 0;
    assert xs + ks[..0] == xs;
    while k < |ks|
      invariant 0 <= k <= |ks|
      invariant r == Dedup(xs + ks[..k])
    {
      DedupSnoc(xs + ks[..k], ks[k]);
      assert xs + ks[..k + 1] == (xs + ks[..k]) + [ks[k]];
      r := SetKey(r, ks[k]);
      k := k + 1;
    }
    assert ks[..|ks|] == ks;
  }

  class GlobSync {
    const walk: Walk
    const finishing: Finishing
    const realpath: bool
    const realpathOf: string -> RealPath
    /** `minimatch.set`: the compiled alternatives. */
    const alternatives: seq<seq<Seg>>
    var cache: map<string, CacheEntry>
    var statCache: map<string, StatEntry>
    var symlinks: map<string, bool>
    var matches: seq<MatchSet>
    var found: seq<string>

    /** No match set holds a name twice, and while names are recorded as
        given (no `mark`, no `absolute`) none of them is ignored. */
    predicate Valid()
      reads this
    {
      SetsOk(walk, matches)
    }

    /** The object after `setopts`, with `new Array(n)` for the match
        sets. */
    constructor (s: Settings, fs: FileSystem, rp: string -> RealPath, collate: (string, string) -> bool, e: Engine)
      ensures walk == WalkOf(s, fs, e) && finishing == FinishingOf(s, collate, e)
      ensures realpath == s.realpath && realpathOf == rp && alternatives == s.minimatch.matchSet
      ensures cache == s.cache && statCache == s.statCache && symlinks == s.symlinks
      ensures matches == seq(|s.minimatch.matchSet|, _ => None) && found == []
      ensures Valid()
    {
      walk := WalkOf(s, fs, e);
      finishing := FinishingOf(s, collate, e);
      realpath := s.realpath;
      realpathOf := rp;
      alternatives := s.minimatch.matchSet;
      cache := s.cache;
      statCache := s.statCache;
      symlinks := s.symlinks;
      matches := seq(|s.minimatch.matchSet|, _ => None);
      found := [];
    }

    // ---- _stat ----

    method Stat(f: string) returns (c: CacheEntry)
      modifies this
      ensures StatOut(c, cache, statCache) == StatSpec(walk, f, old(cache), old(statCache))
      ensures symlinks == old(symlinks) && matches == old(matches) && found == old(found)
    {
      var abs := MakeAbs(walk.place, f);
      var needDir := EndsWith(f, "/");
      if walk.maxLength.Some? && |f| > walk.maxLength.value {
        return Missing;
      }
      if !walk.stat && abs in cache {
        var known := cache[abs];
        if known.Entries? {
          known := IsDir;
        }
        if !needDir || known == IsDir {
          return known;
        }
        if needDir && known == IsFile {
          return Missing;
        }
      }
      var stat: Option<Stats> := None;
      if abs in statCache && statCache[abs].Stat? {
        stat := Some(statCache[abs].stats);
      } else {
        match walk.fs.lstat(abs)
        case Failed(er) =>
          if er == ENOENT || er == ENOTDIR {
            statCache := statCache[abs := NoStat];
            return Missing;
          }
        case Done(l) =>
          if l.isSymbolicLink {
            match walk.fs.stat(abs)
            case Done(st) => stat := Some(st);
            case Failed(_) => stat := Some(l);
          } else {
            stat := Some(l);
          }
      }
      statCache := statCache[abs := if stat.Some? then StatEntry.Stat(stat.value) else NoStat];
      c := Exists;
      if stat.Some? {
        c := if stat.value.isDirectory then IsDir else IsFile;
      }
      cache := KeepKnown(cache, abs, c);
      if needDir && c == IsFile {
        return Missing;
      }
    }

    // ---- _mark ----

    method Mark(p: string) returns (m: string)
      modifies this
      ensures Marked(m, cache, statCache) == MarkSpec(walk.place, p, old(cache), old(statCache))
      ensures symlinks == old(symlinks) && matches == old(matches) && found == old(found)
    {
      var abs := MakeAbs(walk.place, p);
      var c := Lookup(cache, abs);
      m := p;
      if Truthy(c) {
        var isDir := IsDirEntry(c);
        var slash := |p| > 0 && p[|p| - 1] == '/';
        if isDir && !slash {
          m := m + "/";
        } else if !isDir && slash {
          m := m[..|m| - 1];
        }
        if m != p {
          var mabs := MakeAbs(walk.place, m);
          statCache := CopyStat(statCache, abs, mabs);
          cache := cache[mabs := cache[abs]];
        }
      }
    }

    // ---- _readdir ----

    method ReaddirEntries(abs: string, entries: seq<string>)
      modifies this
      ensures cache == EntriesCache(walk, abs, entries, old(cache))
      ensures statCache == old(statCache) && symlinks == old(symlinks) && matches == old(matches) && found == old(found)
    {
      if !walk.mark && !walk.stat {
        var i := 0;
        while i < |entries|
          invariant 0 <= i <= |entries|
          invariant cache == CacheChildren(old(cache), abs, entries[..i])
          invariant statCache == old(statCache) && symlinks == old(symlinks) && matches == old(matches) && found == old(found)
        {
          var e := entries[i];
          if abs == "/" {
            e := abs + e;
          } else {
            e := abs + "/" + e;
          }
          cache := cache[e := Exists];
          i := i + 1;
          assert entries[..i][..i - 1] == entries[..i - 1];
        }
        assert entries[..|entries|] == entries;
      }
      cache := cache[abs := Entries(entries)];
    }

    method ReaddirError(f: string, er: FsError) returns (thrown: Option<Thrown>)
      modifies this
      ensures (cache, thrown) == ReaddirErrorSpec(walk, f, er, old(cache))
      ensures statCache == old(statCache) && symlinks == old(symlinks) && matches == old(matches) && found == old(found)
    {
      var abs := MakeAbs(walk.place, f);
      thrown := None;
      if er == ENOTSUP || er == ENOTDIR {
        cache := cache[abs := IsFile];
        if abs == walk.cwdAbs {
          thrown := Some(InvalidCwd(CodeName(er), walk.cwd));
        }
      } else if er == ENOENT || er == ELOOP || er == ENAMETOOLONG || er == UNKNOWN {
        cache := cache[abs := Missing];
      } else {
        cache := cache[abs := Missing];
        if walk.strict {
          thrown := Some(FsFailure(er));
        }
      }
    }

    method Readdir(abs: string, inGlobStar: bool) returns (entries: Option<seq<string>>, thrown: Option<Thrown>)
      modifies this
      ensures ReadOut(entries, thrown, cache, symlinks) == ReaddirSpec(walk, abs, inGlobStar, old(cache), old(symlinks))
      ensures statCache == old(statCache) && matches == old(matches) && found == old(found)
      decreases if inGlobStar then 2 else 0
    {
      if inGlobStar && abs !in symlinks {
        entries, thrown := ReaddirInGlobStar(abs);
        return;
      }
      thrown := None;
      if abs in cache {
        var c := cache[abs];
        if !Truthy(c) || c == IsFile {
          return None, None;
        }
        if c.Entries? {
          return Some(c.names), None;
        }
      }
      match walk.fs.readdir(abs)
      case Done(es) =>
        ReaddirEntries(abs, es);
        entries := Some(es);
      case Failed(er) =>
        thrown := ReaddirError(abs, er);
        entries := None;
    }

    method ReaddirInGlobStar(abs: string) returns (entries: Option<seq<string>>, thrown: Option<Thrown>)
      requires abs !in symlinks
      modifies this
      ensures ReadOut(entries, thrown, cache, symlinks) == InGlobStarSpec(walk, abs, old(cache), old(symlinks))
      ensures statCache == old(statCache) && matches == old(matches) && found == old(found)
      decreases 1
    {
      if walk.follow {
        entries, thrown := Readdir(abs, false);
        return;
      }
      match walk.fs.lstat(abs)
      case Failed(er) =>
        if er == ENOENT {
          return None, None;
        }
        symlinks := symlinks[abs := false];
        entries, thrown := Readdir(abs, false);
      case Done(l) =>
        symlinks := symlinks[abs := l.isSymbolicLink];
        if !l.isSymbolicLink && !l.isDirectory {
          cache := cache[abs := IsFile];
          return None, None;
        }
        entries, thrown := Readdir(abs, false);
    }

    // ---- _emitMatch ----

    method EmitMatch(index: nat, e: string)
      requires Valid() && index < |matches| && matches[index].Some?
      modifies this
      ensures Emitted(matches, cache, statCache) == EmitSpec(walk, index, e, old(matches), old(cache), old(statCache))
      ensures symlinks == old(symlinks) && found == old(found)
      ensures Valid() && GrewAt(old(matches), matches, index)
    {
      EmitRecords(walk, index, e, matches, cache, statCache);
      EmitKeeps(walk, index, e, matches, cache, statCache);
      if IsIgnored(walk.ignore, e, walk.engine) {
        return;
      }
      var abs := MakeAbs(walk.place, e);
      var name := e;
      if walk.mark {
        name := Mark(e);
      }
      if walk.absolute {
        name := abs;
      }
      if name in matches[index].value {
        return;
      }
      if walk.nodir {
        var c := Lookup(cache, abs);
        if c == IsDir || c.Entries? {
          return;
        }
      }
      matches := matches[index := Some(matches[index].value + [name])];
      if walk.stat {
        var _ := Stat(name);
      }
    }

    // ---- _process ----

    method Process(pattern: seq<Seg>, index: nat, inGlobStar: bool, fuel: nat) returns (thrown: Option<Thrown>)
      requires Valid() && index < |matches|
      modifies this
      ensures Valid() && GrewAt(old(matches), matches, index)
      decreases fuel, 1
    {
      if fuel == 0 {
        return None;
      }
      var n := 0;
      while n < |pattern| && pattern[n].Lit?
        invariant n <= LeadingLits(pattern)
      {
        n := n + 1;
      }
      if n == |pattern| {
        ProcessSimple(Join(Shown(pattern), "/"), index);
        return None;
      }
      var start := StartOf(pattern);
      var remain := pattern[n..];
      var abs := MakeAbs(walk.place, start.read);
      if ChildrenIgnored(walk.ignore, start.read, walk.engine) {
        return None;
      }
      if remain[0].Globstar? {
        thrown := ProcessGlobStar(start.prefix, abs, remain, index, inGlobStar, fuel - 1);
      } else {
        thrown := ProcessReaddir(start.prefix, abs, remain, index, inGlobStar, fuel - 1);
      }
    }

    method ProcessReaddir(prefix: Option<string>, abs: string, remain: seq<Seg>, index: nat, inGlobStar: bool, fuel: nat)
      returns (thrown: Option<Thrown>)
      requires Valid() && index < |matches| && |remain| > 0 && (remain[0].Magic? || remain[0].Never?)
      modifies this
      ensures Valid() && GrewAt(old(matches), matches, index)
      decreases fuel, 2
    {
      var entries, t := Readdir(abs, inGlobStar);
      if t.Some? {
        return t;
      }
      if entries.None? {
        return None;
      }
      var es := entries.value;
      var pn := remain[0];
      if pn.Never? && !walk.dot {
        return Some(NoGlobText);
      }
      var dotOk := walk.dot || (pn.Magic? && |pn.glob| > 0 && pn.glob[0] == '.');
      var invert := walk.negate && !HasPrefix(prefix);
      var matched := MatchEntries(es, pn, dotOk, invert);
      if |matched| == 0 {
        return None;
      }
      if |remain| == 1 && !walk.mark && !walk.stat {
        if matches[index].None? {
          matches := matches[index := Some([])];
        }
        var k := 0;
        while k < |matched|
          invariant Valid() && GrewAt(old(matches), matches, index) && matches[index].Some?
        {
          EmitMatch(index, EmitName(walk, PrefixText(prefix), matched[k]));
          k := k + 1;
        }
        return None;
      }
      var rest := remain[1..];
      var k := 0;
      while k < |matched|
        invariant Valid() && GrewAt(old(matches), matches, index)
      {
        var res := Process(Stand(prefix, matched[k], rest), index, inGlobStar, fuel);
        if res.Some? {
          return res;
        }
        k := k + 1;
      }
      return None;
    }

    /** The loop of `_processReaddir` that keeps the entries matching the
        first portion. */
    method MatchEntries(es: seq<string>, pn: Seg, dotOk: bool, invert: bool) returns (matched: seq<string>)
      ensures matched == MatchedEntries(es, pn, dotOk, invert, walk.engine)
    {
      matched := [];
      var i := 0;
      while i < |es|
        invariant 0 <= i <= |es|
        invariant matched == MatchedEntries(es[..i], pn, dotOk, invert, walk.engine)
      {
        var e := es[i];
        if |e| == 0 || e[0] != '.' || dotOk {
          var m := if invert then !SegMatches(pn, e, walk.engine) else SegMatches(pn, e, walk.engine);
          if m {
            matched := matched + [e];
          }
        }
        i := i + 1;
        assert es[..i][..i - 1] == es[..i - 1];
      }
      assert es[..|es|] == es;
    }

    method ProcessGlobStar(prefix: Option<string>, abs: string, remain: seq<Seg>, index: nat, inGlobStar: bool, fuel: nat)
      returns (thrown: Option<Thrown>)
      requires Valid() && index < |matches| && |remain| > 0 && remain[0].Globstar?
      modifies this
      ensures Valid() && GrewAt(old(matches), matches, index)
      decreases fuel, 2
    {
      var entries, t := Readdir(abs, inGlobStar);
      if t.Some? {
        return t;
      }
      if entries.None? {
        return None;
      }
      var without := remain[1..];
      var gspref: seq<Seg> := if HasPrefix(prefix) then [Lit(prefix.value)] else [];
      thrown := Process(gspref + without, index, false, fuel);
      if thrown.Some? {
        return;
      }
      var es := entries.value;
      var isSym := abs in symlinks && symlinks[abs];
      if isSym && inGlobStar {
        return None;
      }
      var i := 0;
      while i < |es|
        invariant Valid() && GrewAt(old(matches), matches, index)
      {
        var e := es[i];
        if !(|e| > 0 && e[0] == '.' && !walk.dot) {
          thrown := Process(gspref + [Lit(e)] + without, index, true, fuel);
          if thrown.Some? {
            return;
          }
          thrown := Process(gspref + [Lit(e)] + remain, index, true, fuel);
          if thrown.Some? {
            return;
          }
        }
        i := i + 1;
      }
      return None;
    }

    method ProcessSimple(prefix: string, index: nat)
      requires Valid() && index < |matches|
      modifies this
      ensures Emitted(matches, cache, statCache) == SimpleSpec(walk, index, prefix, old(matches), old(cache), old(statCache))
      ensures symlinks == old(symlinks) && found == old(found)
      ensures Valid() && GrewAt(old(matches), matches, index) && matches[index].Some?
    {
      SimpleRecords(walk, index, prefix, matches, cache, statCache);
      var there := Stat(prefix);
      if matches[index].None? {
        matches := matches[index := Some([])];
      }
      if !Truthy(there) {
        return;
      }
      var p := prefix;
      if p != "" && IsAbsolute(p) && !walk.nomount {
        p := walk.place.paths.join(walk.place.root, p);
      }
      EmitMatch(index, p);
    }

    // ---- _finish ----

    /** The `realpath` pass of `_finish`. */
    method RealpathPass() returns (thrown: Option<Thrown>)
      modifies this
      ensures RealAll(walk.place, realpathOf, old(matches)).Ok? ==>
                thrown.None? && matches == RealAll(walk.place, realpathOf, old(matches)).value
      ensures RealAll(walk.place, realpathOf, old(matches)).Err? ==>
                thrown == Some(RealAll(walk.place, realpathOf, old(matches)).error)
      ensures cache == old(cache) && statCache == old(statCache) && symlinks == old(symlinks) && found == old(found)
    {
      var i := 0;
      while i < |matches|
        invariant 0 <= i <= |matches| == |old(matches)|
        invariant RealAll(walk.place, realpathOf, old(matches)[..i]).Ok?
        invariant matches[..i] == RealAll(walk.place, realpathOf, old(matches)[..i]).value
        invariant matches[i..] == old(matches)[i..]
        invariant cache == old(cache) && statCache == old(statCache) && symlinks == old(symlinks) && found == old(found)
      {
        assert old(matches)[..i + 1][..i] == old(matches)[..i];
        assert matches[i] == old(matches)[i];
        if matches[i].Some? {
          var keys := RealSet(Keys(matches[i].value));
          if keys.Err? {
            RealStops(walk.place, realpathOf, old(matches), i);
            return Some(keys.error);
          }
          matches := matches[i := Some(keys.value)];
        }
        i := i + 1;
        assert matches[..i] == matches[..i - 1] + [matches[i - 1]];
      }
      assert old(matches)[..|matches|] == old(matches);
      thrown := None;
    }

    /** The keys of one match set through `realpathSync`, in order. */
    method RealSet(ks: seq<string>) returns (r: Result<seq<string>, Thrown>)
      ensures r == RealKeys(walk.place, realpathOf, ks)
    {
      var keys: seq<string> := [];
      var k := 0;
      while k < |ks|
        invariant 0 <= k <= |ks|
        invariant RealKeys(walk.place, realpathOf, ks[..k]) == Ok(keys)
      {
        assert ks[..k + 1][..k] == ks[..k];
        var abs := MakeAbs(walk.place, ks[k]);
        match realpathOf(abs) {
          case Real(path) =>
            keys := SetKey(keys, path);
          case StatFailed =>
            keys := SetKey(keys, MakeAbs(walk.place, abs));
          case RealFailed(m) =>
            assert RealKeys(walk.place, realpathOf, ks[..k + 1]) == Err(RealpathFailure(m));
            RealKeysStays(walk.place, realpathOf, ks, k + 1);
            return Err(RealpathFailure(m));
        }
        k := k + 1;
      }
      assert ks[..|ks|] == ks;
      return Ok(keys);
    }

    /** `common.finish(this)`. */
    method CommonFinish()
      requires |matches| <= |finishing.globSet| && walk.place == finishing.place
      modifies this
      ensures Finished(found, cache, statCache) == FinishSpec(finishing, old(matches), old(cache), old(statCache))
      ensures matches == old(matches) && symlinks == old(symlinks)
    {
      var f := finishing;
      var all := CollectAll(matches, f.globSet, f.nonull, f.nounique);
      if !f.nosort {
        all := Sort(all, f.collate);
      }
      assert all == FinishList(f, matches);
      if f.mark {
        all := MarkEach(all);
        if f.nodir {
          all := FilterNotDir(f.place, cache, all);
        }
      }
      if |f.ignore| > 0 {
        all := FilterIgnored(f.ignore, f.engine, all);
      }
      found := all;
    }

    /** `all[i] = this._mark(all[i])` for every `i` in turn. */
    method MarkEach(xs: seq<string>) returns (ys: seq<string>)
      modifies this
      ensures (ys, cache, statCache) == MarkAll(walk.place, xs, old(cache), old(statCache))
      ensures matches == old(matches) && symlinks == old(symlinks) && found == old(found)
    {
      ys := xs;
      var j := 0;
      while j < |ys|
        invariant 0 <= j <= |ys| == |xs|
        invariant (ys[..j], cache, statCache) == MarkAll(walk.place, xs[..j], old(cache), old(statCache))
        invariant ys[j..] == xs[j..]
        invariant matches == old(matches) && symlinks == old(symlinks) && found == old(found)
      {
        assert ys[j] == xs[j];
        ghost var done := ys[..j];
        ghost var (c1, s1) := (cache, statCache);
        var m := Mark(ys[j]);
        MarkAllStep(walk.place, xs, j, old(cache), old(statCache), done, c1, s1, Marked(m, cache, statCache));
        ys := ys[j := m];
        assert ys[..j + 1] == done + [m];
        j := j + 1;
      }
      assert xs[..|xs|] == xs;
      assert ys[..|ys|] == ys;
    }

    method Finish() returns (thrown: Option<Thrown>)
      requires |matches| <= |finishing.globSet| && walk.place == finishing.place
      modifies this
      ensures thrown.None? && realpath ==>
                RealAll(walk.place, realpathOf, old(matches)).Ok? && matches == RealAll(walk.place, realpathOf, old(matches)).value
      ensures thrown.None? && !realpath ==> matches == old(matches)
      ensures thrown.None? ==>
                |matches| <= |finishing.globSet| && Finished(found, cache, statCache) == FinishSpec(finishing, matches, old(cache), old(statCache))
      ensures realpath && RealAll(walk.place, realpathOf, old(matches)).Err? ==>
                thrown == Some(RealAll(walk.place, realpathOf, old(matches)).error)
    {
      if realpath {
        thrown := RealpathPass();
        if thrown.Some? {
          return;
        }
      }
      CommonFinish();
      thrown := None;
    }
  }

  /** `globSync(pattern, options)`: the error `new GlobSync` throws, or
      `found` (None when `noprocess` leaves it unset).  `fuel` bounds the
      depth of the walk. */
  method Glob(pattern: string, go: GlobOptions, paths: PathOps, e: Engine, fs: FileSystem, rp: string -> RealPath,
              collate: (string, string) -> bool, fuel: nat)
    returns (r: Result<Option<seq<string>>, string>)
    requires SetOptsBuilds(pattern, go, e)
    ensures pattern == "" ==> r == Err("must provide pattern")
    ensures pattern != "" && SetOpts(pattern, go, paths, e).Err? ==> r == Err(SetOpts(pattern, go, paths, e).error)
    ensures pattern != "" && SetOpts(pattern, go, paths, e).Ok? ==>
              Promised(SetOpts(pattern, go, paths, e).value, collate, e, r)
  {
    if pattern == "" {
      return Err("must provide pattern");
    }
    var so := SetOpts(pattern, go, paths, e);
    if so.Err? {
      return Err(so.error);
    }
    r := Run(so.value, fs, rp, collate, e, fuel);
  }

  /** What `globSync` promises of its result: nothing under `noprocess`,
      otherwise no ignored name, and without `mark` each name once (unless
      `nounique`) and in collation order (unless `nosort`). */
  ghost predicate Promised(s: Settings, collate: (string, string) -> bool, e: Engine, r: Result<Option<seq<string>>, string>)
  {
    && (s.noprocess ==> r == Ok(None))
    && (r.Ok? && r.value.Some? ==>
          var found := r.value.value;
          && NoneIgnored(s.ignore, e, found)
          && (!s.nounique && !s.mark ==> Distinct(found))
          && (!s.nosort && !s.mark && Total(collate) && Transitive(collate) ==> SortedBy(found, collate)))
  }

  /** The constructor after `setopts`: each alternative of the set walked
      in turn, then `_finish`. */
  method Run(s: Settings, fs: FileSystem, rp: string -> RealPath, collate: (string, string) -> bool, e: Engine, fuel: nat)
    returns (r: Result<Option<seq<string>>, string>)
    requires |s.minimatch.matchSet| <= |s.minimatch.globSet|
    ensures Promised(s, collate, e, r)
  {
    if s.noprocess {
      return Ok(None);
    }
    var g := new GlobSync(s, fs, rp, collate, e);
    var i := 0;
    while i < |g.alternatives|
      invariant g.Valid() && |g.matches| == |g.alternatives| == |s.minimatch.matchSet|
      invariant g.walk == WalkOf(s, fs, e) && g.finishing == FinishingOf(s, collate, e)
    {
      var t := g.Process(g.alternatives[i], i, false, fuel);
      if t.Some? {
        return Err(Message(t.value));
      }
      i := i + 1;
    }
    ghost var cache0, statCache0 := g.cache, g.statCache;
    var t := g.Finish();
    if t.Some? {
      return Err(Message(t.value));
    }
    var f := g.finishing;
    FinishNotIgnored(f, g.matches, cache0, statCache0);
    if !f.nounique && !f.mark {
      FinishUnique(f, g.matches, cache0, statCache0);
    }
    if !f.nosort && !f.mark && Total(collate) && Transitive(collate) {
      FinishSorted(f, g.matches, cache0, statCache0);
    }
    r := Ok(Some(g.found));
  }
}
