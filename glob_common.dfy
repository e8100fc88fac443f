// What glob's two drivers share: the option set-up, the ignore patterns,
// the absolute form of a path, the trailing slash `mark` puts on
// directories, and `finish`, which turns the per-pattern match sets into
// the result list.  The state-changing halves (`mark` on the caches,
// `finish` on the object) are methods of `GlobSyncModel.GlobSync`; the
// functions here are what those methods are proved against.
module GlobCommon {
  import opened Wrappers
  import opened JsString
  import opened MinimatchParse
  import opened MinimatchMake
  import opened StableSort
  import opened JsObject

  // ---- The caches ----

  /** A `cache` entry: `false` (no such path), `true` (exists, kind not
      known), 'FILE', 'DIR', or a directory's entries. */
  datatype CacheEntry = Missing | Exists | IsFile | IsDir | Entries(names: seq<string>)

  /** An entry that is not `false`; a key never set reads as `undefined`,
      which is falsy too. */
  predicate Truthy(c: CacheEntry)
  {
    !c.Missing?
  }

  /** `c === 'DIR' || Array.isArray(c)`. */
  predicate IsDirEntry(c: CacheEntry)
  {
    c.IsDir? || c.Entries?
  }

  function Lookup(cache: map<string, CacheEntry>, k: string): (c: CacheEntry)
    ensures k !in cache ==> c == Missing
  {
    if k in cache then cache[k] else Missing
  }

  /** What `fs.stat`/`fs.lstat` report that glob reads. */
  datatype Stats = Stats(isDirectory: bool, isSymbolicLink: bool)

  /** A `statCache` entry: `false` (no such path) or the stats. */
  datatype StatEntry = NoStat | Stat(stats: Stats)

  // ---- Paths ----

  /** `path.join`, `path.resolve` (on a base and a path) and
      `process.cwd()`, which the model does not define. */
  datatype PathOps = PathOps(join: (string, string) -> string, resolve: (string, string) -> string, processCwd: string)

  /** Where relative paths are taken from. */
  datatype Place = Place(root: string, cwd: string, changedCwd: bool, paths: PathOps)

  /** `isAbsolute` on POSIX. */
  predicate IsAbsolute(f: string)
  {
    |f| > 0 && f[0] == '/'
  }

  /** `makeAbs(self, f)` on POSIX: an absolute path is taken below `root`,
      the empty path stays, and a relative one is resolved against the
      working directory (the given `cwd` once it differs from the
      process's). */
  function MakeAbs(pl: Place, f: string): (r: string)
    ensures IsAbsolute(f) ==> r == pl.paths.join(pl.root, f)
    ensures f == "" ==> r == ""
    ensures !IsAbsolute(f) && f != "" ==>
              r == pl.paths.resolve(if pl.changedCwd then pl.cwd else pl.paths.processCwd, f)
  {
    if |f| > 0 && f[0] == '/' then pl.paths.join(pl.root, f)
    else if IsAbsolute(f) || f == "" then f
    else if pl.changedCwd then pl.paths.resolve(pl.cwd, f)
    else pl.paths.resolve(pl.paths.processCwd, f)
  }

  // ---- Ignore patterns ----

  /** `{ dot: true }`, the options of every ignore matcher. */
  const IgnoreOptions := Options(false, false, false, false, false, false, true, false, false, false, false)

  /** A slash and two stars, written `n` times. */
  function Globstars(n: nat): (r: string)
    ensures |r| == 3 * n
  {
    if n == 0 then "" else Globstars(n - 1) + "/**"
  }

  /** `pattern.replace` of the run of slash-star-star groups at the end
      by nothing: every such group at the end goes. */
  function StripGlobstars(p: string): (r: string)
    ensures !EndsWith(r, "/**")
    ensures p == r + Globstars(TrailingGlobstars(p))
    decreases |p|
  {
    if EndsWith(p, "/**") then
      var q := p[..|p| - 3];
      var r := StripGlobstars(q);
      GlobstarsStep(p, q, r, TrailingGlobstars(q));
      r
    else p
  }

  /** How many slash-star-star groups end the text. */
  function TrailingGlobstars(p: string): nat
    decreases |p|
  {
    if EndsWith(p, "/**") then TrailingGlobstars(p[..|p| - 3]) + 1 else 0
  }

  /** One more group at the end: `p` is `q` and a slash-star-star group. */
  lemma GlobstarsStep(p: string, q: string, r: string, n: nat)
    requires EndsWith(p, "/**") && q == p[..|p| - 3] && q == r + Globstars(n)
    ensures p == r + Globstars(n + 1)
  {
    assert p == q + p[|p| - 3..];
  }

  /** `new Minimatch(pattern, options)` as a value: the length check, then
      `make` on the trimmed pattern. */
  function MinimatchOf(pattern: string, o: Options, e: Engine): (r: Result<Built, string>)
    requires Builds(pattern, o, e)
    ensures |pattern| > MaxPatternLength ==> r == Err("pattern is too long")
    ensures r.Ok? ==> MakeSpec(Trim(pattern), o, e) == Made(r.value)
    ensures r.Ok? ==> |r.value.matchSet| <= |r.value.globSet|
  {
    if |pattern| > MaxPatternLength then Err("pattern is too long")
    else match MakeSpec(Trim(pattern), o, e)
      case Made(b) => Ok(b)
      case Throws(msg) => Err(msg)
  }

  /** `new Minimatch(pattern, o)` returns or throws: only a brace sequence
      with step 0 keeps it from returning. */
  predicate Builds(pattern: string, o: Options, e: Engine)
  {
    |pattern| <= MaxPatternLength ==> !MakeSpec(Trim(pattern), o, e).Diverges?
  }

  /** An ignore entry: the matcher of the pattern, and for a pattern ending
      in a slash and `**` one for the directory itself. */
  datatype IgnoreItem = IgnoreItem(matcher: Built, gmatcher: Option<Built>)

  predicate IgnoreBuilds(p: string, e: Engine)
  {
    && Builds(p, IgnoreOptions, e)
    && (EndsWith(p, "/**") ==> Builds(StripGlobstars(p), IgnoreOptions, e))
  }

  /** `ignoreMap(pattern)`; the matcher for the directory is made first. */
  function IgnoreMap(p: string, e: Engine): (r: Result<IgnoreItem, string>)
    requires IgnoreBuilds(p, e)
    ensures r.Ok? ==> MinimatchOf(p, IgnoreOptions, e) == Ok(r.value.matcher)
    ensures r.Ok? ==> (r.value.gmatcher.Some? <==> EndsWith(p, "/**"))
    ensures r.Ok? && r.value.gmatcher.Some? ==>
              MinimatchOf(StripGlobstars(p), IgnoreOptions, e) == Ok(r.value.gmatcher.value)
  {
    var g :=
      if EndsWith(p, "/**") then
        match MinimatchOf(StripGlobstars(p), IgnoreOptions, e)
        case Ok(b) => Ok(Some(b))
        case Err(msg) => Err(msg)
      else Ok(None);
    match g
    case Err(msg) => Err(msg)
    case Ok(gm) =>
      match MinimatchOf(p, IgnoreOptions, e)
      case Ok(m) => Ok(IgnoreItem(m, gm))
      case Err(msg) => Err(msg)
  }

  /** The `ignore` option: absent, one pattern, or a list. */
  datatype IgnoreOption = NoIgnore | OneIgnore(pattern: string) | IgnoreList(patterns: seq<string>)

  /** `options.ignore || []`, wrapped in a list when it is not one (an
      empty string is falsy and counts as absent). */
  function IgnorePatterns(i: IgnoreOption): (r: seq<string>)
    ensures i.IgnoreList? ==> r == i.patterns
    ensures i.OneIgnore? && i.pattern != "" ==> r == [i.pattern]
    ensures i.NoIgnore? ==> r == []
  {
    match i
    case NoIgnore => []
    case OneIgnore(p) => if p == "" then [] else [p]
    case IgnoreList(ps) => ps
  }

  predicate AllIgnoreBuild(ps: seq<string>, e: Engine)
  {
    forall k :: 0 <= k < |ps| ==> IgnoreBuilds(ps[k], e)
  }

  /** `self.ignore.map(ignoreMap)`: the first pattern that throws decides
      the error. */
  function IgnoreMapAll(ps: seq<string>, e: Engine): (r: Result<seq<IgnoreItem>, string>)
    requires AllIgnoreBuild(ps, e)
    ensures r.Ok? ==> |r.value| == |ps| && forall k :: 0 <= k < |ps| ==> IgnoreMap(ps[k], e) == Ok(r.value[k])
    ensures r.Err? ==> exists k :: 0 <= k < |ps| && IgnoreMap(ps[k], e) == Err(r.error)
  {
    if ps == [] then Ok([])
    else
      match IgnoreMap(ps[0], e)
      case Err(msg) => Err(msg)
      case Ok(item) =>
        match IgnoreMapAll(ps[1..], e)
        case Err(msg) => Err(msg)
        case Ok(items) => Ok([item] + items)
  }

  /** One entry ignores `path`: its matcher matches it, or its directory
      matcher does. */
  predicate ItemIgnores(item: IgnoreItem, path: string, e: Engine)
  {
    || MatchSpec(item.matcher, IgnoreOptions, e, path, false)
    || (item.gmatcher.Some? && MatchSpec(item.gmatcher.value, IgnoreOptions, e, path, false))
  }

  /** `isIgnored(self, path)`. */
  predicate IsIgnored(ignore: seq<IgnoreItem>, path: string, e: Engine)
  {
    exists k :: 0 <= k < |ignore| && ItemIgnores(ignore[k], path, e)
  }

  /** `childrenIgnored(self, path)`: some entry ignores everything below
      `path`. */
  predicate ChildrenIgnored(ignore: seq<IgnoreItem>, path: string, e: Engine)
  {
    exists k :: 0 <= k < |ignore| && ignore[k].gmatcher.Some? && MatchSpec(ignore[k].gmatcher.value, IgnoreOptions, e, path, false)
  }

  /** A directory whose contents are ignored is ignored itself. */
  lemma ChildrenIgnoredIgnored(ignore: seq<IgnoreItem>, path: string, e: Engine)
    requires ChildrenIgnored(ignore, path, e)
    ensures IsIgnored(ignore, path, e)
  {
    var k :| 0 <= k < |ignore| && ignore[k].gmatcher.Some? && MatchSpec(ignore[k].gmatcher.value, IgnoreOptions, e, path, false);
    assert ItemIgnores(ignore[k], path, e);
  }

  /** With no ignore patterns nothing is ignored. */
  lemma NothingIgnored(path: string, e: Engine)
    ensures !IsIgnored([], path, e) && !ChildrenIgnored([], path, e)
  {
  }

  /** Text `trim` leaves alone. */
  predicate Untrimmed(s: string)
  {
    s != "" && !IsWhitespace(s[0]) && !IsWhitespace(s[|s| - 1])
  }

  // ---- setopts ----

  /** The options glob reads; `mm` is the part `Minimatch` reads as well.
      `maxLength` 0 and `root` "" stand for options not given. */
  datatype GlobOptions = GlobOptions(
    mm: Options,
    strict: Option<bool>, mark: bool, nodir: bool, nounique: bool, nosort: bool,
    stat: bool, absolute: bool, follow: bool, realpath: bool, silent: bool,
    noprocess: bool, nomount: bool,
    maxLength: nat, ignore: IgnoreOption, cwd: Option<string>, root: string,
    cache: map<string, CacheEntry>, statCache: map<string, StatEntry>, symlinks: map<string, bool>)

  /** The fields `setopts` gives the glob object. */
  datatype Settings = Settings(
    pattern: string, strict: bool, dot: bool, mark: bool, nodir: bool,
    nounique: bool, nonull: bool, nosort: bool, nocase: bool,
    stat: bool, absolute: bool, follow: bool, realpath: bool, silent: bool,
    noprocess: bool, nomount: bool,
    maxLength: Option<nat>, ignore: seq<IgnoreItem>, place: Place, cwdAbs: string,
    cache: map<string, CacheEntry>, statCache: map<string, StatEntry>, symlinks: map<string, bool>,
    options: Options, minimatch: Built)

  /** The pattern after base matching: a pattern without `/` under
      `matchBase` is looked for at any depth. */
  function BasePattern(pattern: string, mm: Options): string
  {
    if mm.matchBase && NoChar(pattern, '/') then "**/" + pattern else pattern
  }

  /** The options handed to `Minimatch`: no comments, no negation. */
  function GlobMinimatchOptions(mm: Options): (r: Options)
    ensures r.nonegate && r.nocomment
  {
    Options(true, true, mm.nobrace, mm.noglobstar, mm.nocase, mm.noext, mm.dot, mm.matchBase,
            mm.flipNegate, mm.partial, mm.nonull)
  }

  /** `setopts` terminates: no brace sequence with step 0 in the pattern or
      an ignore pattern. */
  predicate SetOptsBuilds(pattern: string, go: GlobOptions, e: Engine)
  {
    && AllIgnoreBuild(IgnorePatterns(go.ignore), e)
    && Builds(BasePattern(pattern, go.mm), GlobMinimatchOptions(go.mm), e)
  }

  /** The working directory (the process's unless `cwd` is given, then
      resolved) and the root (`root`, by default the root of the working
      directory, resolved). */
  function PlaceOf(go: GlobOptions, paths: PathOps): (pl: Place)
    ensures go.cwd.None? ==> pl.cwd == paths.processCwd && !pl.changedCwd
    ensures go.cwd.Some? ==> pl.cwd == paths.resolve(paths.processCwd, go.cwd.value) && (pl.changedCwd <==> pl.cwd != paths.processCwd)
    ensures pl.paths == paths
  {
    var cwd := if go.cwd.None? then paths.processCwd else paths.resolve(paths.processCwd, go.cwd.value);
    var root := paths.resolve(paths.processCwd, if go.root == "" then paths.resolve(cwd, "/") else go.root);
    Place(root, cwd, cwd != paths.processCwd, paths)
  }

  /** `options.maxLength || Infinity`, with None for no limit. */
  function MaxLength(n: nat): (r: Option<nat>)
    ensures n == 0 ==> r == None
    ensures n > 0 ==> r == Some(n)
  {
    if n == 0 then None else Some(n)
  }

  /** An absolute working directory as it is, another one made absolute. */
  function CwdAbs(pl: Place): (r: string)
    ensures IsAbsolute(pl.cwd) ==> r == pl.cwd
  {
    if IsAbsolute(pl.cwd) then pl.cwd else MakeAbs(pl, pl.cwd)
  }

  /** The fields `setopts` sets once the ignore list and the `Minimatch`
      object exist. */
  function Configure(pat: string, go: GlobOptions, pl: Place, ignore: seq<IgnoreItem>, mm: Built): (s: Settings)
    ensures s.pattern == pat && s.ignore == ignore && s.minimatch == mm && s.place == pl
    ensures s.mark == (go.mark || go.nodir) && s.nodir == go.nodir
    ensures s.strict == (go.strict != Some(false))
    ensures s.maxLength == MaxLength(go.maxLength)
    ensures s.options == GlobMinimatchOptions(go.mm) && s.dot == go.mm.dot && s.nonull == go.mm.nonull
    ensures s.cwdAbs == CwdAbs(pl)
  {
    Settings(pat, go.strict != Some(false), go.mm.dot, go.mark || go.nodir, go.nodir,
             go.nounique, go.mm.nonull, go.nosort, go.mm.nocase,
             go.stat, go.absolute, go.follow, go.realpath, go.silent, go.noprocess, go.nomount,
             MaxLength(go.maxLength), ignore, pl, CwdAbs(pl),
             go.cache, go.statCache, go.symlinks, GlobMinimatchOptions(go.mm), mm)
  }

  /** The end of `setopts`: `new Minimatch(pattern, options)`. */
  function Construct(pat: string, go: GlobOptions, paths: PathOps, ignore: seq<IgnoreItem>, e: Engine): (r: Result<Settings, string>)
    requires Builds(pat, GlobMinimatchOptions(go.mm), e)
    ensures MinimatchOf(pat, GlobMinimatchOptions(go.mm), e).Err? ==> r == Err(MinimatchOf(pat, GlobMinimatchOptions(go.mm), e).error)
    ensures MinimatchOf(pat, GlobMinimatchOptions(go.mm), e).Ok? ==>
              r == Ok(Configure(pat, go, PlaceOf(go, paths), ignore, MinimatchOf(pat, GlobMinimatchOptions(go.mm), e).value))
    ensures r.Ok? ==> |r.value.minimatch.matchSet| <= |r.value.minimatch.globSet|
  {
    match MinimatchOf(pat, GlobMinimatchOptions(go.mm), e)
    case Err(msg) => Err(msg)
    case Ok(mm) => Ok(Configure(pat, go, PlaceOf(go, paths), ignore, mm))
  }

  /** `setopts(self, pattern, options)`: the base-matching check, the
      ignore list, then the `Minimatch` object for the pattern. */
  function SetOpts(pattern: string, go: GlobOptions, paths: PathOps, e: Engine): (r: Result<Settings, string>)
    requires SetOptsBuilds(pattern, go, e)
    ensures go.mm.matchBase && NoChar(pattern, '/') && go.mm.noglobstar ==> r == Err("base matching requires globstar")
    ensures r.Ok? ==> r.value.pattern == BasePattern(pattern, go.mm)
    ensures r.Ok? ==> r.value.mark == (go.mark || go.nodir) && r.value.nodir == go.nodir
    ensures r.Ok? ==> r.value.options.nonegate && r.value.options.nocomment
    ensures r.Ok? ==> IgnoreMapAll(IgnorePatterns(go.ignore), e) == Ok(r.value.ignore)
    ensures r.Ok? ==> |r.value.minimatch.matchSet| <= |r.value.minimatch.globSet|
  {
    if go.mm.matchBase && NoChar(pattern, '/') && go.mm.noglobstar then Err("base matching requires globstar")
    else
      match IgnoreMapAll(IgnorePatterns(go.ignore), e)
      case Err(msg) => Err(msg)
      case Ok(ignore) => Construct(BasePattern(pattern, go.mm), go, paths, ignore, e)
  }

  /** Glob's patterns are never comments and never negated: `setopts`
      turns both off. */
  lemma GlobPatternPlain(pattern: string, o: Options, e: Engine)
    requires o.nonegate && o.nocomment && Builds(pattern, o, e)
    ensures MinimatchOf(pattern, o, e).Ok? ==>
              !MinimatchOf(pattern, o, e).value.comment && !MinimatchOf(pattern, o, e).value.negate
  {
    var p := Trim(pattern);
    if |pattern| <= MaxPatternLength && p != "" {
      assert MakeSpec(p, o, e) == MakeBody(false, p, o, e);
    }
  }

  // ---- mark ----

  /** The name `mark` gives `p` when its cache entry is `c`: a known
      directory gets a trailing slash, a known non-directory loses one. */
  function MarkName(p: string, c: CacheEntry): (m: string)
    ensures !Truthy(c) ==> m == p
    ensures Truthy(c) && IsDirEntry(c) ==> EndsWith(m, "/") && (m == p || m == p + "/")
    ensures Truthy(c) && !IsDirEntry(c) ==> (EndsWith(p, "/") ==> m + "/" == p) && (!EndsWith(p, "/") ==> m == p)
  {
    if !Truthy(c) then p
    else
      var slash := |p| > 0 && p[|p| - 1] == '/';
      if IsDirEntry(c) && !slash then p + "/"
      else if !IsDirEntry(c) && slash then p[..|p| - 1]
      else p
  }

  /** `statCache[to] = statCache[from]`; copying a key never set leaves
      `to` unset, as `undefined` reads the same as a missing key. */
  function CopyStat(statCache: map<string, StatEntry>, from: string, to: string): (r: map<string, StatEntry>)
    ensures from in statCache ==> to in r && r[to] == statCache[from]
    ensures from !in statCache ==> to !in r
    ensures forall k :: k != to ==> (k in r <==> k in statCache) && (k in r ==> r[k] == statCache[k])
  {
    if from in statCache then statCache[to := statCache[from]] else statCache - {to}
  }

  /** What `mark(self, p)` returns: the marked name and both caches after
      the entries of `p` were copied to it. */
  datatype Marked = Marked(name: string, cache: map<string, CacheEntry>, statCache: map<string, StatEntry>)

  function MarkSpec(pl: Place, p: string, cache: map<string, CacheEntry>, statCache: map<string, StatEntry>): (r: Marked)
  {
    var abs := MakeAbs(pl, p);
    var m := MarkName(p, Lookup(cache, abs));
    if m == p then Marked(p, cache, statCache)
    else
      var mabs := MakeAbs(pl, m);
      Marked(m, cache[mabs := cache[abs]], CopyStat(statCache, abs, mabs))
  }

  /** After `mark`, the caches say of the marked name what they said of the
      name given, and nothing else changes. */
  lemma MarkKeepsEntry(pl: Place, p: string, cache: map<string, CacheEntry>, statCache: map<string, StatEntry>)
    ensures var r := MarkSpec(pl, p, cache, statCache);
            && Lookup(r.cache, MakeAbs(pl, r.name)) == Lookup(cache, MakeAbs(pl, p))
            && (MakeAbs(pl, p) in statCache ==> r.statCache[MakeAbs(pl, r.name)] == statCache[MakeAbs(pl, p)])
            && (forall k :: k != MakeAbs(pl, r.name) ==> Lookup(r.cache, k) == Lookup(cache, k))
  {
    var abs := MakeAbs(pl, p);
    var m := MarkName(p, Lookup(cache, abs));
    if m != p {
      var mabs := MakeAbs(pl, m);
      assert abs in cache;
      assert MarkSpec(pl, p, cache, statCache) == Marked(m, cache[mabs := cache[abs]], CopyStat(statCache, abs, mabs));
    }
  }

  /** Marking a directory twice adds one slash only. */
  lemma MarkDirectoryOnce(p: string, c: CacheEntry)
    requires IsDirEntry(c)
    ensures MarkName(MarkName(p, c), c) == MarkName(p, c)
  {
  }

  // ---- finish ----

  /** A match set: the insertion order of the keys of `self.matches[i]`;
      None for a slot never filled. */
  type MatchSet = Option<seq<string>>

  predicate EmptySet(m: MatchSet)
  {
    m.None? || m.value == []
  }

  /** What pattern `i` adds to the list: the keys of its match set, or
      under `nonull` its literal alternative when it has none. */
  function Contribution(m: MatchSet, literal: string, nonull: bool): (r: seq<string>)
    ensures forall x :: x in r <==> InContribution(m, literal, nonull, x)
  {
    if EmptySet(m) then (if nonull then [literal] else [])
    else
      assert forall x :: x in Keys(m.value) <==> x in m.value by {
        forall x ensures x in Keys(m.value) <==> x in m.value {
          KeysMembers(m.value, x);
        }
      }
      Keys(m.value)
  }

  /** What each pattern adds to the list, pattern by pattern. */
  function Contributions(matches: seq<MatchSet>, globSet: seq<string>, nonull: bool): (r: seq<seq<string>>)
    requires |matches| <= |globSet|
    ensures |r| == |matches|
    ensures forall i :: 0 <= i < |r| ==> r[i] == Contribution(matches[i], globSet[i], nonull)
  {
    seq(|matches|, i requires 0 <= i < |matches| => Contribution(matches[i], globSet[i], nonull))
  }

  /** The parts one after the other. */
  function Flatten(parts: seq<seq<string>>): (r: seq<string>)
  {
    if parts == [] then [] else Flatten(parts[..|parts| - 1]) + parts[|parts| - 1]
  }

  /** Everything the loop over `self.matches` adds, in order. */
  function Gathered(matches: seq<MatchSet>, globSet: seq<string>, nonull: bool): seq<string>
    requires |matches| <= |globSet|
  {
    Flatten(Contributions(matches, globSet, nonull))
  }

  /** The insertion order of the keys set by `all[k] = true`, one at a
      time. */
  function Dedup(xs: seq<string>): (r: seq<string>)
    decreases |xs|
  {
    if xs == [] then [] else SetKey(Dedup(xs[..|xs| - 1]), xs[|xs| - 1])
  }

  /** The keys set are the names, each once. */
  lemma {:induction false} DedupIs(xs: seq<string>)
    ensures Distinct(Dedup(xs))
    ensures forall x :: x in Dedup(xs) <==> x in xs
    decreases |xs|
  {
    if xs != [] {
      var n := |xs| - 1;
      DedupIs(xs[..n]);
      assert xs == xs[..n] + [xs[n]];
    }
  }

  /** `all` after the loop and `Object.keys(all)`. */
  function Collected(matches: seq<MatchSet>, globSet: seq<string>, nonull: bool, nounique: bool): seq<string>
    requires |matches| <= |globSet|
  {
    var xs := Gathered(matches, globSet, nonull);
    if nounique then xs else Keys(Dedup(xs))
  }

  /** `all.sort(alphasort)` unless `nosort`; `collate(a, b)` stands for
      `a.localeCompare(b, 'en') <= 0`. */
  function Sorted(xs: seq<string>, nosort: bool, collate: (string, string) -> bool): (r: seq<string>)
  {
    if nosort then xs else Sort(xs, collate)
  }

  /** `all[i] = self._mark(all[i])` for every `i` in turn. */
  function MarkAll(pl: Place, xs: seq<string>, cache: map<string, CacheEntry>, statCache: map<string, StatEntry>): (r: (seq<string>, map<string, CacheEntry>, map<string, StatEntry>))
    ensures |r.0| == |xs|
    ensures forall k :: 0 <= k < |xs| ==> r.0[k] == xs[k] || r.0[k] == xs[k] + "/" || r.0[k] + "/" == xs[k]
    decreases |xs|
  {
    if xs == [] then ([], cache, statCache)
    else
      var n := |xs| - 1;
      var (ms, c1, s1) := MarkAll(pl, xs[..n], cache, statCache);
      var m := MarkSpec(pl, xs[n], c1, s1);
      (ms + [m.name], m.cache, m.statCache)
  }

  /** One more name marked, after the first `j`. */
  lemma MarkAllStep(pl: Place, xs: seq<string>, j: nat, c0: map<string, CacheEntry>, s0: map<string, StatEntry>,
                    done: seq<string>, c1: map<string, CacheEntry>, s1: map<string, StatEntry>, m: Marked)
    requires j < |xs| && (done, c1, s1) == MarkAll(pl, xs[..j], c0, s0)
    requires m == MarkSpec(pl, xs[j], c1, s1)
    ensures MarkAll(pl, xs[..j + 1], c0, s0) == (done + [m.name], m.cache, m.statCache)
  {
    assert xs[..j + 1][..j] == xs[..j];
  }

  /** The `nodir` test: no trailing slash and no directory entry in the
      cache under the name or its absolute form. */
  predicate NotDir(pl: Place, cache: map<string, CacheEntry>, e: string)
  {
    var c := if Truthy(Lookup(cache, e)) then Lookup(cache, e) else Lookup(cache, MakeAbs(pl, e));
    !EndsWith(e, "/") && !(Truthy(c) && IsDirEntry(c))
  }

  function FilterNotDir(pl: Place, cache: map<string, CacheEntry>, xs: seq<string>): (r: seq<string>)
    ensures forall x :: x in r <==> x in xs && NotDir(pl, cache, x)
  {
    if xs == [] then []
    else (if NotDir(pl, cache, xs[0]) then [xs[0]] else []) + FilterNotDir(pl, cache, xs[1..])
  }

  function FilterIgnored(ignore: seq<IgnoreItem>, e: Engine, xs: seq<string>): (r: seq<string>)
    ensures forall x :: x in r <==> x in xs && !IsIgnored(ignore, x, e)
  {
    if xs == [] then []
    else (if IsIgnored(ignore, xs[0], e) then [] else [xs[0]]) + FilterIgnored(ignore, e, xs[1..])
  }

  /** The fields of the glob object `finish` reads. */
  datatype Finishing = Finishing(
    nounique: bool, nonull: bool, nosort: bool, mark: bool, nodir: bool,
    ignore: seq<IgnoreItem>, globSet: seq<string>, place: Place,
    collate: (string, string) -> bool, engine: Engine)

  /** What `finish(self)` leaves: `found` and both caches. */
  datatype Finished = Finished(found: seq<string>, cache: map<string, CacheEntry>, statCache: map<string, StatEntry>)

  /** `all` once gathered and sorted. */
  function FinishList(f: Finishing, matches: seq<MatchSet>): seq<string>
    requires |matches| <= |f.globSet|
  {
    Sorted(Collected(matches, f.globSet, f.nonull, f.nounique), f.nosort, f.collate)
  }

  function FinishSpec(f: Finishing, matches: seq<MatchSet>, cache: map<string, CacheEntry>, statCache: map<string, StatEntry>): (r: Finished)
    requires |matches| <= |f.globSet|
  {
    var all := FinishList(f, matches);
    var (marked, c, s) := if f.mark then MarkAll(f.place, all, cache, statCache) else (all, cache, statCache);
    var kept := if f.mark && f.nodir then FilterNotDir(f.place, c, marked) else marked;
    Finished(if f.ignore != [] then FilterIgnored(f.ignore, f.engine, kept) else kept, c, s)
  }

  // ---- What finish promises ----

  /** One more part goes at the end. */
  lemma FlattenSnoc(parts: seq<seq<string>>, p: seq<string>)
    ensures Flatten(parts + [p]) == Flatten(parts) + p
  {
    assert (parts + [p])[..|parts|] == parts;
  }

  /** The parts of the first `i + 1` match sets. */
  lemma ContributionsSnoc(matches: seq<MatchSet>, globSet: seq<string>, nonull: bool, i: nat)
    requires i < |matches| <= |globSet|
    ensures Contributions(matches[..i + 1], globSet, nonull)
            == Contributions(matches[..i], globSet, nonull) + [Contribution(matches[i], globSet[i], nonull)]
  {
  }

  /** The first `i + 1` match sets gather what the first `i` do, then the
      contribution of set `i`. */
  lemma GatheredSnoc(matches: seq<MatchSet>, globSet: seq<string>, nonull: bool, i: nat)
    requires i < |matches| <= |globSet|
    ensures Gathered(matches[..i + 1], globSet, nonull)
            == Gathered(matches[..i], globSet, nonull) + Contribution(matches[i], globSet[i], nonull)
  {
    ContributionsSnoc(matches, globSet, nonull, i);
    FlattenSnoc(Contributions(matches[..i], globSet, nonull), Contribution(matches[i], globSet[i], nonull));
  }

  /** One more `all[k] = true`. */
  lemma DedupSnoc(xs: seq<string>, y: string)
    ensures Dedup(xs + [y]) == SetKey(Dedup(xs), y)
  {
    assert (xs + [y])[..|xs|] == xs;
  }

  /** A name is in the parts one after the other exactly when one part
      holds it. */
  lemma {:induction false} FlattenIs(parts: seq<seq<string>>, x: string)
    ensures x in Flatten(parts) <==> exists i :: 0 <= i < |parts| && x in parts[i]
  {
    if parts != [] {
      var front := parts[..|parts| - 1];
      FlattenIs(front, x);
      if exists i :: 0 <= i < |parts| && x in parts[i] {
        var i :| 0 <= i < |parts| && x in parts[i];
        if i < |front| {
          assert front[i] == parts[i];
        }
      }
      assert forall i :: 0 <= i < |front| ==> front[i] == parts[i];
    }
  }

  /** A name is gathered exactly when some match set holds it, or an empty
      set's literal alternative stands in for it under `nonull`. */
  lemma GatheredIs(matches: seq<MatchSet>, globSet: seq<string>, nonull: bool, x: string)
    requires |matches| <= |globSet|
    ensures x in Gathered(matches, globSet, nonull)
            <==> exists i :: 0 <= i < |matches| && InContribution(matches[i], globSet[i], nonull, x)
  {
    var parts := Contributions(matches, globSet, nonull);
    FlattenIs(parts, x);
    assert forall i :: 0 <= i < |parts| ==> (x in parts[i] <==> InContribution(matches[i], globSet[i], nonull, x));
  }

  /** `x` is in what the `i`-th match set adds. */
  predicate InContribution(m: MatchSet, literal: string, nonull: bool, x: string)
  {
    if EmptySet(m) then nonull && x == literal else x in m.value
  }

  /** The list before sorting holds exactly the matched names and the
      literals of empty sets under `nonull`, and without `nounique` each of
      them once. */
  lemma CollectedIs(matches: seq<MatchSet>, globSet: seq<string>, nonull: bool, nounique: bool, x: string)
    requires |matches| <= |globSet|
    ensures x in Collected(matches, globSet, nonull, nounique)
            <==> exists i :: 0 <= i < |matches| && InContribution(matches[i], globSet[i], nonull, x)
    ensures !nounique ==> Distinct(Collected(matches, globSet, nonull, nounique))
  {
    GatheredIs(matches, globSet, nonull, x);
    var xs := Gathered(matches, globSet, nonull);
    if !nounique {
      DedupIs(xs);
      KeysPermutes(Dedup(xs));
      KeysDistinct(Dedup(xs));
      assert x in Keys(Dedup(xs)) <==> x in multiset(Keys(Dedup(xs)));
    }
  }

  /** Sorting keeps the names and keeps them unrepeated. */
  lemma SortedKeeps(xs: seq<string>, nosort: bool, collate: (string, string) -> bool, x: string)
    ensures x in Sorted(xs, nosort, collate) <==> x in xs
    ensures Distinct(xs) ==> Distinct(Sorted(xs, nosort, collate))
  {
    SortPermutes(xs, collate);
    var r := Sorted(xs, nosort, collate);
    assert x in r <==> x in multiset(r);
    if Distinct(xs) {
      MultisetDistinct(xs, r);
    }
  }

  lemma {:induction false} FilterIgnoredDistinct(ignore: seq<IgnoreItem>, e: Engine, xs: seq<string>)
    requires Distinct(xs)
    ensures Distinct(FilterIgnored(ignore, e, xs))
  {
    if xs != [] {
      var tail := xs[1..];
      assert Distinct(tail) by {
        forall i, j | 0 <= i < j < |tail| ensures tail[i] != tail[j] {
          assert tail[i] == xs[i + 1] && tail[j] == xs[j + 1];
        }
      }
      FilterIgnoredDistinct(ignore, e, tail);
      var rest := FilterIgnored(ignore, e, tail);
      assert xs[0] !in tail;
      assert xs[0] !in rest;
      var r := FilterIgnored(ignore, e, xs);
      forall i, j | 0 <= i < j < |r| ensures r[i] != r[j] {
        if !IsIgnored(ignore, xs[0], e) {
          assert r[j] == rest[j - 1];
          if i > 0 {
            assert r[i] == rest[i - 1];
          } else {
            assert r[j] in rest;
          }
        }
      }
    }
  }

  lemma {:induction false} FilterIgnoredSorted(ignore: seq<IgnoreItem>, e: Engine, xs: seq<string>, le: (string, string) -> bool)
    requires SortedBy(xs, le)
    ensures SortedBy(FilterIgnored(ignore, e, xs), le)
  {
    if xs != [] {
      var tail := xs[1..];
      assert SortedBy(tail, le) by {
        forall i, j | 0 <= i < j < |tail| ensures le(tail[i], tail[j]) {
          assert tail[i] == xs[i + 1] && tail[j] == xs[j + 1];
        }
      }
      FilterIgnoredSorted(ignore, e, tail, le);
      var rest := FilterIgnored(ignore, e, tail);
      if !IsIgnored(ignore, xs[0], e) {
        forall k | 0 <= k < |rest| ensures le(xs[0], rest[k]) {
          assert rest[k] in tail;
          var m :| 0 <= m < |tail| && tail[m] == rest[k];
          assert tail[m] == xs[m + 1];
        }
        ConsSorted(xs[0], rest, le);
      }
    }
  }

  /** Without `mark`, `found` holds exactly the matched names, and under
      `nonull` the literal patterns with no match, that no ignore pattern
      matches; the caches stay as they were. */
  lemma FinishFound(f: Finishing, matches: seq<MatchSet>, cache: map<string, CacheEntry>, statCache: map<string, StatEntry>, x: string)
    requires |matches| <= |f.globSet| && !f.mark
    ensures var r := FinishSpec(f, matches, cache, statCache);
            && (x in r.found
                <==> (exists i :: 0 <= i < |matches| && InContribution(matches[i], f.globSet[i], f.nonull, x))
                     && !IsIgnored(f.ignore, x, f.engine))
            && r.cache == cache && r.statCache == statCache
  {
    var xs := Collected(matches, f.globSet, f.nonull, f.nounique);
    CollectedIs(matches, f.globSet, f.nonull, f.nounique, x);
    SortedKeeps(xs, f.nosort, f.collate, x);
    if f.ignore == [] {
      NothingIgnored(x, f.engine);
    }
  }

  /** An empty match set stands for its literal pattern under `nonull`. */
  lemma FinishNonull(f: Finishing, matches: seq<MatchSet>, cache: map<string, CacheEntry>, statCache: map<string, StatEntry>, i: nat)
    requires |matches| <= |f.globSet| && !f.mark
    requires i < |matches| && EmptySet(matches[i]) && f.nonull && !IsIgnored(f.ignore, f.globSet[i], f.engine)
    ensures f.globSet[i] in FinishSpec(f, matches, cache, statCache).found
  {
    FinishFound(f, matches, cache, statCache, f.globSet[i]);
    assert InContribution(matches[i], f.globSet[i], f.nonull, f.globSet[i]);
  }

  /** Without `nounique` and `mark`, no name is found twice. */
  lemma FinishUnique(f: Finishing, matches: seq<MatchSet>, cache: map<string, CacheEntry>, statCache: map<string, StatEntry>)
    requires |matches| <= |f.globSet| && !f.mark && !f.nounique
    ensures Distinct(FinishSpec(f, matches, cache, statCache).found)
  {
    var xs := Collected(matches, f.globSet, f.nonull, f.nounique);
    CollectedIs(matches, f.globSet, f.nonull, f.nounique, "");
    SortedKeeps(xs, f.nosort, f.collate, "");
    FilterIgnoredDistinct(f.ignore, f.engine, Sorted(xs, f.nosort, f.collate));
  }

  /** Without `nosort` and `mark`, `found` is in the collation order. */
  lemma FinishSorted(f: Finishing, matches: seq<MatchSet>, cache: map<string, CacheEntry>, statCache: map<string, StatEntry>)
    requires |matches| <= |f.globSet| && !f.mark && !f.nosort
    requires Total(f.collate) && Transitive(f.collate)
    ensures SortedBy(FinishSpec(f, matches, cache, statCache).found, f.collate)
  {
    var xs := Collected(matches, f.globSet, f.nonull, f.nounique);
    SortSorted(xs, f.collate);
    FilterIgnoredSorted(f.ignore, f.engine, Sorted(xs, f.nosort, f.collate), f.collate);
  }

  /** With `mark` and `nodir`, nothing found ends in a slash or is a
      directory in the cache `finish` leaves. */
  lemma FinishNoDir(f: Finishing, matches: seq<MatchSet>, cache: map<string, CacheEntry>, statCache: map<string, StatEntry>)
    requires |matches| <= |f.globSet| && f.mark && f.nodir
    ensures var r := FinishSpec(f, matches, cache, statCache);
            forall k :: 0 <= k < |r.found| ==> NotDir(f.place, r.cache, r.found[k]) && !EndsWith(r.found[k], "/")
  {
    var r := FinishSpec(f, matches, cache, statCache);
    forall k | 0 <= k < |r.found| ensures NotDir(f.place, r.cache, r.found[k]) {
      assert r.found[k] in r.found;
    }
  }

  /** Nothing found matches an ignore pattern. */
  lemma FinishNotIgnored(f: Finishing, matches: seq<MatchSet>, cache: map<string, CacheEntry>, statCache: map<string, StatEntry>)
    requires |matches| <= |f.globSet|
    ensures var r := FinishSpec(f, matches, cache, statCache);
            forall k :: 0 <= k < |r.found| ==> !IsIgnored(f.ignore, r.found[k], f.engine)
  {
    var r := FinishSpec(f, matches, cache, statCache);
    forall k | 0 <= k < |r.found| ensures !IsIgnored(f.ignore, r.found[k], f.engine) {
      assert r.found[k] in r.found;
      if f.ignore == [] {
        NothingIgnored(r.found[k], f.engine);
      }
    }
  }

  /** With `mark` and no filter, each sorted name is found in its place,
      with a slash added or taken off as the cache says. */
  lemma FinishMarked(f: Finishing, matches: seq<MatchSet>, cache: map<string, CacheEntry>, statCache: map<string, StatEntry>)
    requires |matches| <= |f.globSet| && f.mark && !f.nodir && f.ignore == []
    ensures var r := FinishSpec(f, matches, cache, statCache);
            var all := FinishList(f, matches);
            && |r.found| == |all|
            && forall k :: 0 <= k < |all| ==> r.found[k] == all[k] || r.found[k] == all[k] + "/" || r.found[k] + "/" == all[k]
  {
  }
}
