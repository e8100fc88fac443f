// What the steps of the synchronous glob walk do to its caches, as
// functions: `_stat`, `_readdir` (with its globstar and error halves),
// the entries `_processReaddir` keeps, the name `_emitMatch` records, and
// the `realpath` pass of `_finish`.  The file system is a parameter: three
// functions of the path that do not change while glob runs.
module GlobSyncSpec {
  import opened Wrappers
  import opened JsString
  import opened MinimatchParse
  import opened MinimatchMatch
  import opened GlobCommon
  import opened JsObject

  // ---- The file system ----

  /** The error codes glob tells apart; any other code is `OtherError`. */
  datatype FsError = ENOENT | ENOTDIR | ENOTSUP | ELOOP | ENAMETOOLONG | UNKNOWN | OtherError(code: string)

  function CodeName(er: FsError): string
  {
    match er
    case ENOENT => "ENOENT"
    case ENOTDIR => "ENOTDIR"
    case ENOTSUP => "ENOTSUP"
    case ELOOP => "ELOOP"
    case ENAMETOOLONG => "ENAMETOOLONG"
    case UNKNOWN => "UNKNOWN"
    case OtherError(code) => code
  }

  /** A call that returns or throws an error with a code. */
  datatype FsResult<T> = Done(value: T) | Failed(error: FsError)

  /** `fs.lstatSync`, `fs.statSync` and `fs.readdirSync`. */
  datatype FileSystem = FileSystem(
    lstat: string -> FsResult<Stats>,
    stat: string -> FsResult<Stats>,
    readdir: string -> FsResult<seq<string>>)

  /** What `fs.realpathSync` does with a path: the real path, an error
      raised by its `stat` (which glob forgives), or another error. */
  datatype RealPath = Real(path: string) | StatFailed | RealFailed(message: string)

  /** What the walk throws: the working directory is not a directory, an
      unusual read error under `strict`, a `realpath` error, or the
      TypeError of reading `_glob.charAt` on the `/$./` portion, which has
      no `_glob`. */
  datatype Thrown = InvalidCwd(code: string, cwd: string) | FsFailure(error: FsError) | RealpathFailure(message: string) | NoGlobText

  function Message(t: Thrown): string
  {
    match t
    case InvalidCwd(code, cwd) => code + " invalid cwd " + cwd
    case FsFailure(er) => CodeName(er)
    case RealpathFailure(m) => m
    case NoGlobText => "Cannot read properties of undefined (reading 'charAt')"
  }

  /** The fields of the glob object the walk reads. */
  datatype Walk = Walk(
    place: Place, fs: FileSystem,
    mark: bool, stat: bool, follow: bool, strict: bool, dot: bool,
    nomount: bool, nodir: bool, absolute: bool,
    maxLength: Option<nat>, cwd: string, cwdAbs: string,
    ignore: seq<IgnoreItem>, negate: bool, engine: Engine)

  // ---- _stat ----

  /** What `_stat(f)` returns and leaves in the caches. */
  datatype StatOut = StatOut(result: CacheEntry, cache: map<string, CacheEntry>, statCache: map<string, StatEntry>)

  /** The answer a cache entry gives without a new stat (a directory's
      entries read as 'DIR'), or None when it does not settle whether a
      directory is there. */
  function CachedAnswer(c: CacheEntry, needDir: bool): Option<CacheEntry>
  {
    var d := if c.Entries? then IsDir else c;
    if !needDir || d == IsDir then Some(d)
    else if d == IsFile then Some(Missing)
    else None
  }

  /** The outcome of the look at the path: it is not there, or it is, with
      the stats (None when `lstat` failed some other way). */
  datatype Probe = Gone | Probed(stats: Option<Stats>)

  /** A cached stat, or `lstat`, followed by `stat` for a symbolic link
      (falling back to the link's own stats). */
  function ProbeOf(fs: FileSystem, abs: string, statCache: map<string, StatEntry>): Probe
  {
    if abs in statCache && statCache[abs].Stat? then Probed(Some(statCache[abs].stats))
    else match fs.lstat(abs)
      case Failed(er) => if er == ENOENT || er == ENOTDIR then Gone else Probed(None)
      case Done(l) =>
        if l.isSymbolicLink then
          match fs.stat(abs)
          case Done(st) => Probed(Some(st))
          case Failed(_) => Probed(Some(l))
        else Probed(Some(l))
  }

  /** 'DIR' or 'FILE' from the stats, `true` without them. */
  function KindOf(st: Option<Stats>): CacheEntry
  {
    if st.None? then Exists else if st.value.isDirectory then IsDir else IsFile
  }

  /** `cache[abs] = cache[abs] || c`. */
  function KeepKnown(cache: map<string, CacheEntry>, abs: string, c: CacheEntry): map<string, CacheEntry>
  {
    cache[abs := if Truthy(Lookup(cache, abs)) then cache[abs] else c]
  }

  /** A directory was asked for (`f` ends in a slash) and a file found. */
  function Answer(needDir: bool, c: CacheEntry): CacheEntry
  {
    if needDir && c == IsFile then Missing else c
  }

  function StatSpec(w: Walk, f: string, cache: map<string, CacheEntry>, statCache: map<string, StatEntry>): StatOut
  {
    var abs := MakeAbs(w.place, f);
    var needDir := EndsWith(f, "/");
    if w.maxLength.Some? && |f| > w.maxLength.value then StatOut(Missing, cache, statCache)
    else if !w.stat && abs in cache && CachedAnswer(cache[abs], needDir).Some? then
      StatOut(CachedAnswer(cache[abs], needDir).value, cache, statCache)
    else match ProbeOf(w.fs, abs, statCache)
      case Gone => StatOut(Missing, cache, statCache[abs := NoStat])
      case Probed(st) =>
        StatOut(Answer(needDir, KindOf(st)), KeepKnown(cache, abs, KindOf(st)),
                statCache[abs := if st.Some? then Stat(st.value) else NoStat])
  }

  /** `_stat` answers `false`, `true`, 'FILE' or 'DIR', never 'FILE' for a
      path with a trailing slash, and `false` for a path over `maxLength`,
      which it does not look at. */
  lemma StatAnswers(w: Walk, f: string, cache: map<string, CacheEntry>, statCache: map<string, StatEntry>)
    ensures var r := StatSpec(w, f, cache, statCache);
            && !r.result.Entries?
            && (EndsWith(f, "/") ==> r.result != IsFile)
            && (w.maxLength.Some? && |f| > w.maxLength.value ==> r == StatOut(Missing, cache, statCache))
  {
  }

  /** `_stat` changes the caches at the absolute path only, never replaces
      a truthy `cache` entry, and leaves a truthy entry behind when it says
      the path exists. */
  lemma StatFrame(w: Walk, f: string, cache: map<string, CacheEntry>, statCache: map<string, StatEntry>, k: string)
    ensures var r := StatSpec(w, f, cache, statCache);
            var abs := MakeAbs(w.place, f);
            && (k != abs ==> Lookup(r.cache, k) == Lookup(cache, k) && (k in r.cache <==> k in cache))
            && (k != abs ==> (k in r.statCache <==> k in statCache) && (k in statCache ==> r.statCache[k] == statCache[k]))
            && (Truthy(Lookup(cache, abs)) ==> Lookup(r.cache, abs) == Lookup(cache, abs))
            && (Truthy(r.result) ==> Truthy(Lookup(r.cache, abs)))
  {
  }

  // ---- _readdir ----

  /** What `_readdir(abs, inGlobStar)` returns or throws, and the caches it
      leaves. */
  datatype ReadOut = ReadOut(entries: Option<seq<string>>, thrown: Option<Thrown>, cache: map<string, CacheEntry>, symlinks: map<string, bool>)

  /** The path of entry `e` of directory `abs`. */
  function ChildPath(abs: string, e: string): (r: string)
    ensures EndsWith(r, e) && |abs| <= |r| && r[..|abs|] == abs
  {
    if abs == "/" then abs + e else abs + "/" + e
  }

  /** `cache[child] = true` for every entry, in order. */
  function CacheChildren(cache: map<string, CacheEntry>, abs: string, es: seq<string>): map<string, CacheEntry>
    decreases |es|
  {
    if es == [] then cache
    else CacheChildren(cache, abs, es[..|es| - 1])[ChildPath(abs, es[|es| - 1]) := Exists]
  }

  /** `_readdirEntries`: the entries are known to exist unless `mark` or
      `stat` asks for a stat of each, and the directory's entry becomes the
      list. */
  function EntriesCache(w: Walk, abs: string, es: seq<string>, cache: map<string, CacheEntry>): map<string, CacheEntry>
  {
    (if !w.mark && !w.stat then CacheChildren(cache, abs, es) else cache)[abs := Entries(es)]
  }

  /** The codes `_readdirError` takes to mean "not a directory". */
  predicate NotADirectory(er: FsError)
  {
    er == ENOTSUP || er == ENOTDIR
  }

  /** The codes `_readdirError` takes to mean "not there". */
  predicate NotThere(er: FsError)
  {
    er == ENOENT || er == ELOOP || er == ENAMETOOLONG || er == UNKNOWN
  }

  /** `_readdirError(f, er)`: the cache entry it sets and what it throws. */
  function ReaddirErrorSpec(w: Walk, f: string, er: FsError, cache: map<string, CacheEntry>): (map<string, CacheEntry>, Option<Thrown>)
  {
    var abs := MakeAbs(w.place, f);
    if NotADirectory(er) then
      (cache[abs := IsFile], if abs == w.cwdAbs then Some(InvalidCwd(CodeName(er), w.cwd)) else None)
    else if NotThere(er) then (cache[abs := Missing], None)
    else (cache[abs := Missing], if w.strict then Some(FsFailure(er)) else None)
  }

  /** `_readdir(abs, false)`: the cache first, then `readdirSync`. */
  function ReaddirPlain(w: Walk, abs: string, cache: map<string, CacheEntry>, symlinks: map<string, bool>): ReadOut
  {
    if abs in cache && (!Truthy(cache[abs]) || cache[abs] == IsFile) then ReadOut(None, None, cache, symlinks)
    else if abs in cache && cache[abs].Entries? then ReadOut(Some(cache[abs].names), None, cache, symlinks)
    else match w.fs.readdir(abs)
      case Done(es) => ReadOut(Some(es), None, EntriesCache(w, abs, es, cache), symlinks)
      case Failed(er) =>
        var (c, t) := ReaddirErrorSpec(w, abs, er, cache);
        ReadOut(None, t, c, symlinks)
  }

  /** `_readdirInGlobStar(abs)`: unless `follow`, `lstat` first, to record
      whether the path is a symbolic link and to skip reading a file. */
  function InGlobStarSpec(w: Walk, abs: string, cache: map<string, CacheEntry>, symlinks: map<string, bool>): ReadOut
  {
    if w.follow then ReaddirPlain(w, abs, cache, symlinks)
    else match w.fs.lstat(abs)
      case Failed(er) =>
        if er == ENOENT then ReadOut(None, None, cache, symlinks)
        else ReaddirPlain(w, abs, cache, symlinks[abs := false])
      case Done(l) =>
        if !l.isSymbolicLink && !l.isDirectory then ReadOut(None, None, cache[abs := IsFile], symlinks[abs := l.isSymbolicLink])
        else ReaddirPlain(w, abs, cache, symlinks[abs := l.isSymbolicLink])
  }

  function ReaddirSpec(w: Walk, abs: string, inGlobStar: bool, cache: map<string, CacheEntry>, symlinks: map<string, bool>): ReadOut
  {
    if inGlobStar && abs !in symlinks then InGlobStarSpec(w, abs, cache, symlinks)
    else ReaddirPlain(w, abs, cache, symlinks)
  }

  /** Each entry is cached as existing. */
  lemma {:induction false} CacheChildrenSets(cache: map<string, CacheEntry>, abs: string, es: seq<string>, i: nat)
    requires i < |es|
    ensures var k := ChildPath(abs, es[i]);
            k in CacheChildren(cache, abs, es) && CacheChildren(cache, abs, es)[k] == Exists
    decreases |es|
  {
    var n := |es| - 1;
    if i < n {
      var front := es[..n];
      assert front[i] == es[i];
      CacheChildrenSets(cache, abs, front, i);
    }
  }

  /** Keys that are no entry's path keep their entries. */
  lemma {:induction false} CacheChildrenKeeps(cache: map<string, CacheEntry>, abs: string, es: seq<string>, k: string)
    requires forall i :: 0 <= i < |es| ==> ChildPath(abs, es[i]) != k
    ensures Lookup(CacheChildren(cache, abs, es), k) == Lookup(cache, k)
    ensures k in CacheChildren(cache, abs, es) <==> k in cache
    decreases |es|
  {
    if es != [] {
      var front := es[..|es| - 1];
      assert forall i :: 0 <= i < |front| ==> front[i] == es[i];
      CacheChildrenKeeps(cache, abs, front, k);
    }
  }

  /** The entries `_readdir` returns are the ones the cache then holds for
      the directory. */
  lemma ReaddirAgrees(w: Walk, abs: string, inGlobStar: bool, cache: map<string, CacheEntry>, symlinks: map<string, bool>)
    ensures var r := ReaddirSpec(w, abs, inGlobStar, cache, symlinks);
            r.entries.Some? ==> abs in r.cache && r.cache[abs] == Entries(r.entries.value) && r.thrown.None?
  {
  }

  /** `_readdir` throws only when `readdirSync` failed: with "not a
      directory" on the working directory, or with an unusual code under
      `strict`. */
  lemma ReaddirThrows(w: Walk, abs: string, inGlobStar: bool, cache: map<string, CacheEntry>, symlinks: map<string, bool>)
    ensures var r := ReaddirSpec(w, abs, inGlobStar, cache, symlinks);
            r.thrown.Some? ==>
              && w.fs.readdir(abs).Failed?
              && var er := w.fs.readdir(abs).error;
                 || (NotADirectory(er) && MakeAbs(w.place, abs) == w.cwdAbs && r.thrown.value == InvalidCwd(CodeName(er), w.cwd))
                 || (!NotADirectory(er) && !NotThere(er) && w.strict && r.thrown.value == FsFailure(er))
  {
  }

  /** A path cached as missing or as a file is never read; a directory
      whose entries are cached is not read again. */
  lemma ReaddirCached(w: Walk, abs: string, cache: map<string, CacheEntry>, symlinks: map<string, bool>)
    requires abs in cache
    ensures var r := ReaddirPlain(w, abs, cache, symlinks);
            && ((!Truthy(cache[abs]) || cache[abs] == IsFile) ==> r == ReadOut(None, None, cache, symlinks))
            && (cache[abs].Entries? ==> r == ReadOut(Some(cache[abs].names), None, cache, symlinks))
  {
  }

  /** Outside `follow`, a globstar read records whether a path that is
      there is a symbolic link, and changes `symlinks` nowhere else. */
  lemma GlobStarRecordsLinks(w: Walk, abs: string, cache: map<string, CacheEntry>, symlinks: map<string, bool>, k: string)
    requires !w.follow && abs !in symlinks
    ensures var r := ReaddirSpec(w, abs, true, cache, symlinks);
            && (w.fs.lstat(abs) != Failed(ENOENT) ==> abs in r.symlinks)
            && (w.fs.lstat(abs).Done? ==> r.symlinks[abs] == w.fs.lstat(abs).value.isSymbolicLink)
            && (k != abs ==> (k in r.symlinks <==> k in symlinks) && (k in symlinks ==> r.symlinks[k] == symlinks[k]))
  {
  }

  // ---- _processReaddir ----

  /** An entry `_processReaddir` keeps: not a dot entry unless dots are
      allowed, and matching the portion (not matching it, for a negated
      pattern without a prefix). */
  predicate Admits(pn: Seg, name: string, dotOk: bool, invert: bool, e: Engine)
  {
    && (name == [] || name[0] != '.' || dotOk)
    && (if invert then !SegMatches(pn, name, e) else SegMatches(pn, name, e))
  }

  /** The entries kept, in order. */
  function MatchedEntries(es: seq<string>, pn: Seg, dotOk: bool, invert: bool, e: Engine): (r: seq<string>)
    ensures |r| <= |es|
    decreases |es|
  {
    if es == [] then []
    else
      var n := |es| - 1;
      MatchedEntries(es[..n], pn, dotOk, invert, e) + (if Admits(pn, es[n], dotOk, invert, e) then [es[n]] else [])
  }

  /** The entries kept are exactly the admitted ones. */
  lemma {:induction false} MatchedEntriesAre(es: seq<string>, pn: Seg, dotOk: bool, invert: bool, e: Engine, x: string)
    ensures x in MatchedEntries(es, pn, dotOk, invert, e) <==> x in es && Admits(pn, x, dotOk, invert, e)
    decreases |es|
  {
    if es != [] {
      var n := |es| - 1;
      MatchedEntriesAre(es[..n], pn, dotOk, invert, e, x);
      assert es == es[..n] + [es[n]];
    }
  }

  /** `prefix + '/' + e`, or `prefix + e` when the prefix already ends in
      a slash; `e` alone without a prefix. */
  function Prefixed(prefix: string, e: string): (r: string)
    ensures prefix == "" ==> r == e
    ensures prefix != "" ==> |r| >= |prefix| + |e| && r[..|prefix|] == prefix && EndsWith(r, e) && r[|r| - |e| - 1] == '/'
  {
    if prefix == "" then e
    else if EndsWith(prefix, "/") then prefix + e else prefix + "/" + e
  }

  /** The name `_processReaddir` emits for a last-portion entry: prefixed,
      then mounted below `root` when it is absolute. */
  function EmitName(w: Walk, prefix: string, e: string): (r: string)
    ensures IsAbsolute(Prefixed(prefix, e)) && !w.nomount ==> r == w.place.paths.join(w.place.root, Prefixed(prefix, e))
    ensures !(IsAbsolute(Prefixed(prefix, e)) && !w.nomount) ==> r == Prefixed(prefix, e)
  {
    var n := Prefixed(prefix, e);
    if |n| > 0 && n[0] == '/' && !w.nomount then w.place.paths.join(w.place.root, n) else n
  }

  // ---- _process ----

  /** The number of leading literal portions. */
  function LeadingLits(p: seq<Seg>): (n: nat)
    ensures n <= |p| && (forall k :: 0 <= k < n ==> p[k].Lit?) && (n < |p| ==> !p[n].Lit?)
  {
    if p == [] || !p[0].Lit? then 0 else 1 + LeadingLits(p[1..])
  }

  /** The texts of literal portions; a portion that is not literal shows as
      `[*]`. */
  function Shown(p: seq<Seg>): (r: seq<string>)
    ensures |r| == |p|
    ensures forall k :: 0 <= k < |p| ==> r[k] == if p[k].Lit? then p[k].text else "[*]"
  {
    if p == [] then [] else [if p[0].Lit? then p[0].text else "[*]"] + Shown(p[1..])
  }

  /** Where `_process` starts: the prefix (None for `null`) and the path
      it reads. */
  datatype Start = Start(prefix: Option<string>, read: string)

  function StartOf(p: seq<Seg>): (r: Start)
    requires LeadingLits(p) < |p|
    ensures LeadingLits(p) == 0 <==> r == Start(None, ".")
    ensures LeadingLits(p) > 0 ==> r.prefix == Some(r.read)
  {
    var n := LeadingLits(p);
    if n == 0 then Start(None, ".")
    else
      var prefix := Join(Shown(p[..n]), "/");
      if IsAbsolute(prefix) || IsAbsolute(Join(Shown(p), "/")) then
        var pre := if prefix == "" || !IsAbsolute(prefix) then "/" + prefix else prefix;
        Start(Some(pre), pre)
      else Start(Some(prefix), prefix)
  }

  /** An absolute pattern is read from an absolute path; a relative one
      from its literal start, or from `.`. */
  lemma StartAbsolute(p: seq<Seg>)
    requires 0 < LeadingLits(p) < |p|
    ensures IsAbsolute(Join(Shown(p), "/")) ==> IsAbsolute(StartOf(p).read)
    ensures !IsAbsolute(Join(Shown(p), "/")) && !IsAbsolute(Join(Shown(p[..LeadingLits(p)]), "/")) ==>
              StartOf(p).read == Join(Shown(p[..LeadingLits(p)]), "/")
  {
  }

  /** The pattern made of a prefix, an entry and the rest. */
  function Stand(prefix: Option<string>, e: string, rest: seq<Seg>): seq<Seg>
  {
    (if prefix.Some? && prefix.value != "" then [Lit(prefix.value)] else []) + [Lit(e)] + rest
  }

  /** A prefix that is not `null` or empty. */
  predicate HasPrefix(prefix: Option<string>)
  {
    prefix.Some? && prefix.value != ""
  }

  /** The text of a prefix, empty for `null`. */
  function PrefixText(prefix: Option<string>): string
  {
    if prefix.Some? then prefix.value else ""
  }

  // ---- _emitMatch ----

  /** One match set grows by the name or stays. */
  predicate GrewAt(before: seq<MatchSet>, after: seq<MatchSet>, index: nat)
  {
    && |after| == |before|
    && (forall j :: 0 <= j < |before| && j != index ==> after[j] == before[j])
    && (index < |before| ==> (before[index].None? || (after[index].Some? && before[index].value <= after[index].value)))
  }

  lemma GrewAtTrans(a: seq<MatchSet>, b: seq<MatchSet>, c: seq<MatchSet>, index: nat)
    requires GrewAt(a, b, index) && GrewAt(b, c, index)
    ensures GrewAt(a, c, index)
  {
  }

  // ---- realpath ----

  /** The keys of a match set after `_finish`'s `realpath` pass: each key
      made absolute and replaced by its real path (by its absolute form
      made absolute again when only `stat` failed), in order, each once;
      the first other error is thrown. */
  function RealKeys(pl: Place, rp: string -> RealPath, ks: seq<string>): (r: Result<seq<string>, Thrown>)
    ensures r.Ok? ==> Distinct(r.value)
    decreases |ks|
  {
    if ks == [] then Ok([])
    else
      var n := |ks| - 1;
      match RealKeys(pl, rp, ks[..n])
      case Err(t) => Err(t)
      case Ok(front) =>
        var abs := MakeAbs(pl, ks[n]);
        match rp(abs)
        case Real(path) => Ok(SetKey(front, path))
        case StatFailed => Ok(SetKey(front, MakeAbs(pl, abs)))
        case RealFailed(m) => Err(RealpathFailure(m))
  }

  /** The name a key has after the `realpath` pass, when it has one. */
  predicate RealOf(pl: Place, rp: string -> RealPath, k: string, x: string)
  {
    var abs := MakeAbs(pl, k);
    rp(abs) == Real(x) || (rp(abs) == StatFailed && x == MakeAbs(pl, abs))
  }

  /** Every key after the pass is the real name of a key before it, and
      every key before it has its real name after it. */
  lemma {:induction false} RealKeysAre(pl: Place, rp: string -> RealPath, ks: seq<string>, x: string)
    requires RealKeys(pl, rp, ks).Ok?
    ensures x in RealKeys(pl, rp, ks).value <==> exists i :: 0 <= i < |ks| && RealOf(pl, rp, ks[i], x)
    decreases |ks|
  {
    if ks != [] {
      var n := |ks| - 1;
      var front := ks[..n];
      RealKeysLast(pl, rp, ks, x);
      RealKeysAre(pl, rp, front, x);
      var before := RealKeys(pl, rp, front).value;
      if x in RealKeys(pl, rp, ks).value {
        if x in before {
          var i :| 0 <= i < |front| && RealOf(pl, rp, front[i], x);
          assert front[i] == ks[i];
        } else {
          assert RealOf(pl, rp, ks[n], x);
        }
      } else {
        forall i | 0 <= i < |ks| ensures !RealOf(pl, rp, ks[i], x) {
          if i < n {
            assert front[i] == ks[i];
          }
        }
      }
    }
  }

  /** The last key adds its real name to the names of the keys before it. */
  lemma RealKeysLast(pl: Place, rp: string -> RealPath, ks: seq<string>, x: string)
    requires ks != [] && RealKeys(pl, rp, ks).Ok?
    ensures RealKeys(pl, rp, ks[..|ks| - 1]).Ok?
    ensures x in RealKeys(pl, rp, ks).value <==>
              x in RealKeys(pl, rp, ks[..|ks| - 1]).value || RealOf(pl, rp, ks[|ks| - 1], x)
  {
    var n := |ks| - 1;
    var front := RealKeys(pl, rp, ks[..n]);
    var abs := MakeAbs(pl, ks[n]);
    match rp(abs)
    case Real(path) =>
      assert RealKeys(pl, rp, ks) == Ok(SetKey(front.value, path));
    case StatFailed =>
      assert RealKeys(pl, rp, ks) == Ok(SetKey(front.value, MakeAbs(pl, abs)));
    case RealFailed(m) =>
  }

  /** The pass over all match sets; a slot never filled stays empty. */
  function RealAll(pl: Place, rp: string -> RealPath, ms: seq<MatchSet>): (r: Result<seq<MatchSet>, Thrown>)
    ensures r.Ok? ==> |r.value| == |ms| && forall j :: 0 <= j < |ms| ==> (r.value[j].None? <==> ms[j].None?)
    decreases |ms|
  {
    if ms == [] then Ok([])
    else
      var n := |ms| - 1;
      match RealAll(pl, rp, ms[..n])
      case Err(t) => Err(t)
      case Ok(front) =>
        if ms[n].None? then Ok(front + [None])
        else match RealKeys(pl, rp, Keys(ms[n].value))
          case Err(t) => Err(t)
          case Ok(ks) => Ok(front + [Some(ks)])
  }

  /** Once a key throws, the keys after it change nothing. */
  lemma {:induction false} RealKeysStays(pl: Place, rp: string -> RealPath, ks: seq<string>, j: nat)
    requires j <= |ks| && RealKeys(pl, rp, ks[..j]).Err?
    ensures RealKeys(pl, rp, ks) == RealKeys(pl, rp, ks[..j])
    decreases |ks| - j
  {
    if j < |ks| {
      var n := |ks| - 1;
      assert ks[..n][..j] == ks[..j];
      RealKeysStays(pl, rp, ks[..n], j);
    } else {
      assert ks[..j] == ks;
    }
  }

  /** Once a match set throws, the sets after it change nothing. */
  lemma {:induction false} RealAllStays(pl: Place, rp: string -> RealPath, ms: seq<MatchSet>, j: nat)
    requires j <= |ms| && RealAll(pl, rp, ms[..j]).Err?
    ensures RealAll(pl, rp, ms) == RealAll(pl, rp, ms[..j])
    decreases |ms| - j
  {
    if j < |ms| {
      var n := |ms| - 1;
      assert ms[..n][..j] == ms[..j];
      RealAllStays(pl, rp, ms[..n], j);
      RealAllErrStep(pl, rp, ms);
    } else {
      assert ms[..j] == ms;
    }
  }

  /** A pass whose front throws throws the same. */
  lemma RealAllErrStep(pl: Place, rp: string -> RealPath, ms: seq<MatchSet>)
    requires ms != [] && RealAll(pl, rp, ms[..|ms| - 1]).Err?
    ensures RealAll(pl, rp, ms) == RealAll(pl, rp, ms[..|ms| - 1])
  {
  }

  /** The pass throws the error of the first match set that throws. */
  lemma RealStops(pl: Place, rp: string -> RealPath, ms: seq<MatchSet>, i: nat)
    requires i < |ms| && ms[i].Some? && RealAll(pl, rp, ms[..i]).Ok?
    requires RealKeys(pl, rp, Keys(ms[i].value)).Err?
    ensures RealAll(pl, rp, ms) == Err(RealKeys(pl, rp, Keys(ms[i].value)).error)
  {
    assert ms[..i + 1][..i] == ms[..i];
    RealAllStays(pl, rp, ms, i + 1);
  }
}
