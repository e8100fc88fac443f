// The pure parts of the bundled chrome-launcher: the `Launcher`
// constructor's option defaults, the `flags` getter, `toWinDirFormat`, and
// chrome-finder's priority `sort` and `uniq`.
module ChromeLauncher {
  import opened Wrappers
  import opened JsString
  import opened Decimal
  import opened StableSort

  /** `userDataDir` may be a boolean or a path. */
  datatype UserDataDir = DirFlag(on: bool) | DirPath(path: string)

  /** The options a `Launcher` is built from; an absent option is None. The
      log level is left out with the logger. */
  datatype LaunchOptions = LaunchOptions(
    startingUrl: Option<string>, chromeFlags: Option<seq<string>>, port: Option<int>,
    chromePath: Option<string>, ignoreDefaultFlags: Option<bool>,
    connectionPollInterval: Option<int>, maxConnectionRetries: Option<int>,
    envVars: Option<map<string, string>>, userDataDir: Option<UserDataDir>)

  /** The fields the constructor sets. */
  datatype Launcher = Launcher(
    startingUrl: string, chromeFlags: seq<string>, requestedPort: int, chromePath: Option<string>,
    ignoreDefaultFlags: bool, connectionPollInterval: int, maxConnectionRetries: int,
    envVars: map<string, string>, useDefaultProfile: bool, userDataDir: Option<string>)

  const InvalidUserDataDirectory := "userDataDir must be false or a path."

  /** The `Launcher` constructor: every absent option takes its default
      (`defaults` is `GetOr`); `userDataDir: false` selects the default
      profile and `userDataDir: true` is refused. */
  function NewLauncher(opts: LaunchOptions, processEnv: map<string, string>): (r: Result<Launcher, string>)
    ensures r.Err? <==> opts.userDataDir == Some(DirFlag(true))
    ensures r.Err? ==> r.error == InvalidUserDataDirectory
    ensures r.Ok? ==> (r.value.useDefaultProfile <==> opts.userDataDir == Some(DirFlag(false)))
    ensures r.Ok? ==> (r.value.userDataDir.Some? <==> opts.userDataDir.Some? && opts.userDataDir.value.DirPath?)
    ensures r.Ok? && r.value.userDataDir.Some? ==> r.value.userDataDir.value == opts.userDataDir.value.path
    ensures r.Ok? && opts.startingUrl.None? ==> r.value.startingUrl == "about:blank"
    ensures r.Ok? && opts.chromeFlags.None? ==> r.value.chromeFlags == []
    ensures r.Ok? && opts.port.None? ==> r.value.requestedPort == 0
    ensures r.Ok? && opts.ignoreDefaultFlags.None? ==> !r.value.ignoreDefaultFlags
    ensures r.Ok? && opts.connectionPollInterval.None? ==> r.value.connectionPollInterval == 500
    ensures r.Ok? && opts.maxConnectionRetries.None? ==> r.value.maxConnectionRetries == 50
    ensures r.Ok? && opts.envVars.None? ==> r.value.envVars == processEnv
  {
    var base := Launcher(
      opts.startingUrl.GetOr("about:blank"), opts.chromeFlags.GetOr([]), opts.port.GetOr(0), opts.chromePath,
      opts.ignoreDefaultFlags.GetOr(false), opts.connectionPollInterval.GetOr(500),
      opts.maxConnectionRetries.GetOr(50), opts.envVars.GetOr(processEnv), false, None);
    match opts.userDataDir
    case Some(DirFlag(on)) =>
      if !on then Ok(base.(useDefaultProfile := true, userDataDir := None))
      else Err(InvalidUserDataDirectory)
    case Some(DirPath(p)) => Ok(base.(userDataDir := Some(p)))
    case None => Ok(base)
  }

  const DefaultFlags := [
    "--disable-features=TranslateUI",
    "--disable-extensions",
    "--disable-component-extensions-with-background-pages",
    "--disable-background-networking",
    "--disable-sync",
    "--metrics-recording-only",
    "--disable-default-apps",
    "--mute-audio",
    "--no-default-browser-check",
    "--no-first-run",
    "--disable-backgrounding-occluded-windows",
    "--disable-renderer-backgrounding",
    "--disable-background-timer-throttling",
    "--force-fieldtrials=*BackgroundTracing/default/"]

  /** `getPlatform()`: "wsl" inside the Windows Subsystem for Linux, the
      platform Node reports otherwise. */
  function Platform(platform: string, wsl: bool): string
  {
    if wsl then "wsl" else platform
  }

  /** The text of the profile flag: the directory in Windows form under
      WSL (`toWinDirFormat(undefined)` being ""), as a template renders it
      otherwise. */
  function ProfileDir(dir: Option<string>, wsl: bool): string
  {
    if wsl then ToWinDirFormat(dir.GetOr(""))
    else match dir
      case Some(d) => d
      case None => "undefined"
  }

  /** The flags before the user's own. */
  function LeadingFlags(l: Launcher, port: int, platform: string, wsl: bool): seq<string>
  {
    (if l.ignoreDefaultFlags then [] else DefaultFlags)
    + ["--remote-debugging-port=" + IntToString(port)]
    + (if !l.ignoreDefaultFlags && Platform(platform, wsl) == "linux" then ["--disable-setuid-sandbox"] else [])
    + (if !l.useDefaultProfile then ["--user-data-dir=" + ProfileDir(l.userDataDir, wsl)] else [])
  }

  /** The `flags` getter of a launcher whose debugging port is `port`. */
  function Flags(l: Launcher, port: int, platform: string, wsl: bool): (r: seq<string>)
    ensures var n := if l.ignoreDefaultFlags then 0 else |DefaultFlags|;
            var sandbox := !l.ignoreDefaultFlags && !wsl && platform == "linux";
            && |r| == n + 1 + (if sandbox then 1 else 0) + (if l.useDefaultProfile then 0 else 1) + |l.chromeFlags| + 1
            && r[..n] == (if l.ignoreDefaultFlags then [] else DefaultFlags)
            && r[n] == "--remote-debugging-port=" + IntToString(port)
            && (sandbox ==> r[n + 1] == "--disable-setuid-sandbox")
            && (!l.useDefaultProfile ==> r[|r| - 2 - |l.chromeFlags|] == "--user-data-dir=" + ProfileDir(l.userDataDir, wsl))
            && r[|r| - 1 - |l.chromeFlags|..|r| - 1] == l.chromeFlags
            && r[|r| - 1] == l.startingUrl
  {
    var head := if l.ignoreDefaultFlags then [] else DefaultFlags;
    var sandbox := if !l.ignoreDefaultFlags && Platform(platform, wsl) == "linux" then ["--disable-setuid-sandbox"] else [];
    var profile := if !l.useDefaultProfile then ["--user-data-dir=" + ProfileDir(l.userDataDir, wsl)] else [];
    FlagsLayout(head, "--remote-debugging-port=" + IntToString(port), sandbox, profile, l.chromeFlags, l.startingUrl);
    LeadingFlags(l, port, platform, wsl) + l.chromeFlags + [l.startingUrl]
  }

  /** Where each group lands in `[...head, port, ...sandbox, ...profile,
      ...flags, url]`. */
  lemma FlagsLayout(head: seq<string>, port: string, sandbox: seq<string>, profile: seq<string>, flags: seq<string>, url: string)
    requires |sandbox| <= 1 && |profile| <= 1
    ensures var r := head + [port] + sandbox + profile + flags + [url];
            && |r| == |head| + 1 + |sandbox| + |profile| + |flags| + 1
            && r[..|head|] == head && r[|head|] == port
            && (|sandbox| == 1 ==> r[|head| + 1] == sandbox[0])
            && (|profile| == 1 ==> r[|r| - 2 - |flags|] == profile[0])
            && r[|r| - 1 - |flags|..|r| - 1] == flags
            && r[|r| - 1] == url
  {
    var r := head + [port] + sandbox + profile + flags + [url];
    assert r[..|head|] == head;
    assert r[|r| - 1 - |flags|..|r| - 1] == flags;
  }

  /** The sandbox flag is there exactly on plain Linux with the default
      flags on. */
  lemma SandboxFlag(l: Launcher, port: int, platform: string, wsl: bool)
    requires forall k :: 0 <= k < |l.chromeFlags| ==> l.chromeFlags[k] != "--disable-setuid-sandbox"
    requires l.startingUrl != "--disable-setuid-sandbox"
    ensures "--disable-setuid-sandbox" in Flags(l, port, platform, wsl)
        <==> !l.ignoreDefaultFlags && !wsl && platform == "linux"
  {
    var lead := LeadingFlags(l, port, platform, wsl);
    assert Flags(l, port, platform, wsl) == lead + l.chromeFlags + [l.startingUrl];
    SandboxInLead(l, port, platform, wsl);
  }

  /** The same for Chrome's own flags. */
  lemma SandboxInLead(l: Launcher, port: int, platform: string, wsl: bool)
    ensures "--disable-setuid-sandbox" in LeadingFlags(l, port, platform, wsl)
        <==> !l.ignoreDefaultFlags && !wsl && platform == "linux"
  {
    var sandbox := "--disable-setuid-sandbox";
    SandboxNotDefault();
    assert ("--remote-debugging-port=" + IntToString(port))[2] == 'r';
    assert ("--user-data-dir=" + ProfileDir(l.userDataDir, wsl))[2] == 'u';
    assert sandbox[2] == 'd';
  }

  /** The sandbox flag is not among the default flags. */
  lemma SandboxNotDefault()
    ensures "--disable-setuid-sandbox" !in DefaultFlags
  {
    var sandbox := "--disable-setuid-sandbox";
    forall k | 0 <= k < |DefaultFlags| ensures DefaultFlags[k] != sandbox {
      assert |sandbox| == 24;
    }
  }

  /** Chrome's own flags come before the user's flags and the starting page,
      which stay in the order given. */
  lemma UserFlagsLast(l: Launcher, port: int, platform: string, wsl: bool)
    ensures var r := Flags(l, port, platform, wsl);
            r[|r| - 1 - |l.chromeFlags|..] == l.chromeFlags + [l.startingUrl]
  {
    var r := Flags(l, port, platform, wsl);
    var lead := LeadingFlags(l, port, platform, wsl);
    assert r[|lead|..] == l.chromeFlags + [l.startingUrl];
  }

  /** /\/mnt\/([a-z])\// matches at `i`. */
  predicate DriveAt(dir: string, i: int)
  {
    0 <= i && i + 7 <= |dir| && dir[i..i + 5] == "/mnt/" && 'a' <= dir[i + 5] <= 'z' && dir[i + 6] == '/'
  }

  /** The leftmost match at or after `i`. */
  function DriveStart(dir: string, i: nat): (r: Option<nat>)
    ensures r.Some? ==> i <= r.value && DriveAt(dir, r.value)
    ensures r.Some? ==> forall j :: i <= j < r.value ==> !DriveAt(dir, j)
    ensures r.None? ==> forall j :: i <= j ==> !DriveAt(dir, j)
    decreases |dir| - i
  {
    if i + 7 > |dir| then None
    else if DriveAt(dir, i) then Some(i)
    else DriveStart(dir, i + 1)
  }

  /** `.replace(/\//g, '\\')`. */
  function Backslashed(s: string): (r: string)
    ensures |r| == |s| && NoChar(r, '/')
    ensures forall k :: 0 <= k < |s| ==> r[k] == if s[k] == '/' then '\\' else s[k]
  {
    seq(|s|, k requires 0 <= k < |s| => if s[k] == '/' then '\\' else s[k])
  }

  function Upper(c: char): (u: char)
    requires 'a' <= c <= 'z'
    ensures 'A' <= u <= 'Z' && u as int - 'A' as int == c as int - 'a' as int
  {
    (c as int - 32) as char
  }

  /** `toWinDirFormat`: a WSL mount `/mnt/<x>/` becomes the drive `<X>:\`
      and every `/` a `\`; a path with no mount is kept as it is. */
  function ToWinDirFormat(dir: string): (r: string)
    ensures (forall i :: !DriveAt(dir, i)) ==> r == dir
    ensures (exists i :: DriveAt(dir, i)) ==> NoChar(r, '/') && |r| == |dir| - 4
  {
    match DriveStart(dir, 0)
    case None => dir
    case Some(i) =>
      var x := dir[i + 5];
      FirstMountIsFirstMatch(dir, i);
      Backslashed(ReplaceFirst(dir, "/mnt/" + [x] + "/", [Upper(x), ':', '\\']))
  }

  /** The string replaced is found where the expression matched: no earlier
      `/mnt/<x>/` exists, as it would have been an earlier match. */
  lemma FirstMountIsFirstMatch(dir: string, i: nat)
    requires DriveAt(dir, i) && forall j :: 0 <= j < i ==> !DriveAt(dir, j)
    ensures IndexOf(dir, "/mnt/" + [dir[i + 5]] + "/", 0) == i
    ensures ReplaceFirst(dir, "/mnt/" + [dir[i + 5]] + "/", [Upper(dir[i + 5]), ':', '\\'])
         == dir[..i] + [Upper(dir[i + 5]), ':', '\\'] + dir[i + 7..]
  {
    var pat := "/mnt/" + [dir[i + 5]] + "/";
    assert dir[i..i + 7] == pat;
    var r := IndexOf(dir, pat, 0);
    assert OccursAt(dir, pat, i);
    assert r != -1 && r <= i;
    assert dir[r..r + 7] == pat;
    assert dir[r..r + 7][..5] == "/mnt/" && dir[r..r + 7][5] == dir[r + 5] && dir[r..r + 7][6] == dir[r + 6];
    assert DriveAt(dir, r);
  }

  /** A path under a WSL mount gets the drive letter in upper case. */
  lemma MountedPath(x: char, rest: string)
    requires 'a' <= x <= 'z'
    ensures ToWinDirFormat("/mnt/" + [x] + "/" + rest) == [Upper(x), ':', '\\'] + Backslashed(rest)
  {
    var dir := "/mnt/" + [x] + "/" + rest;
    var pat := "/mnt/" + [x] + "/";
    assert dir == pat + rest;
    assert dir[..5] == "/mnt/" && dir[5] == x && dir[6] == '/';
    assert DriveAt(dir, 0);
    assert DriveStart(dir, 0) == Some(0);
    ReplaceFirstPrefix(pat, rest, [Upper(x), ':', '\\']);
    var t := [Upper(x), ':', '\\'] + rest;
    assert Backslashed(t) == [Upper(x), ':', '\\'] + Backslashed(rest);
  }

  /** One entry of chrome-finder's priority list: a pattern over paths, seen
      as the test it performs, and a weight. */
  datatype Priority = Priority(test: string -> bool, weight: int)

  const DefaultPriority := 10

  /** The weight of the first pattern the path passes, 10 when none. */
  function Weight(path: string, priorities: seq<Priority>): (w: int)
    ensures (forall k :: 0 <= k < |priorities| ==> !priorities[k].test(path)) ==> w == DefaultPriority
    ensures priorities != [] && priorities[0].test(path) ==> w == priorities[0].weight
  {
    if priorities == [] then DefaultPriority
    else if priorities[0].test(path) then priorities[0].weight
    else Weight(path, priorities[1..])
  }

  /** `b.weight - a.weight` as an order: heavier paths first. */
  function Heavier(priorities: seq<Priority>): (string, string) -> bool
  {
    (a: string, b: string) => Weight(a, priorities) >= Weight(b, priorities)
  }

  /** chrome-finder's `sort`: the installations by decreasing weight, in
      their given order among equal weights. */
  function SortInstallations(installations: seq<string>, priorities: seq<Priority>): (r: seq<string>)
    ensures |r| == |installations|
  {
    Sort(installations, Heavier(priorities))
  }

  /** The result is a permutation of the installations, heaviest first. */
  lemma SortInstallationsOrdered(installations: seq<string>, priorities: seq<Priority>)
    ensures multiset(SortInstallations(installations, priorities)) == multiset(installations)
    ensures var r := SortInstallations(installations, priorities);
            forall i, j :: 0 <= i < j < |r| ==> Weight(r[i], priorities) >= Weight(r[j], priorities)
  {
    var le := Heavier(priorities);
    assert Total(le);
    assert Transitive(le);
    SortPermutes(installations, le);
    SortSorted(installations, le);
    var r := SortInstallations(installations, priorities);
    forall i, j | 0 <= i < j < |r| ensures Weight(r[i], priorities) >= Weight(r[j], priorities) {
      assert le(r[i], r[j]);
    }
  }

  /** The paths of one weight, in order. */
  function OfWeight(xs: seq<string>, w: int, priorities: seq<Priority>): (r: seq<string>)
    ensures forall k :: 0 <= k < |r| ==> Weight(r[k], priorities) == w
  {
    Picked(xs, WeighsExactly(w, priorities))
  }

  function WeighsExactly(w: int, priorities: seq<Priority>): string -> bool
  {
    (a: string) => Weight(a, priorities) == w
  }

  /** Inserting passes over heavier paths only. */
  lemma InsertOfWeight(x: string, ys: seq<string>, w: int, priorities: seq<Priority>)
    ensures OfWeight(Insert(x, ys, Heavier(priorities)), w, priorities)
         == (if Weight(x, priorities) == w then [x] else []) + OfWeight(ys, w, priorities)
  {
    InsertPicked(x, ys, Heavier(priorities), WeighsExactly(w, priorities));
  }

  /** The sort is stable: the paths of any one weight keep their order. */
  lemma SortInstallationsStable(installations: seq<string>, priorities: seq<Priority>, w: int)
    ensures OfWeight(SortInstallations(installations, priorities), w, priorities)
         == OfWeight(installations, w, priorities)
  {
    SortStable(installations, Heavier(priorities), WeighsExactly(w, priorities));
  }

  /** `Array.from(new Set(arr))`: the first occurrence of each element, in
      order. */
  function Uniq(xs: seq<string>): (r: seq<string>)
    ensures forall x :: x in r <==> x in xs
    ensures forall i, j :: 0 <= i < j < |r| ==> r[i] != r[j]
    ensures |r| <= |xs|
  {
    if xs == [] then []
    else
      var u := Uniq(xs[..|xs| - 1]);
      var x := xs[|xs| - 1];
      assert xs == xs[..|xs| - 1] + [x];
      if x in u then u else u + [x]
  }

  /** A list without repeats comes back unchanged. */
  lemma {:induction false} UniqDistinct(xs: seq<string>)
    requires forall i, j :: 0 <= i < j < |xs| ==> xs[i] != xs[j]
    ensures Uniq(xs) == xs
  {
    if xs != [] {
      var init := xs[..|xs| - 1];
      UniqDistinct(init);
      assert xs[|xs| - 1] !in init by {
        forall k | 0 <= k < |init| ensures init[k] != xs[|xs| - 1] {
          assert init[k] == xs[k];
        }
      }
      assert xs == init + [xs[|xs| - 1]];
    }
  }

  /** A repeat later in the list changes nothing. */
  lemma UniqRepeat(xs: seq<string>, x: string)
    requires x in xs
    ensures Uniq(xs + [x]) == Uniq(xs)
  {
    assert (xs + [x])[..|xs + [x]| - 1] == xs;
  }

  /** A new element goes to the end. */
  lemma UniqAppendNew(xs: seq<string>, x: string)
    requires x !in xs
    ensures Uniq(xs + [x]) == Uniq(xs) + [x]
  {
    assert (xs + [x])[..|xs + [x]| - 1] == xs;
  }

  /** Where `x` first occurs in `xs`. */
  function FirstAt(xs: seq<string>, x: string): (k: nat)
    requires x in xs
    ensures k < |xs| && xs[k] == x && x !in xs[..k]
  {
    if xs[0] == x then 0
    else
      var k := FirstAt(xs[1..], x);
      assert xs[..k + 1] == [xs[0]] + xs[1..][..k];
      k + 1
  }

  /** Appending text after an element does not move its first occurrence. */
  lemma {:induction false} FirstAtPrefix(xs: seq<string>, ys: seq<string>, x: string)
    requires x in xs
    ensures FirstAt(xs + ys, x) == FirstAt(xs, x)
  {
    if xs[0] != x {
      assert (xs + ys)[1..] == xs[1..] + ys;
      FirstAtPrefix(xs[1..], ys, x);
    }
  }

  /** The kept elements are in the order of their first occurrences, so,
      with the element set and the absence of repeats that `Uniq` ensures,
      the result is exactly the first occurrences in input order. */
  lemma {:induction false} UniqInOrder(xs: seq<string>)
    ensures forall i, j :: 0 <= i < j < |Uniq(xs)| ==>
      FirstAt(xs, Uniq(xs)[i]) < FirstAt(xs, Uniq(xs)[j])
  {
    if xs != [] {
      var init := xs[..|xs| - 1];
      var x := xs[|xs| - 1];
      assert xs == init + [x];
      UniqInOrder(init);
      var u := Uniq(init);
      forall i | 0 <= i < |u| ensures FirstAt(xs, u[i]) == FirstAt(init, u[i]) < |init| {
        FirstAtPrefix(init, [x], u[i]);
      }
      if x !in u {
        assert Uniq(xs) == u + [x];
        assert x !in init;
        assert FirstAt(xs, x) == |init| by {
          var k := FirstAt(xs, x);
          assert xs[..|init|] == init;
          assert k >= |init| by {
            assert forall m :: 0 <= m < |init| ==> xs[m] == init[m];
          }
        }
      }
    }
  }
}
