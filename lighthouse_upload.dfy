// The three ways the upload-lighthouse action derives the S3 keys of the
// HTML reports of one page: src/upload-lighthouse/upload-to-s3.ts,
// src/upload-lighthouse/uploadToS3.ts and the `upload` function of
// src/upload-lighthouse/index.ts. The commit SHA, the branch and the
// environment are parameters.

/** src/upload-lighthouse/upload-to-s3.ts: the page path keeps its slashes. */
module UploadToS3 {
  import opened Wrappers
  import opened JsString
  import opened ReportKeys

  /** The cleaning in `derivePathFromReport`: the first local-server prefix,
      then the first `?desktop` wherever it is, then one trailing `/`. */
  function CleanReportUrl(url: string): string
  {
    var u1 := ReplaceFirst(url, LocalServer, "");
    var u2 := ReplaceFirst(u1, DesktopQuery, "");
    if EndsWith(u2, "/") then u2[..|u2| - 1] else u2
  }

  function DerivePathFromReport(url: string, t: FormFactor, commitHash: string, branch: string): string
  {
    ReportType(branch) + "/" + commitHash + "/" + CleanReportUrl(url) + "/" + FormFactorName(t)
  }

  /** The requests `uploadHtmlToS3` sends, one per report. */
  function UploadHtmlToS3(runs: seq<string>, url: string, t: FormFactor, commitHash: string,
                          env: map<string, string>): (r: seq<PutObject>)
    ensures |r| == |runs|
    ensures forall i :: 0 <= i < |r| ==>
              && r[i].body == runs[i] && r[i].acl == Some(PublicRead)
              && Under(DerivePathFromReport(url, t, commitHash, BranchName(env)), r[i].key)
    ensures forall i, j :: 0 <= i < j < |r| ==> r[i].key != r[j].key
  {
    var dir := DerivePathFromReport(url, t, commitHash, BranchName(env));
    UploadsShape(runs, dir, ReportBody, Some(PublicRead));
    Uploads(runs, dir, ReportBody, Some(PublicRead))
  }

  /** `?desktop` is removed wherever it first occurs, and what follows it is
      kept. */
  lemma CleanDesktopAnywhere(a: string, b: string)
    requires NoChar(a, '?') && !EndsWith(a + b, "/")
    ensures CleanReportUrl(LocalServer + a + DesktopQuery + b) == a + b
  {
    var rest := a + DesktopQuery + b;
    assert LocalServer + a + DesktopQuery + b == LocalServer + rest;
    ReplaceFirstPrefix(LocalServer, rest, "");
    assert "" + rest == rest;
    RemoveFirstDesktop(a, b);
  }

  lemma RemoveFirstDesktop(a: string, b: string)
    requires NoChar(a, '?')
    ensures ReplaceFirst(a + DesktopQuery + b, DesktopQuery, "") == a + b
  {
    FirstDesktopAt(a, b);
    var u := a + DesktopQuery + b;
    assert u[..|a|] == a;
    assert u[|a| + 8..] == b;
  }

  /** The first `?desktop` of `a + "?desktop" + b`, when `a` has no `?`, is
      right after `a`. */
  lemma FirstDesktopAt(a: string, b: string)
    requires NoChar(a, '?')
    ensures IndexOf(a + DesktopQuery + b, DesktopQuery, 0) == |a|
  {
    var u := a + DesktopQuery + b;
    assert OccursAt(u, DesktopQuery, |a|) by {
      assert u[|a|..|a| + 8] == DesktopQuery;
    }
    forall j | 0 <= j < |a| ensures !OccursAt(u, DesktopQuery, j) {
      assert u[j..j + 8][0] == u[j] == a[j];
    }
  }

  /** A page without a query: the local-server prefix and at most one
      trailing slash go. */
  lemma {:induction false} CleanPage(page: string)
    requires NoChar(page, '?')
    ensures CleanReportUrl(LocalServer + page + "/") == page
    ensures CleanReportUrl(LocalServer + page + "//") == page + "/"
  {
    ReplaceFirstPrefix(LocalServer, page + "/", "");
    assert LocalServer + page + "/" == LocalServer + (page + "/");
    ReplaceFirstPrefix(LocalServer, page + "//", "");
    assert LocalServer + page + "//" == LocalServer + (page + "//");
    NoDesktop(page + "/");
    NoDesktop(page + "//");
    assert "" + (page + "/") == page + "/";
    assert "" + (page + "//") == page + "//";
    assert (page + "/")[..|page|] == page;
    assert (page + "//")[..|page| + 1] == page + "/";
  }

  /** A `?`-free text holds no `?desktop` and loses nothing to its removal. */
  lemma NoDesktop(s: string)
    requires NoChar(s, '?')
    ensures ReplaceFirst(s, DesktopQuery, "") == s
  {
    forall j | 0 <= j <= |s| - 8 ensures !OccursAt(s, DesktopQuery, j) {
      assert s[j..j + 8][0] == s[j];
    }
    ReplaceFirstAbsent(s, DesktopQuery, "");
  }

  /** The path of a page's report with the page address as the local server
      serves it. */
  lemma PagePath(page: string, commitHash: string, branch: string, t: FormFactor)
    requires NoChar(page, '?')
    ensures DerivePathFromReport(LocalServer + page + "/", t, commitHash, branch)
         == ReportType(branch) + "/" + commitHash + "/" + page + "/" + FormFactorName(t)
  {
    CleanPage(page);
  }
}

/** src/upload-lighthouse/uploadToS3.ts: every slash, or pair of slashes, of
    the page path becomes one dash. */
module UploadToS3Dashed {
  import opened Wrappers
  import opened JsString
  import opened RegexSplit
  import opened ReportKeys

  /** The alternatives of `/\/\/|\//`, in order. */
  const SlashAlts: seq<string> := ["//", "/"]

  function CleanedUrl(url: string): string
  {
    var u1 := ReplaceFirst(url, LocalServer, "");
    var u2 := StripDesktopSuffix(u1);
    Join(SplitOn(u2, SlashAlts), "-")
  }

  /** The cleaned page path holds no slash, so it is one key component. */
  lemma CleanedUrlHasNoSlash(url: string)
    ensures NoChar(CleanedUrl(url), '/')
  {
    var u2 := StripDesktopSuffix(ReplaceFirst(url, LocalServer, ""));
    assert SlashAlts[1] == ['/'];
    SplitJoinAvoids(u2, SlashAlts, "-", '/');
  }

  /** One slash and a double slash both become a single dash. */
  lemma SlashesBecomeOneDash(x: string, y: string)
    requires NoChar(x, '/') && NoChar(y, '/')
    ensures Join(SplitOn(x + "//" + y, SlashAlts), "-") == x + "-" + y
    ensures Join(SplitOn(x + "/" + y, SlashAlts), "-") == x + "-" + y
  {
    assert SlashAlts[0] == "//" && SlashAlts[1] == "/";
    assert NoAltStart(x, SlashAlts) && NoAltStart(y, SlashAlts);
    SplitTwo(x, 0, y, SlashAlts);
    assert !("//" <= "/" + y) by {
      if |y| > 0 { assert ("/" + y)[1] == y[0]; }
    }
    assert FirstAlt("/" + y, SlashAlts) == 1;
    SplitTwo(x, 1, y, SlashAlts);
  }

  /** A two-level page with a trailing slash, `x/y/`, is stored as `x-y-`;
      so `docs/atlas/` becomes `docs-atlas-`. */
  lemma TwoLevelPage(x: string, y: string)
    requires NoChar(x, '/') && NoChar(y, '/') && |y| > 0
    ensures CleanedUrl(LocalServer + x + "/" + y + "/") == x + "-" + y + "-"
  {
    var page := x + "/" + y + "/";
    assert LocalServer + x + "/" + y + "/" == LocalServer + page;
    ServedPage(page);
    assert StripDesktopSuffix(page) == page by {
      assert page[|page| - 1] == '/';
    }
    TwoLevelSplit(x, y);
    var parts := [x, y, ""];
    assert parts[1..] == [y, ""] && parts[1..][1..] == [""];
    assert Join(parts, "-") == x + "-" + (y + "-" + "");
  }

  lemma DocsAtlasExample()
    ensures CleanedUrl(LocalServer + "docs" + "/" + "atlas" + "/") == "docs" + "-" + "atlas" + "-"
  {
    TwoLevelPage("docs", "atlas");
  }

  /** The address of a page on the local server is cleaned from the page. */
  lemma ServedPage(page: string)
    ensures CleanedUrl(LocalServer + page) == Join(SplitOn(StripDesktopSuffix(page), SlashAlts), "-")
  {
    ReplaceFirstPrefix(LocalServer, page, "");
    assert "" + page == page;
  }

  lemma TwoLevelSplit(x: string, y: string)
    requires NoChar(x, '/') && NoChar(y, '/') && |y| > 0
    ensures SplitOn(x + "/" + y + "/", SlashAlts) == [x, y, ""]
  {
    var tail := y + "/";
    assert x + "/" + y + "/" == x + "/" + tail;
    PieceThenSlash(x, tail, "");
    assert y + "/" + "" == tail;
    PieceThenSlash(y, "", "");
    assert "" + x == x && "" + y == y;
  }

  /** A piece free of `/`, then a single `/`: the piece is finished. */
  lemma PieceThenSlash(x: string, tail: string, cur: string)
    requires NoChar(x, '/') && (tail == [] || tail[0] != '/')
    ensures SplitFrom(x + "/" + tail, SlashAlts, cur) == [cur + x] + SplitFrom(tail, SlashAlts, "")
  {
    assert NoAltStart(x, SlashAlts);
    var rest := "/" + tail;
    assert x + "/" + tail == x + rest;
    SkipPlain(x, rest, SlashAlts, cur);
    assert rest == SlashAlts[1] + tail;
    assert !(SlashAlts[0] <= rest) by {
      if tail != [] {
        assert rest[1] == tail[0];
      }
    }
    assert FirstAlt(rest, SlashAlts) == 1;
    AfterAlt(1, tail, SlashAlts, cur + x);
  }

  function DestinationDir(url: string, t: FormFactor, commitHash: string, branch: string): string
  {
    ReportType(branch) + "/" + commitHash + "/" + CleanedUrl(url) + "/" + FormFactorName(t)
  }

  /** The requests `uploadHtmlToS3` sends, one per report. */
  function UploadHtmlToS3(runs: seq<string>, url: string, t: FormFactor, commitHash: string,
                          env: map<string, string>): (r: seq<PutObject>)
    ensures |r| == |runs|
    ensures forall i :: 0 <= i < |r| ==>
              && r[i].body == runs[i] && r[i].acl == Some(PublicRead)
              && Under(DestinationDir(url, t, commitHash, BranchName(env)), r[i].key)
    ensures forall i, j :: 0 <= i < j < |r| ==> r[i].key != r[j].key
  {
    var dir := DestinationDir(url, t, commitHash, BranchName(env));
    UploadsShape(runs, dir, ReportBody, Some(PublicRead));
    Uploads(runs, dir, ReportBody, Some(PublicRead))
  }
}

/** The key derivation of `upload` in src/upload-lighthouse/index.ts. */
module UploadLighthouse {
  import opened Wrappers
  import opened JsString
  import opened RegexSplit
  import opened ReportKeys

  /** The alternatives of `/:\/\/|:|\/\?|\/|\?/`, in order. */
  const DashAlts: seq<string> := ["://", ":", "/?", "/", "?"]

  const PlaceholderBody := "Body!!! "

  function UrlWithDashes(url: string): string
  {
    Join(SplitOn(StripDesktopSuffix(url), DashAlts), "-")
  }

  predicate PlainPart(x: string)
  {
    NoChar(x, ':') && NoChar(x, '/') && NoChar(x, '?')
  }

  /** No `:`, `/` or `?` is left in the dashed address. */
  lemma UrlWithDashesPlain(url: string)
    ensures PlainPart(UrlWithDashes(url))
  {
    var u := StripDesktopSuffix(url);
    assert DashAlts[1] == [':'] && DashAlts[3] == ['/'] && DashAlts[4] == ['?'];
    SplitJoinAvoids(u, DashAlts, "-", ':');
    SplitJoinAvoids(u, DashAlts, "-", '/');
    SplitJoinAvoids(u, DashAlts, "-", '?');
  }

  /** `://` and `/?` each collapse to one dash (`x/?desktop` is a desktop
      address and loses its suffix instead). */
  lemma SeparatorsCollapse(x: string, y: string)
    requires PlainPart(x) && PlainPart(y) && y != "desktop"
    ensures UrlWithDashes(x + "://" + y) == x + "-" + y
    ensures UrlWithDashes(x + "/?" + y) == x + "-" + y
  {
    assert NoAltStart(x, DashAlts) && NoAltStart(y, DashAlts);
    assert DashAlts[0] == "://" && DashAlts[2] == "/?";
    assert NoChar(x + "://" + y, '?') by {
      forall k | 0 <= k < |x + "://" + y| ensures (x + "://" + y)[k] != '?' {
        if k >= |x| + 3 { assert (x + "://" + y)[k] == y[k - |x| - 3]; }
      }
    }
    NoQueryKept(x + "://" + y);
    SplitTwo(x, 0, y, DashAlts);
    if "://" <= "/?" + y { assert false; }
    if ":" <= "/?" + y { assert false; }
    assert FirstAlt("/?" + y, DashAlts) == 2;
    DesktopAfterSlash(x, y);
    SplitTwo(x, 2, y, DashAlts);
  }

  /** A `?`-free address has no `?desktop` suffix to strip. */
  lemma NoQueryKept(s: string)
    requires NoChar(s, '?')
    ensures StripDesktopSuffix(s) == s
  {
    if |s| >= 8 {
      assert s[|s| - 8..][0] == s[|s| - 8];
    }
  }

  /** With its only `?` right after a slash, an address ends with
      `?desktop` only when the rest is `desktop`. */
  lemma DesktopAfterSlash(x: string, y: string)
    requires PlainPart(x) && PlainPart(y)
    ensures EndsWith(x + "/?" + y, DesktopQuery) ==> y == "desktop"
  {
    var s := x + "/?" + y;
    forall k | 0 <= k < |s| ensures s[k] == '?' ==> k == |x| + 1 {
      if k < |x| {
        assert s[k] == x[k];
      } else if k >= |x| + 2 {
        assert s[k] == y[k - |x| - 2];
      }
    }
    if EndsWith(s, DesktopQuery) {
      assert s[|s| - 8..][0] == s[|s| - 8];
      assert y == s[|x| + 2..];
      assert s[|s| - 7..] == s[|s| - 8..][1..];
    }
  }

  /** `destinationDir` starts with `/` and has the report type, the commit,
      the dashed address and the type as its components. */
  function DestinationDir(url: string, t: string, commitHash: string, branch: string): (d: string)
    ensures |d| > 0 && d[0] == '/'
  {
    "/" + ReportType(branch) + "/" + commitHash + "/" + UrlWithDashes(url) + "/" + t
  }

  /** The requests `upload` sends: one per run, all with the same placeholder
      body and without an ACL. */
  function Upload(htmlRuns: seq<string>, branch: string, url: string, t: string, commitHash: string): (r: seq<PutObject>)
    ensures |r| == |htmlRuns|
    ensures forall i :: 0 <= i < |r| ==>
              && r[i].body == PlaceholderBody && r[i].acl == None
              && Under(DestinationDir(url, t, commitHash, branch), r[i].key)
    ensures forall i, j :: 0 <= i < j < |r| ==> r[i].key != r[j].key
  {
    var dir := DestinationDir(url, t, commitHash, branch);
    UploadsShape(htmlRuns, dir, FixedBody(PlaceholderBody), None);
    Uploads(htmlRuns, dir, FixedBody(PlaceholderBody), None)
  }
}
