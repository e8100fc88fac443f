// What the three Lighthouse upload paths share: the report type chosen by
// the branch, the per-report object keys `<dir>/<n>.html`, and the fixed S3
// request settings.
module ReportKeys {
  import opened Wrappers
  import opened JsString
  import opened Decimal

  const Bucket := "docs-lighthouse"
  const HtmlType := "text/html"
  const NoCache := "no-cache"
  const PublicRead := "public-read"
  /** The page address prefix of the local Lighthouse server. */
  const LocalServer := "http://localhost:9000/"
  const DesktopQuery := "?desktop"

  datatype FormFactor = Mobile | Desktop

  function FormFactorName(t: FormFactor): (r: string)
    ensures r == "mobile" || r == "desktop"
  {
    match t
    case Mobile => "mobile"
    case Desktop => "desktop"
  }

  /** `process.env.BRANCH_NAME || ''`: an unset or empty variable reads as "". */
  function BranchName(env: map<string, string>): (r: string)
    ensures "BRANCH_NAME" in env ==> r == env["BRANCH_NAME"]
    ensures "BRANCH_NAME" !in env ==> r == ""
  {
    if "BRANCH_NAME" in env then env["BRANCH_NAME"] else ""
  }

  /** Reports of `main` go to `main_reports`, all others to `pr_reports`. */
  function ReportType(branch: string): (r: string)
    ensures r == "main_reports" <==> branch == "main"
    ensures r == "pr_reports" <==> branch != "main"
  {
    if branch == "main" then "main_reports" else "pr_reports"
  }

  /** `key` is an object inside the directory `dir`. */
  predicate Under(dir: string, key: string)
  {
    |key| > |dir| && key[..|dir| + 1] == dir + "/"
  }

  /** The object key of the report at (0-based) position `i`. */
  function ReportKey(dir: string, i: nat): (k: string)
    ensures Under(dir, k)
    ensures EndsWith(k, ".html")
  {
    dir + "/" + NatToString(i + 1) + ".html"
  }

  /** Distinct positions get distinct keys. */
  lemma ReportKeyInjective(dir: string, i: nat, j: nat)
    requires ReportKey(dir, i) == ReportKey(dir, j)
    ensures i == j
  {
    var a, b := NatToString(i + 1), NatToString(j + 1);
    var ka, kb := ReportKey(dir, i), ReportKey(dir, j);
    assert |a| == |b| by {
      assert |ka| == |dir| + 1 + |a| + 5;
      assert |kb| == |dir| + 1 + |b| + 5;
    }
    assert a == ka[|dir| + 1..|dir| + 1 + |a|];
    assert b == kb[|dir| + 1..|dir| + 1 + |b|];
    NatToStringInjective(i + 1, j + 1);
  }

  /** What each request carries besides its key and body. */
  datatype PutObject = PutObject(body: string, key: string, bucket: string,
                                 contentType: string, cacheControl: string, acl: Option<string>)

  /** Where the body of a request comes from: the report itself, or one
      fixed text for every report. */
  datatype Body = ReportBody | FixedBody(text: string)

  function BodyOf(b: Body, report: string): string
  {
    match b
    case ReportBody => report
    case FixedBody(t) => t
  }

  /** `htmlRuns.map((htmlReport, i) => ...)`: one request per report, in
      input order. */
  function Uploads(runs: seq<string>, dir: string, body: Body, acl: Option<string>): (r: seq<PutObject>)
    ensures |r| == |runs|
    ensures forall i :: 0 <= i < |r| ==>
              && r[i].key == ReportKey(dir, i)
              && r[i].body == BodyOf(body, runs[i])
              && r[i].bucket == Bucket && r[i].contentType == HtmlType
              && r[i].cacheControl == NoCache && r[i].acl == acl
  {
    seq(|runs|, i requires 0 <= i < |runs| =>
      PutObject(BodyOf(body, runs[i]), ReportKey(dir, i), Bucket, HtmlType, NoCache, acl))
  }

  /** Every request of a batch is under the directory, and no two of them
      overwrite each other. */
  lemma UploadsShape(runs: seq<string>, dir: string, body: Body, acl: Option<string>)
    ensures var r := Uploads(runs, dir, body, acl);
            && (forall i :: 0 <= i < |r| ==> Under(dir, r[i].key))
            && (forall i, j :: 0 <= i < j < |r| ==> r[i].key != r[j].key)
  {
    var r := Uploads(runs, dir, body, acl);
    forall i, j | 0 <= i < j < |r| ensures r[i].key != r[j].key {
      UploadKeysDistinct(runs, dir, body, acl, i, j);
    }
  }

  /** No two uploads of one batch overwrite each other. */
  lemma UploadKeysDistinct(runs: seq<string>, dir: string, body: Body, acl: Option<string>, i: nat, j: nat)
    requires i < |runs| && j < |runs| && i != j
    ensures Uploads(runs, dir, body, acl)[i].key != Uploads(runs, dir, body, acl)[j].key
  {
    if ReportKey(dir, i) == ReportKey(dir, j) {
      ReportKeyInjective(dir, i, j);
    }
  }

  /** `url.endsWith('?desktop') ? url.slice(0, -8) : url`. */
  function StripDesktopSuffix(url: string): (r: string)
    ensures EndsWith(url, DesktopQuery) ==> r + DesktopQuery == url
    ensures !EndsWith(url, DesktopQuery) ==> r == url
  {
    if EndsWith(url, DesktopQuery) then url[..|url| - 8] else url
  }

  /** Appending `?desktop` to a page and stripping it gives the page back. */
  lemma StripDesktopAppended(page: string)
    ensures StripDesktopSuffix(page + DesktopQuery) == page
  {
    var u := page + DesktopQuery;
    assert u[|u| - 8..] == DesktopQuery;
    assert u[..|u| - 8] == page;
  }
}
