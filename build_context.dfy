// The string rules Lighthouse CI's build context applies to environment
// variables and to the output of git (the `build-context` module bundled in
// dist/upload-lighthouse/index.js). The environment is a map and running a
// command is a function from the command and its arguments to its outcome.
module BuildContext {
  import opened Wrappers
  import opened JsString

  /** What `spawnSync(command, args, {encoding: 'utf8'})` reports: the exit
      status and the text written to standard output, or that the process
      could not be run at all (no status, no output). */
  datatype Run = Ran(status: int, stdout: string) | NotRun

  type Spawn = (string, seq<string>) -> Run

  predicate Succeeded(r: Run)
  {
    r.Ran? && r.status == 0
  }

  /** `process.env[name]` is truthy: set and not empty. */
  predicate IsSet(env: map<string, string>, name: string)
  {
    name in env && env[name] != ""
  }

  /** `getEnvVarIfSet`: the value of the first variable in priority order that
      is set to a non-empty value. */
  function FirstSet(env: map<string, string>, names: seq<string>): (r: Option<string>)
    ensures r.None? <==> forall k :: 0 <= k < |names| ==> !IsSet(env, names[k])
    ensures r.Some? ==> exists k :: 0 <= k < |names| && IsSet(env, names[k]) && r.value == env[names[k]]
                                    && forall j :: 0 <= j < k ==> !IsSet(env, names[j])
  {
    if names == [] then None
    else if IsSet(env, names[0]) then Some(env[names[0]])
    else
      var r := FirstSet(env, names[1..]);
      FirstSetShift(env, names, r);
      r
  }

  /** What holds of the variables after the first holds of all of them when
      the first is not set. */
  lemma FirstSetShift(env: map<string, string>, names: seq<string>, r: Option<string>)
    requires |names| > 0 && !IsSet(env, names[0])
    requires r.None? <==> forall k :: 0 <= k < |names[1..]| ==> !IsSet(env, names[1..][k])
    requires r.Some? ==> exists k :: 0 <= k < |names[1..]| && IsSet(env, names[1..][k]) && r.value == env[names[1..][k]]
                                     && forall j :: 0 <= j < k ==> !IsSet(env, names[1..][j])
    ensures r.None? <==> forall k :: 0 <= k < |names| ==> !IsSet(env, names[k])
    ensures r.Some? ==> exists k :: 0 <= k < |names| && IsSet(env, names[k]) && r.value == env[names[k]]
                                    && forall j :: 0 <= j < k ==> !IsSet(env, names[j])
  {
    assert forall k :: 1 <= k < |names| ==> names[k] == names[1..][k - 1];
    if r.Some? {
      var k :| 0 <= k < |names[1..]| && IsSet(env, names[1..][k]) && r.value == env[names[1..][k]]
               && forall j :: 0 <= j < k ==> !IsSet(env, names[1..][j]);
      assert names[k + 1] == names[1..][k];
      forall j | 0 <= j < k + 1 ensures !IsSet(env, names[j]) {
        if j > 0 {
          assert names[j] == names[1..][j - 1];
        }
      }
    }
  }

  /** The loop of `getEnvVarIfSet`. */
  method GetEnvVarIfSet(env: map<string, string>, names: seq<string>) returns (r: Option<string>)
    ensures r == FirstSet(env, names)
  {
    var i := 0;
    while i < |names|
      invariant 0 <= i <= |names|
      invariant FirstSet(env, names) == FirstSet(env, names[i..])
    {
      assert names[i..][1..] == names[i + 1..];
      if names[i] in env && env[names[i]] != "" {
        return Some(env[names[i]]);
      }
      i := i + 1;
    }
    return None;
  }

  /** Variables consulted only by a rule are unaffected by variables that
      are not among them. */
  lemma {:induction false} FirstSetIgnores(env: map<string, string>, names: seq<string>, other: set<string>)
    requires forall k :: 0 <= k < |names| ==> names[k] !in other
    ensures FirstSet(env - other, names) == FirstSet(env, names)
    decreases |names|
  {
    if names != [] {
      assert IsSet(env - other, names[0]) == IsSet(env, names[0]);
      FirstSetIgnores(env, names[1..], other);
    }
  }

  const BranchVars := [
    "LHCI_BUILD_CONTEXT__CURRENT_BRANCH",
    "TRAVIS_PULL_REQUEST_BRANCH", "TRAVIS_BRANCH",
    "GITHUB_HEAD_REF", "GITHUB_REF",
    "CIRCLE_BRANCH",
    "CI_EXTERNAL_PULL_REQUEST_SOURCE_BRANCH_NAME", "CI_MERGE_REQUEST_SOURCE_BRANCH_NAME", "CI_COMMIT_REF_NAME",
    "DRONE_BRANCH"]

  const BranchRawError := "Unable to determine current branch with `git rev-parse --abbrev-ref HEAD`. "
    + "This can be overridden with setting LHCI_BUILD_CONTEXT__CURRENT_BRANCH env."
  const BranchError := "Unable to determine current branch"
  const RefsHeads := "refs/heads/"
  const BranchCap := 40

  /** The trimmed output of `git rev-parse --abbrev-ref HEAD`, or "" when
      there is none (the `typeof result.stdout === 'string'` test). */
  function GitBranch(spawn: Spawn): (b: string)
    ensures spawn("git", ["rev-parse", "--abbrev-ref", "HEAD"]).NotRun? ==> b == ""
  {
    match spawn("git", ["rev-parse", "--abbrev-ref", "HEAD"])
    case Ran(_, out) => Trim(out)
    case NotRun => ""
  }

  /** `getCurrentBranchRaw_`: a CI variable, else what git names the checked
      out branch; a detached HEAD, a failed or silent git is an error. */
  function CurrentBranchRaw(env: map<string, string>, spawn: Spawn): (r: Result<string, string>)
    ensures FirstSet(env, BranchVars).Some? ==> r == Ok(FirstSet(env, BranchVars).value)
    ensures FirstSet(env, BranchVars).None? ==>
              (r.Ok? <==> Succeeded(spawn("git", ["rev-parse", "--abbrev-ref", "HEAD"]))
                          && GitBranch(spawn) != "" && GitBranch(spawn) != "HEAD")
    ensures FirstSet(env, BranchVars).None? && r.Ok? ==> r.value == GitBranch(spawn)
    ensures r.Ok? ==> r.value != ""
    ensures r.Err? ==> r.error == BranchRawError
  {
    var envBranch := FirstSet(env, BranchVars);
    if envBranch.Some? then Ok(envBranch.value)
    else
      var result := spawn("git", ["rev-parse", "--abbrev-ref", "HEAD"]);
      var branch := GitBranch(spawn);
      if !Succeeded(result) || branch == "" || branch == "HEAD" then Err(BranchRawError)
      else Ok(branch)
  }

  /** `getCurrentBranch`: the raw branch without its first `refs/heads/`,
      cut to 40 characters. */
  function CurrentBranch(env: map<string, string>, spawn: Spawn): (r: Result<string, string>)
    ensures r.Ok? <==> CurrentBranchRaw(env, spawn).Ok? && CurrentBranchRaw(env, spawn).value != "HEAD"
    ensures CurrentBranchRaw(env, spawn) == Ok("HEAD") ==> r == Err(BranchError)
    ensures CurrentBranchRaw(env, spawn).Err? ==> r == CurrentBranchRaw(env, spawn)
    ensures r.Ok? ==> |r.value| <= BranchCap
  {
    match CurrentBranchRaw(env, spawn)
    case Err(e) => Err(e)
    case Ok(branch) =>
      if branch == "HEAD" then Err(BranchError)
      else Ok(Take(ReplaceFirst(branch, RefsHeads, ""), BranchCap))
  }

  /** GitHub Actions' `GITHUB_REF=refs/heads/<name>` gives `<name>` when no
      variable before it is set and the name is short enough. */
  lemma GitHubRefBranch(env: map<string, string>, spawn: Spawn, name: string)
    requires forall k :: 0 <= k < 4 ==> !IsSet(env, BranchVars[k])
    requires "GITHUB_REF" in env && env["GITHUB_REF"] == RefsHeads + name
    requires |name| <= BranchCap
    ensures CurrentBranch(env, spawn) == Ok(name)
  {
    assert BranchVars[4] == "GITHUB_REF";
    assert IsSet(env, BranchVars[4]);
    assert FirstSet(env, BranchVars) == Some(RefsHeads + name) by {
      FirstSetAt(env, BranchVars, 4);
    }
    assert RefsHeads + name != "HEAD" by {
      assert (RefsHeads + name)[0] == 'r';
    }
    ReplaceFirstPrefix(RefsHeads, name, "");
    assert "" + name == name;
  }

  /** The value of the first set variable when every variable before it is
      unset. */
  lemma {:induction false} FirstSetAt(env: map<string, string>, names: seq<string>, k: nat)
    requires k < |names| && IsSet(env, names[k])
    requires forall j :: 0 <= j < k ==> !IsSet(env, names[j])
    ensures FirstSet(env, names) == Some(env[names[k]])
    decreases k
  {
    if k > 0 {
      assert names[1..][k - 1] == names[k];
      assert forall j :: 0 <= j < k - 1 ==> names[1..][j] == names[j + 1];
      FirstSetAt(env, names[1..], k - 1);
    }
  }

  /** A branch name with no `refs/heads/` in it and at most 40 characters
      comes back unchanged. */
  lemma PlainBranchKept(env: map<string, string>, spawn: Spawn)
    requires CurrentBranchRaw(env, spawn).Ok?
    requires var b := CurrentBranchRaw(env, spawn).value; b != "HEAD" && !Contains(b, RefsHeads) && |b| <= BranchCap
    ensures CurrentBranch(env, spawn) == CurrentBranchRaw(env, spawn)
  {
    ReplaceFirstAbsent(CurrentBranchRaw(env, spawn).value, RefsHeads, "");
  }

  const MessageVars := ["LHCI_BUILD_CONTEXT__COMMIT_MESSAGE", "CI_COMMIT_MESSAGE"]
  const MessageError := "Unable to determine commit message with `git log --format=%s -n 1`. "
    + "This can be overridden with setting LHCI_BUILD_CONTEXT__COMMIT_MESSAGE env."
  const MessageCap := 80
  const AuthorVars := ["LHCI_BUILD_CONTEXT__AUTHOR", "CI_COMMIT_AUTHOR"]
  const AuthorError := "Unable to determine commit author with `git log --format=%aN <%aE> -n 1`. "
    + "This can be overridden with setting LHCI_BUILD_CONTEXT__AUTHOR env."
  const AuthorCap := 256

  /** The shared shape of `getCommitMessage` and `getAuthor`: a variable
      or the output of git, trimmed and cut to `cap` characters; a failed git
      is an error. */
  function CappedField(env: map<string, string>, vars: seq<string>, result: Run, cap: nat, error: string)
    : (r: Result<string, string>)
    ensures r.Err? <==> FirstSet(env, vars).None? && !Succeeded(result)
    ensures r.Err? ==> r.error == error
    ensures r.Ok? ==> |r.value| <= cap
    ensures FirstSet(env, vars).Some? ==> r.Ok? && r.value <= Trim(FirstSet(env, vars).value)
    ensures FirstSet(env, vars).None? && r.Ok? ==> r.value <= Trim(result.stdout)
    ensures r.Ok? && |r.value| < cap ==>
              r.value == Trim(if FirstSet(env, vars).Some? then FirstSet(env, vars).value else result.stdout)
  {
    var envValue := FirstSet(env, vars);
    if envValue.Some? then Ok(Take(Trim(envValue.value), cap))
    else if !Succeeded(result) then Err(error)
    else Ok(Take(Trim(result.stdout), cap))
  }

  /** `getCommitMessage(hash)`: at most 80 characters. */
  function CommitMessage(env: map<string, string>, hash: string, spawn: Spawn): (r: Result<string, string>)
    ensures r.Ok? ==> |r.value| <= MessageCap
    ensures r.Err? <==> FirstSet(env, MessageVars).None? && !Succeeded(spawn("git", ["log", "--format=%s", "-n", "1", hash]))
    ensures r.Err? ==> r.error == MessageError
  {
    CappedField(env, MessageVars, spawn("git", ["log", "--format=%s", "-n", "1", hash]), MessageCap, MessageError)
  }

  /** `getAuthor(hash)`: at most 256 characters. */
  function Author(env: map<string, string>, hash: string, spawn: Spawn): (r: Result<string, string>)
    ensures r.Ok? ==> |r.value| <= AuthorCap
    ensures r.Err? <==> FirstSet(env, AuthorVars).None? && !Succeeded(spawn("git", ["log", "--format=%aN <%aE>", "-n", "1", hash]))
    ensures r.Err? ==> r.error == AuthorError
  {
    CappedField(env, AuthorVars, spawn("git", ["log", "--format=%aN <%aE>", "-n", "1", hash]), AuthorCap, AuthorError)
  }

  /** A commit message set by the manual override wins over git and is only
      trimmed when it is short. */
  lemma OverrideMessage(env: map<string, string>, hash: string, spawn: Spawn, m: string)
    requires "LHCI_BUILD_CONTEXT__COMMIT_MESSAGE" in env && env["LHCI_BUILD_CONTEXT__COMMIT_MESSAGE"] == m && m != ""
    requires |Trim(m)| <= MessageCap
    ensures CommitMessage(env, hash, spawn) == Ok(Trim(m))
  {
    assert IsSet(env, MessageVars[0]);
    FirstSetAt(env, MessageVars, 0);
  }

  /** No character of `s` is whitespace. */
  predicate NoSpace(s: string)
  {
    forall k :: 0 <= k < |s| ==> !IsWhitespace(s[k])
  }

  /** `\S+@\S+`: non-whitespace text with an `@` that has text on both
      sides. */
  predicate EmailLike(g: string)
  {
    NoSpace(g) && exists k :: 0 < k < |g| - 1 && g[k] == '@'
  }

  /** / <(\S+@\S+)>$/ matches at `i`, the group being what lies between
      ` <` and the final `>`. */
  predicate EmailAt(a: string, i: int)
  {
    0 <= i && i + 2 < |a| && a[i] == ' ' && a[i + 1] == '<' && a[|a| - 1] == '>'
    && EmailLike(a[i + 2..|a| - 1])
  }

  /** The leftmost match at or after `i`. */
  function EmailStart(a: string, i: nat): (r: Option<nat>)
    ensures r.Some? ==> i <= r.value && EmailAt(a, r.value)
    ensures r.Some? ==> forall j :: i <= j < r.value ==> !EmailAt(a, j)
    ensures r.None? ==> forall j :: i <= j ==> !EmailAt(a, j)
    decreases |a| - i
  {
    if i + 2 >= |a| then None
    else if EmailAt(a, i) then Some(i)
    else EmailStart(a, i + 1)
  }

  /** `getEmailFromAuthor`: the address in a trailing ` <name@host>`, or
      nothing (`null`). */
  function EmailFromAuthor(author: string): (r: Option<string>)
    ensures r.Some? <==> exists i :: EmailAt(author, i)
    ensures r.Some? ==> EmailLike(r.value) && EndsWith(author, " <" + r.value + ">")
  {
    match EmailStart(author, 0)
    case None => None
    case Some(i) =>
      var g := author[i + 2..|author| - 1];
      assert author[|author| - |" <" + g + ">"|..] == " <" + g + ">";
      Some(g)
  }

  /** The match is unique: a group of non-whitespace text leaves room for one
      ` <` only, the one after the last whitespace. */
  lemma EmailAtUnique(a: string, i: int, j: int)
    requires EmailAt(a, i) && EmailAt(a, j)
    ensures i == j
  {
  }

  /** What git prints for `%aN <%aE>` gives the address back, whatever the
      name holds. */
  lemma EmailRoundTrip(name: string, email: string)
    requires EmailLike(email)
    ensures EmailFromAuthor(name + " <" + email + ">") == Some(email)
  {
    var a := name + " <" + email + ">";
    var i := |name|;
    assert a[i + 2..|a| - 1] == email;
    assert EmailAt(a, i);
    var r := EmailFromAuthor(a);
    var j := EmailStart(a, 0).value;
    EmailAtUnique(a, i, j);
  }

  /** An author without an address in angle brackets at its end gives none. */
  lemma NoBracketNoEmail(author: string)
    requires !EndsWith(author, ">")
    ensures EmailFromAuthor(author) == None
  {
    if |author| > 0 {
      assert author[|author| - 1..] == [author[|author| - 1]];
    }
  }

  /** `runCommandsUntilFirstSuccess`, as a value: the outcome of the first
      command that exits with 0, or of the last command when none does;
      nothing when there is no command. */
  function FirstSuccess(commands: seq<(string, seq<string>)>, spawn: Spawn): (r: Option<Run>)
    ensures r.None? <==> commands == []
    ensures r.Some? ==> exists k :: 0 <= k < |commands| && r.value == spawn(commands[k].0, commands[k].1)
    ensures r.Some? ==> (Succeeded(r.value) <==>
              exists k :: 0 <= k < |commands| && Succeeded(spawn(commands[k].0, commands[k].1)))
    ensures r.Some? && !Succeeded(r.value) ==> r.value == spawn(commands[|commands| - 1].0, commands[|commands| - 1].1)
  {
    if commands == [] then None
    else
      var result := spawn(commands[0].0, commands[0].1);
      if Succeeded(result) || |commands| == 1 then Some(result)
      else
        var r := FirstSuccess(commands[1..], spawn);
        FirstSuccessShift(commands, spawn, r);
        r
  }

  /** The outcome of the commands after a first one that failed is the
      outcome of them all. */
  lemma FirstSuccessShift(commands: seq<(string, seq<string>)>, spawn: Spawn, r: Option<Run>)
    requires |commands| > 1 && !Succeeded(spawn(commands[0].0, commands[0].1))
    requires r.Some?
    requires exists k :: 0 <= k < |commands[1..]| && r.value == spawn(commands[1..][k].0, commands[1..][k].1)
    requires Succeeded(r.value) <==>
               exists k :: 0 <= k < |commands[1..]| && Succeeded(spawn(commands[1..][k].0, commands[1..][k].1))
    requires !Succeeded(r.value) ==> r.value == spawn(commands[1..][|commands[1..]| - 1].0, commands[1..][|commands[1..]| - 1].1)
    ensures exists k :: 0 <= k < |commands| && r.value == spawn(commands[k].0, commands[k].1)
    ensures Succeeded(r.value) <==> exists k :: 0 <= k < |commands| && Succeeded(spawn(commands[k].0, commands[k].1))
    ensures !Succeeded(r.value) ==> r.value == spawn(commands[|commands| - 1].0, commands[|commands| - 1].1)
  {
    assert forall k :: 1 <= k < |commands| ==> commands[k] == commands[1..][k - 1];
    var k :| 0 <= k < |commands[1..]| && r.value == spawn(commands[1..][k].0, commands[1..][k].1);
    assert commands[1..][k] == commands[k + 1];
    if Succeeded(r.value) {
      assert Succeeded(spawn(commands[k + 1].0, commands[k + 1].1));
    } else {
      forall j | 0 <= j < |commands| ensures !Succeeded(spawn(commands[j].0, commands[j].1)) {
        if j > 0 {
          assert commands[j] == commands[1..][j - 1];
        }
      }
    }
  }

  const NoCommandError := "Must specify at least one command"

  /** The loop of `runCommandsUntilFirstSuccess`: runs the commands in
      order and stops at the first that exits with 0. */
  method RunCommandsUntilFirstSuccess(commands: seq<(string, seq<string>)>, spawn: Spawn)
    returns (r: Result<Run, string>)
    ensures commands == [] ==> r == Err(NoCommandError)
    ensures commands != [] ==> r == Ok(FirstSuccess(commands, spawn).value)
  {
    var result: Option<Run> := None;
    var i := 0;
    while i < |commands|
      invariant 0 <= i <= |commands|
      invariant i == 0 <==> result.None?
      invariant i < |commands| ==> FirstSuccess(commands, spawn) == FirstSuccess(commands[i..], spawn)
      invariant i == |commands| && i > 0 ==> FirstSuccess(commands, spawn) == result
    {
      result := Some(spawn(commands[i].0, commands[i].1));
      assert commands[i..][0] == commands[i];
      if result.value.Ran? && result.value.status == 0 {
        return Ok(result.value);
      }
      assert commands[i..][1..] == commands[i + 1..];
      i := i + 1;
    }
    if result.None? {
      return Err(NoCommandError);
    }
    return Ok(result.value);
  }

  /** The commit hash an ancestor lookup prints, or "" when git failed
      (the ancestor is optional). */
  function HashFrom(result: Run): (h: string)
    ensures !Succeeded(result) ==> h == ""
    ensures Succeeded(result) ==> h == Trim(result.stdout)
    ensures |h| > 0 ==> !IsWhitespace(h[0]) && !IsWhitespace(h[|h| - 1])
  {
    if !Succeeded(result) then "" else Trim(result.stdout)
  }

  /** `getAncestorHashForBase`: the parent of `hash`. */
  function AncestorHashForBase(hash: string, spawn: Spawn): (h: string)
    ensures h == HashFrom(spawn("git", ["rev-parse", hash + "^"]))
  {
    HashFrom(spawn("git", ["rev-parse", hash + "^"]))
  }

  function MergeBaseCommands(hash: string, baseBranch: string): seq<(string, seq<string>)>
  {
    [("git", ["merge-base", hash, "origin/" + baseBranch]), ("git", ["merge-base", hash, baseBranch])]
  }

  /** `getAncestorHashForBranch`: the merge base with `origin/<base>`, else
      with `<base>`, else "". */
  function AncestorHashForBranch(hash: string, baseBranch: string, spawn: Spawn): (h: string)
    ensures var remote := spawn("git", ["merge-base", hash, "origin/" + baseBranch]);
            var local := spawn("git", ["merge-base", hash, baseBranch]);
            h == if Succeeded(remote) then HashFrom(remote) else HashFrom(local)
  {
    var cmds := MergeBaseCommands(hash, baseBranch);
    var r := FirstSuccess(cmds, spawn);
    HashFrom(r.value)
  }

  const AncestorVars := ["LHCI_BUILD_CONTEXT__ANCESTOR_HASH", "CI_COMMIT_BEFORE_SHA"]
  /** The "before" commit GitLab reports for a new branch. */
  const NoAncestor := "0000000000000000000000000000000000000000"

  /** `getAncestorHash`: an override that is not all zeros, else the parent
      of `hash` on the base branch itself, else the merge base with it. */
  function AncestorHash(env: map<string, string>, hash: string, baseBranch: string, spawn: Spawn)
    : (r: Result<string, string>)
    ensures FirstSet(env, AncestorVars).Some? && FirstSet(env, AncestorVars).value != NoAncestor ==>
              r == Ok(FirstSet(env, AncestorVars).value)
    ensures (FirstSet(env, AncestorVars).None? || FirstSet(env, AncestorVars).value == NoAncestor) ==>
              && (r.Err? <==> CurrentBranch(env, spawn).Err?)
              && (r.Err? ==> r.error == CurrentBranch(env, spawn).error)
              && (r.Ok? && CurrentBranch(env, spawn).value == baseBranch ==> r.value == AncestorHashForBase(hash, spawn))
              && (r.Ok? && CurrentBranch(env, spawn).value != baseBranch ==>
                    r.value == AncestorHashForBranch(hash, baseBranch, spawn))
  {
    var envHash := FirstSet(env, AncestorVars);
    if envHash.Some? && envHash.value != NoAncestor then Ok(envHash.value)
    else
      match CurrentBranch(env, spawn)
      case Err(e) => Err(e)
      case Ok(branch) =>
        Ok(if branch == baseBranch then AncestorHashForBase(hash, spawn)
           else AncestorHashForBranch(hash, baseBranch, spawn))
  }

  /** An all-zeros override counts as no override at all, the fallback to
      `CI_COMMIT_BEFORE_SHA` included: the result is what git finds with
      both variables removed. */
  lemma ZeroAncestorIgnored(env: map<string, string>, hash: string, baseBranch: string, spawn: Spawn)
    requires FirstSet(env, AncestorVars) == Some(NoAncestor)
    ensures AncestorHash(env, hash, baseBranch, spawn)
         == AncestorHash(env - {AncestorVars[0], AncestorVars[1]}, hash, baseBranch, spawn)
  {
    var other := {AncestorVars[0], AncestorVars[1]};
    var reduced := env - other;
    assert FirstSet(reduced, AncestorVars) == None by {
      assert !IsSet(reduced, AncestorVars[0]) && !IsSet(reduced, AncestorVars[1]);
    }
    FirstSetIgnores(env, BranchVars, other);
  }
}
