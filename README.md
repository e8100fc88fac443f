# A Dafny model of the glob engine bundled in `upload-lighthouse`

The `upload-lighthouse` GitHub Action ships as one bundle,
`dist/upload-lighthouse/index.js`. This project models its algorithmic core:
the glob pattern engine vendored into that bundle. It also models the small
helpers the Action uses around that engine.

- **balanced-match** (`Balanced`): finds the first balanced `{…}` pair and
  the string before, inside and after it.
- **brace-expansion** (`BraceExpansion`, `BraceExpander`): escaping,
  comma sets, numeric and alphabetic sequences with padding and steps, and
  the cartesian product of nested sets. Pure functions give the
  specification. The bundle's loops are methods proved equal to them.
- **minimatch**:
  - `MinimatchParse` and `MinimatchParseFacts`: the per-segment parser that
    turns a glob segment into a regular-expression source. It covers
    `*`, `?`, character classes, extglob groups `+(…)`, `*(…)`, `?(…)`,
    `@(…)` and `!(…)`, and escapes.
  - `MinimatchCompiler` and `MinimatchMake`: negation, comments, brace
    expansion and splitting on `/`.
  - `MinimatchMatch` and `MinimatchMatcher`: `matchOne` with its `**`
    backtracking, as a specification relation and as the bundle's loop.
  - `MinimatchObject`: the `Minimatch` class, `minimatch()`, `filter` and
    `match`, with `ext` in `OptionMerge`.
- **glob**:
  - `GlobCommon`: option setup, ignore handling, `makeAbs`, `isIgnored` and
    `childrenIgnored`, and `finish` with `nonull`, `nounique`, `nosort`,
    `mark` and `nodir`.
  - `GlobSyncSpec` and `GlobSyncModel`: the synchronous walker
    (`GlobSync`) over an abstract file system, with its caches.
- **helpers**:
  - `EscapeRegexp`: escape-string-regexp.
  - `ConcatMap`: concat-map.
  - `Marky`: the timer's binary-search `insertSorted`.
  - `DebugNamespaces`: debug's `enable`, `enabled`, `disable` and
    `selectColor`.
  - `BuildContext`: the CI build-context rules.
  - `ChromeLauncher`: chrome-launcher's path and flag helpers.
  - `StableSort`: the stable `Array.prototype.sort`, as `alphasort` and
    chrome-finder use it.
- `ParserVersion`: `getParserVersion`.
- `ReportKeys`, `UploadToS3`, `UploadToS3Dashed` and `UploadLighthouse`:
  the three S3 key derivations for Lighthouse reports.

Several things the core reaches but cannot see are parameters of the model:

- the file system (`readdir`, `stat`, `lstat`, realpath);
- path `join` and `resolve` and the process working directory;
- the JavaScript regular-expression engine (`Engine`), given the sources
  the model builds: whether a source compiles, and whether it matches;
- `localeCompare`, as an ordering function;
- the clock;
- the environment variables and the output of `git`.

JavaScript strings are modelled as `seq<char>`. Object key order,
`Array.prototype` behaviour and `String.prototype` behaviour are modelled
in `JsObject` and `JsString`.

## Model

| member | source | states |
|---|---|---|
| Balanced.Range | dist/upload-lighthouse/index.js:436-474 | the begs-stack loop of `range` returns exactly the specified first range: nothing when there is no `a` or no later `b`, the first `a` with its closing `b`, or the first later closed `a` when the first `a` never closes |
| Balanced.BalancedMatch | dist/upload-lighthouse/index.js:415-428 | `balanced` returns nothing exactly when `range` does, and otherwise the match object built from `range`'s positions |
| Balanced.BalancedSpec | dist/upload-lighthouse/index.js:415-428 | a match exists iff a range does, and then `pre + a + body + b + post == str`, `start == |pre|`, `end == start + 1 + |body|` (so `start < end`), and the body is balanced when the delimiters differ |
| Balanced.Cut | dist/upload-lighthouse/index.js:420-427 | the slices taken around an `a` at `i` and a later `b` at `j` put the string back together, with `start` and `end` at those positions |
| Balanced.RangeFound | dist/upload-lighthouse/index.js:438-442 | a range exists iff some `a` is followed later by some `b` |
| Balanced.RangeShape | dist/upload-lighthouse/index.js:436-474 | a returned range is an `a` and a later `b`, and for distinct delimiters the `b` closes that `a` with balanced text between |
| Balanced.RangeStart | dist/upload-lighthouse/index.js:447-470 | the range starts at the first `a` iff that `a` is closed; otherwise no `a` between the first one and the range start is closed |
| Balanced.FlatRange | dist/upload-lighthouse/index.js:436-474 | with no `a` before `i` and no delimiter between `i` and `j`, the range is exactly `(i, j)` |
| Balanced.FallbackExists | dist/upload-lighthouse/index.js:469-471 | when the first `a` is never closed but a `b` follows it, some later `a` is closed, so the fallback `[left, right]` has a value |
| Balanced.CloserIsClosedBy | dist/upload-lighthouse/index.js:447-466 | the depth-counting closer of an `a` is the `b` that closes it with balanced text in between, and no other |
| Balanced.PairBalanced | dist/upload-lighthouse/index.js:447-466 | one `a`…`b` pair in delimiter-free text is balanced text |
| Balanced.BalancedAround | dist/upload-lighthouse/index.js:415-474 | with no `a` before it, an `a` followed by balanced text and a `b` is the match `balanced` finds, with `pre`, `body` and `post` around it |
| Balanced.ClosedByUnique | dist/upload-lighthouse/index.js:447-466 | an `a` is closed by at most one `b` |
| Balanced.NoCloserToEnd | dist/upload-lighthouse/index.js:447-466 | an `a` whose depth never falls below zero up to the end of the string has no closer |
| Balanced.ScanStep | dist/upload-lighthouse/index.js:448-463 | one turn of the loop (push an `a`, close the first `a`, or pop an inner one and move `bi`) keeps the scan invariant and advances past the current delimiter |
| Balanced.ScanExhausted | dist/upload-lighthouse/index.js:469-471 | when the closing delimiters run out with `a`s still open, the first `a` is never closed and `[left, right]` is the first closed pair after it |
| BraceExpansion.EscapeRoundTripPlain | dist/upload-lighthouse/index.js:499-513 | a pattern without backslashes or NUL characters goes through `escapeBraces` and `unescapeBraces` unchanged |
| BraceExpansion.ParseCommaParts | dist/upload-lighthouse/index.js:519-544 | `parseCommaParts` always returns at least one member (`''` gives `['']`) |
| BraceExpansion.ParseCommaPartsJoin | dist/upload-lighthouse/index.js:519-544 | joining the members with `,` gives back the body, so the split loses and invents nothing |
| BraceExpansion.ParseCommaPartsFlat | dist/upload-lighthouse/index.js:519-528 | a body without `{` is split at every comma, as `str.split(',')` |
| BraceExpansion.Glue | dist/upload-lighthouse/index.js:532-538 | appending `{body}` and the first member of the post parts to the last pre part joins to `pre + {body} + post` |
| BraceExpansion.AnyPadded | dist/upload-lighthouse/index.js:570-572 | `n.some(isPadded)` holds iff some part starts with `0` or `-0` followed by a digit |
| BraceExpansion.HasCommaThenClose | dist/upload-lighthouse/index.js:593 | `post.match(/,.*\}/)` holds iff a `,` is followed later on the same line by a `}` |
| BraceExpansion.ExpandSpec | dist/upload-lighthouse/index.js:581-681 | `expand` produces expansions with no more `{` than the pattern (fewer when there are several), the measure on which its recursion ends |
| BraceExpansion.MemberFlat | dist/upload-lighthouse/index.js:581-681 | `x{d,e}y` with plain parts expands to `[xdy, xey]` below the top level |
| BraceExpansion.NestedParts | dist/upload-lighthouse/index.js:519-544 | `parseCommaParts('m,x{ib}y')` keeps the inner set whole: `['m', 'x{ib}y']` |
| BraceExpansion.TwoMembers | dist/upload-lighthouse/index.js:604-681 | a set of a plain member and a member with its own expansions expands to `pre`, the plain member and then the second member's expansions, combined with `post` |
| BraceExpansion.NestedOptions | dist/upload-lighthouse/index.js:581-681 | `a{b,c{d,e}f}g` expands member by member with the inner set's expansions in its place: `abg`, `acdfg`, `acefg` |
| BraceExpansion.CombineThree | dist/upload-lighthouse/index.js:673-679 | three members, one `post`: the three concatenations in order, when none is empty or empties are kept |
| BraceExpansion.ExpandTop | dist/upload-lighthouse/index.js:546-561 | `expandTop('')` is `[]` |
| BraceExpansion.ProtectLeadingPair | dist/upload-lighthouse/index.js:555-557 | only a pattern starting with `{}` has that pair escaped |
| BraceExpansion.EmbraceAll | dist/upload-lighthouse/index.js:567-569 | `map(embrace)` wraps every member in braces, one for one |
| BraceExpansion.NoSetIsLiteral | dist/upload-lighthouse/index.js:584-585 | a pattern without `{` has no brace set and expands to `[pattern]` |
| BraceExpansion.FlatMatch | dist/upload-lighthouse/index.js:415-428 | with no brace in `pre` or `body`, `balanced('{', '}', …)` finds exactly `{body}` and splits around it |
| BraceExpansion.DollarIsLiteral | dist/upload-lighthouse/index.js:585 | a set right after `$` (`a${b,c}`) is not expanded |
| BraceExpansion.SingleMemberIsLiteral | dist/upload-lighthouse/index.js:587-598 | a set that is neither a sequence nor holds a comma (`a{b}c`) stays as written when no comma-then-brace follows |
| BraceExpansion.OpenEndedIsLiteral | dist/upload-lighthouse/index.js:587-598 | a body `d..` without an upper end (`a{2..}b`) is no sequence, so the set stays as written |
| BraceExpansion.OpenEndedSplit | dist/upload-lighthouse/index.js:602-603 | `'2..'.split(/\.\./)` is `['2', '']`, which is not a sequence's parts |
| BraceExpansion.CommaNotSequence | dist/upload-lighthouse/index.js:587-590 | a body holding a comma matches neither sequence form |
| BraceExpansion.FlatOptions | dist/upload-lighthouse/index.js:581-681 | `a{b,c}d` with plain parts gives one expansion per member, in order, between `pre` and `post`, the empty ones dropped at the top level (so `a{b,}c` gives `abc`, `ac`) |
| BraceExpansion.ExpandTopPlain | dist/upload-lighthouse/index.js:546-561 | a non-empty pattern without braces, backslashes or NUL characters expands to itself alone |
| BraceExpansion.ExpandTopFlat | dist/upload-lighthouse/index.js:546-561 | `expandTop` of a plain `pre{b,c}post` is the member-by-member product with the empty expansions dropped |
| BraceExpansion.ExpandTopExample | dist/upload-lighthouse/index.js:546-561 | `expandTop('a{b,c}d')` is `['abd', 'acd']` |
| BraceExpansion.SeqValueIff | dist/upload-lighthouse/index.js:628-667 | a value is printed iff it lies between the endpoints (either direction) at a whole number of steps of `|incr|` from `x` |
| BraceExpansion.SeqValueBetween | dist/upload-lighthouse/index.js:636-647 | every value lies between the endpoints, counting down when `y < x` |
| BraceExpansion.SeqItemsValueInRange | dist/upload-lighthouse/index.js:648-650 | in an alphabetic sequence every value is a character code between `A` and `z` |
| BraceExpansion.ItemDenotes | dist/upload-lighthouse/index.js:652-662 | a printed number reads back as the same number; its length is `String(i)`'s, or exactly the padding width when padding is on and `String(i)` is shorter |
| BraceExpansion.LeadingZeros | dist/upload-lighthouse/index.js:655-660 | the padding zeros do not change the value of the digits |
| BraceExpansion.CombineLength | dist/upload-lighthouse/index.js:673-679 | keeping every expansion, the nested loops give `|N| * |post|` entries |
| BraceExpansion.CombineAt | dist/upload-lighthouse/index.js:673-679 | entry `j * |post| + k` is `pre + N[j] + post[k]`: members outside, post alternatives inside |
| BraceExpansion.CombineTop | dist/upload-lighthouse/index.js:676 | at the top level of a comma set the expansions are the inner-level ones with the empty strings dropped |
| BraceExpansion.DropEmpty | dist/upload-lighthouse/index.js:676 | dropping the empty expansions keeps only non-empty ones and never adds any |
| BraceExpander.ExpandPattern | dist/upload-lighthouse/index.js:546-561 | the method computes exactly `expandTop`'s specified result |
| BraceExpander.Expand | dist/upload-lighthouse/index.js:581-681 | the recursive method computes exactly the specified `expand` |
| BraceExpander.ExpandBraceSet | dist/upload-lighthouse/index.js:600-681 | the sequence-or-comma-set branch computes the specified expansions |
| BraceExpander.ExpandCommaSet | dist/upload-lighthouse/index.js:604-617 | the comma-set branch computes the specified expansions |
| BraceExpander.ExpandSingleMember | dist/upload-lighthouse/index.js:606-616 | `x{{a,b}}y`: the single member is expanded and braced again, or joined with `post` when it has one expansion |
| BraceExpander.ExpandEach | dist/upload-lighthouse/index.js:668-670 | `concatMap(n, el => expand(el, false))` builds exactly the concatenated expansions |
| BraceExpander.Sequence | dist/upload-lighthouse/index.js:628-667 | the `for` loop prints exactly the specified sequence values |
| BraceExpander.SequenceLoop | dist/upload-lighthouse/index.js:637-667 | the loop from `x` towards `y` prints exactly `SeqCount` values, value `k` being `x` moved `k` steps |
| BraceExpander.SequenceGuard | dist/upload-lighthouse/index.js:642 | `test(i, y)` holds exactly while fewer values than the sequence's count have been printed |
| BraceExpander.Product | dist/upload-lighthouse/index.js:673-679 | the nested loops build exactly the specified product |
| BuildContext.FirstSet | dist/upload-lighthouse/index.js:19-23 | nothing iff no variable in the list is set to a non-empty value; otherwise the value of the first such variable, with every variable before it unset or empty |
| BuildContext.GetEnvVarIfSet | dist/upload-lighthouse/index.js:19-23 | the `for … of` loop returns exactly the specified first set variable |
| BuildContext.FirstSetIgnores | dist/upload-lighthouse/index.js:19-23 | variables outside the priority list do not affect the lookup |
| BuildContext.FirstSetAt | dist/upload-lighthouse/index.js:19-23 | the value of a set variable is taken when every variable before it is unset |
| BuildContext.GitBranch | dist/upload-lighthouse/index.js:141-144 | git's branch is its trimmed output when that output is a string, else `''` |
| BuildContext.CurrentBranchRaw | dist/upload-lighthouse/index.js:123-160 | a set CI variable wins; otherwise the result is an error iff git fails, prints nothing or prints `HEAD`, and else git's trimmed output |
| BuildContext.CurrentBranch | dist/upload-lighthouse/index.js:163-167 | an error iff the raw lookup fails or gives `HEAD` (with the `Unable to determine current branch` message for the latter); the value has at most 40 characters |
| BuildContext.GitHubRefBranch | dist/upload-lighthouse/index.js:123-167 | `GITHUB_REF=refs/heads/<name>` gives `<name>` when no variable before it is set and the name fits in 40 characters |
| BuildContext.PlainBranchKept | dist/upload-lighthouse/index.js:166 | a branch without `refs/heads/` and at most 40 characters long comes back unchanged |
| BuildContext.CappedField | dist/upload-lighthouse/index.js:203-252 | the shared shape of the commit message and author lookups: an error iff no variable is set and git fails; the value is a prefix of the trimmed source of at most `cap` characters |
| BuildContext.CommitMessage | dist/upload-lighthouse/index.js:203-224 | an error iff no override and git fails; at most 80 characters, a prefix of the trimmed text |
| BuildContext.Author | dist/upload-lighthouse/index.js:229-250 | an error iff no override and git fails; at most 256 characters, a prefix of the trimmed text |
| BuildContext.OverrideMessage | dist/upload-lighthouse/index.js:203-211 | a manual override wins over git and comes back trimmed when at most 80 characters long |
| BuildContext.EmailStart | dist/upload-lighthouse/index.js:256-257 | the leftmost position at or after `i` where ` <` + address + `>` ends the author, or nothing when there is none |
| BuildContext.EmailFromAuthor | dist/upload-lighthouse/index.js:255-260 | an address iff the author ends in ` <x@y>` with no whitespace in `x@y`; the address holds an `@` and the author ends with ` <address>` |
| BuildContext.EmailRoundTrip | dist/upload-lighthouse/index.js:229-260 | git's `%aN <%aE>` line for any name gives the address back |
| BuildContext.NoBracketNoEmail | dist/upload-lighthouse/index.js:255-260 | an author not ending in `>` has no address |
| BuildContext.FirstSuccess | dist/upload-lighthouse/index.js:29-39 | nothing for no commands; otherwise the outcome of the first command that exits with 0, or of the last one when none does |
| BuildContext.RunCommandsUntilFirstSuccess | dist/upload-lighthouse/index.js:29-39 | the loop returns exactly that outcome, and the `Must specify at least one command` error for an empty list |
| BuildContext.HashFrom | dist/upload-lighthouse/index.js:311-314 | a failed git gives `''`; a successful one its trimmed output |
| BuildContext.AncestorHashForBase | dist/upload-lighthouse/index.js:307-315 | the trimmed output of `git rev-parse <hash>^`, or `''` when it fails |
| BuildContext.AncestorHashForBranch | dist/upload-lighthouse/index.js:321-333 | the merge base with `origin/<base>`, else with `<base>`, else `''` |
| BuildContext.AncestorHash | dist/upload-lighthouse/index.js:339-348 | an override that is not 40 zeros is returned as is; otherwise the base-branch parent when the current branch is the base, else the merge base; a branch error propagates |
| BuildContext.ZeroAncestorIgnored | dist/upload-lighthouse/index.js:339-348 | an all-zeros override gives what the environment without both override variables gives |
| Wrappers.Option.GetOr | dist/upload-lighthouse/index.js:1370-1372 | `defaults(val, def)`: the value when there is one, the default when it is `undefined` |
| ChromeLauncher.NewLauncher | dist/upload-lighthouse/index.js:1008-1037 | the constructor fails iff `userDataDir` is `true`, with the `InvalidUserDataDirectoryError` message; `false` selects the default profile, a path is kept, and every absent option takes its default (`about:blank`, `[]`, port 0, default flags on, 500, 50, the process environment) |
| ChromeLauncher.Flags | dist/upload-lighthouse/index.js:1038-1052 | the default flags unless turned off, then the debugging-port flag, the sandbox flag on plain Linux with defaults on, the profile flag unless the default profile is used, the user's flags in order, and the starting page last; the length is the sum of those parts |
| ChromeLauncher.SandboxFlag | dist/upload-lighthouse/index.js:1040-1043 | `--disable-setuid-sandbox` is among the flags iff the default flags are on and the platform is plain `linux` (not WSL), when the user did not pass it |
| ChromeLauncher.SandboxInLead | dist/upload-lighthouse/index.js:1039-1048 | the same for the flags the launcher adds itself |
| ChromeLauncher.SandboxNotDefault | dist/upload-lighthouse/index.js:1257-1286 | the sandbox flag is not one of the 14 default flags |
| ChromeLauncher.UserFlagsLast | dist/upload-lighthouse/index.js:1049-1050 | the user's flags and then the starting page end the list, in the order given |
| ChromeLauncher.DriveStart | dist/upload-lighthouse/index.js:1442 | the leftmost `/mnt/<a-z>/` at or after a position, or nothing when there is none |
| ChromeLauncher.Backslashed | dist/upload-lighthouse/index.js:1447 | `.replace(/\//g, '\\')` leaves no `/`, keeps the length and changes only the slashes |
| ChromeLauncher.Upper | dist/upload-lighthouse/index.js:1446 | `toUpperCase` of a letter `a`-`z` is the matching letter `A`-`Z` |
| ChromeLauncher.ToWinDirFormat | dist/upload-lighthouse/index.js:1441-1449 | a path without a WSL mount comes back unchanged; one with a mount loses 4 characters and has no `/` left |
| ChromeLauncher.FirstMountIsFirstMatch | dist/upload-lighthouse/index.js:1442-1446 | the string `replace` finds is the one the regular expression matched, since no earlier `/mnt/<x>/` exists |
| ChromeLauncher.MountedPath | dist/upload-lighthouse/index.js:1441-1449 | `/mnt/<x>/rest` becomes `<X>:\` followed by `rest` with every `/` turned into `\` |
| ChromeLauncher.Weight | dist/upload-lighthouse/index.js:870-876 | the weight of the first priority whose test the path passes, 10 when none does |
| ChromeLauncher.SortInstallations | dist/upload-lighthouse/index.js:866-882 | the installations, reordered by a stable sort on decreasing weight |
| ChromeLauncher.SortInstallationsOrdered | dist/upload-lighthouse/index.js:866-882 | the result is a permutation of the installations with non-increasing weights |
| ChromeLauncher.SortInstallationsStable | dist/upload-lighthouse/index.js:878 | among paths of equal weight the input order is kept |
| ChromeLauncher.InsertOfWeight | dist/upload-lighthouse/index.js:878 | inserting one path keeps the order of the paths of any one weight |
| ChromeLauncher.Uniq | dist/upload-lighthouse/index.js:895-897 | `Array.from(new Set(arr))` holds exactly the input's elements, each once, no more of them than the input |
| ChromeLauncher.UniqDistinct | dist/upload-lighthouse/index.js:895-897 | a list without repeats comes back unchanged |
| ChromeLauncher.UniqRepeat | dist/upload-lighthouse/index.js:895-897 | repeating an element that already occurs changes nothing: the first occurrence fixes the order |
| ChromeLauncher.UniqAppendNew | dist/upload-lighthouse/index.js:895-897 | an element not seen before is added at the end, after everything already kept |
| ChromeLauncher.FirstAt | dist/upload-lighthouse/index.js:895-897 | the index of an element's first occurrence: it holds the element and nothing before it does |
| ChromeLauncher.FirstAtPrefix | dist/upload-lighthouse/index.js:895-897 | appending elements does not move an existing element's first occurrence |
| ChromeLauncher.UniqInOrder | dist/upload-lighthouse/index.js:895-897 | the kept elements stand in the order of their first occurrences in the input; with Uniq's own ensures this fixes the result as the first occurrences in input order |
| StableSort.SortPermutes | dist/upload-lighthouse/index.js:878 | sorting permutes: the same multiset of elements |
| StableSort.SortSorted | dist/upload-lighthouse/index.js:878 | with a total, transitive order the result is sorted |
| StableSort.SortIdentity | dist/upload-lighthouse/index.js:878 | the stable sort returns an already sorted list unchanged |
| StableSort.SortStable | dist/upload-lighthouse/index.js:878 | the sort is stable: for any class of elements that all sort no later than each other, the class keeps its input order |
| StableSort.InsertPicked | dist/upload-lighthouse/index.js:878 | inserting one element passes only over elements outside its class |
| StableSort.Picked | dist/upload-lighthouse/index.js:878 | the elements a predicate picks, in order, never more than the input |
| GlobCommon.MakeAbs | dist/upload-lighthouse/index.js:2097-2116 | an absolute path is joined below `root`, the empty path stays empty, and any other path is resolved against the given `cwd` when it differs from the process's, else against the process's |
| GlobCommon.StripGlobstars | dist/upload-lighthouse/index.js:1934 | removing the trailing run of `/**` groups leaves a text that no longer ends in `/**`, and the input is that text followed by exactly the groups that ended it |
| GlobCommon.MinimatchOf | dist/upload-lighthouse/index.js:4958-4988 | `new Minimatch(pattern, options)` fails on a pattern over the length limit with "pattern is too long"; otherwise it is `make` of the trimmed pattern, and it never has more match sets than alternatives |
| GlobCommon.IgnoreMap | dist/upload-lighthouse/index.js:1931-1942 | an ignore item's matcher is the pattern's `Minimatch` object with `dot`; it has a directory matcher iff the pattern ends in `/**`, and that matcher is built from the pattern with the trailing `/**` groups removed |
| GlobCommon.IgnorePatterns | dist/upload-lighthouse/index.js:1919-1923 | `options.ignore || []` wrapped in a list: a list is kept, one non-empty pattern becomes a one-element list, and an absent or empty one the empty list |
| GlobCommon.IgnoreMapAll | dist/upload-lighthouse/index.js:1925-1927 | mapping `ignoreMap` over the patterns gives one item per pattern in order, or the error of a pattern whose `ignoreMap` throws |
| GlobCommon.ChildrenIgnoredIgnored | dist/upload-lighthouse/index.js:2118-2137 | a path `childrenIgnored` holds for is also `isIgnored` |
| GlobCommon.NothingIgnored | dist/upload-lighthouse/index.js:2118-2133 | with an empty ignore list neither `isIgnored` nor `childrenIgnored` holds for any path |
| GlobCommon.GlobMinimatchOptions | dist/upload-lighthouse/index.js:2004-2010 | the options glob passes to `Minimatch` always have `nonegate` and `nocomment` set |
| GlobCommon.PlaceOf | dist/upload-lighthouse/index.js:1986-1995 | without a `cwd` option the working directory is the process's and `changedCwd` is false; with one it is the resolved option and `changedCwd` holds iff it differs from the process's |
| GlobCommon.MaxLength | dist/upload-lighthouse/index.js:1977 | `maxLength || Infinity`: 0 (absent) means no limit, any other value is the limit |
| GlobCommon.Configure | dist/upload-lighthouse/index.js:1955-2013 | the fields `setopts` sets: `mark` is `mark || nodir`, `strict` is on unless explicitly false, the limit as above, the Minimatch options with negation and comments off, `dot` and `nonull` from the options, and the absolute working directory |
| GlobCommon.Construct | dist/upload-lighthouse/index.js:2012-2013 | setting up fails exactly when `new Minimatch` on the pattern fails, with its message; otherwise it yields the configured settings with that object |
| GlobCommon.SetOpts | dist/upload-lighthouse/index.js:1944-2014 | base matching of a pattern without `/` under `noglobstar` throws "base matching requires globstar"; otherwise the pattern gets the `**/` prefix under base matching, `mark` follows `nodir`, negation and comments are off, the ignore list is the mapped ignore patterns, and the matcher has no more match sets than alternatives |
| GlobCommon.GlobPatternPlain | dist/upload-lighthouse/index.js:2004-2006 | a pattern compiled with `nonegate` and `nocomment` is never a comment and never negated |
| GlobCommon.MarkName | dist/upload-lighthouse/index.js:2073-2084 | an unknown path keeps its name; a known directory ends in exactly one added or existing slash; a known non-directory loses a trailing slash and is otherwise unchanged |
| GlobCommon.CopyStat | dist/upload-lighthouse/index.js:2088 | copying a `statCache` entry sets the new key to the old key's entry (or leaves it unset when the old one is unset) and changes no other key |
| GlobCommon.MarkKeepsEntry | dist/upload-lighthouse/index.js:2073-2095 | after `mark`, both caches say of the marked name what they said of the given name, and the cache is unchanged at every other key |
| GlobCommon.MarkDirectoryOnce | dist/upload-lighthouse/index.js:2080-2084 | marking a directory twice gives the same name as marking it once |
| GlobCommon.Contribution | dist/upload-lighthouse/index.js:2021-2040 | what one pattern adds: exactly the keys of its match set, or, under `nonull` when the set is empty, its literal alternative |
| GlobCommon.Contributions | dist/upload-lighthouse/index.js:2020 | one contribution per match set, in order |
| GlobCommon.DedupIs | dist/upload-lighthouse/index.js:2036-2045 | the keys set by `all[m] = true` are exactly the names added, each once |
| GlobCommon.GatheredIs | dist/upload-lighthouse/index.js:2020-2042 | a name is gathered iff some match set holds it or stands for an empty set's literal under `nonull` |
| GlobCommon.CollectedIs | dist/upload-lighthouse/index.js:2017-2045 | the list before sorting holds exactly those names, and without `nounique` each of them once |
| GlobCommon.SortedKeeps | dist/upload-lighthouse/index.js:2047-2048 | sorting with `alphasort` keeps exactly the names and keeps them unrepeated |
| GlobCommon.MarkAll | dist/upload-lighthouse/index.js:2051-2054 | marking every name keeps the length, and each name is kept, gets a slash, or loses one |
| GlobCommon.FilterNotDir | dist/upload-lighthouse/index.js:2055-2062 | the `nodir` filter keeps exactly the names with no trailing slash and no directory entry in the cache under the name or its absolute form |
| GlobCommon.FilterIgnored | dist/upload-lighthouse/index.js:2065-2068 | the ignore filter keeps exactly the names no ignore item matches |
| GlobCommon.FilterIgnoredDistinct | dist/upload-lighthouse/index.js:2065-2068 | filtering keeps a list unrepeated |
| GlobCommon.FilterIgnoredSorted | dist/upload-lighthouse/index.js:2065-2068 | filtering keeps a list sorted |
| GlobCommon.FinishFound | dist/upload-lighthouse/index.js:2016-2071 | without `mark`, `found` holds exactly the matched names and the `nonull` literals of empty sets that are not ignored, and the caches are unchanged |
| GlobCommon.FinishNonull | dist/upload-lighthouse/index.js:2025-2032 | under `nonull`, a pattern with no matches that is not ignored is found as its literal text |
| GlobCommon.FinishUnique | dist/upload-lighthouse/index.js:2016-2071 | without `nounique` (and `mark`) no name is found twice |
| GlobCommon.FinishSorted | dist/upload-lighthouse/index.js:2047-2048 | without `nosort` (and `mark`) `found` is in collation order, for a total transitive order |
| GlobCommon.FinishNoDir | dist/upload-lighthouse/index.js:2050-2063 | with `mark` and `nodir`, nothing found ends in a slash or is a directory in the cache `finish` leaves |
| GlobCommon.FinishNotIgnored | dist/upload-lighthouse/index.js:2065-2068 | nothing found matches an ignore pattern |
| GlobCommon.FinishMarked | dist/upload-lighthouse/index.js:2050-2054 | with `mark` and no other filter, each sorted name is found in its place, with a slash added or removed |
| GlobSyncSpec.StatAnswers | dist/upload-lighthouse/index.js:3356-3416 | `_stat` answers `false`, `true`, 'FILE' or 'DIR' and never a list; it never answers 'FILE' for a path with a trailing slash; it answers `false` without looking for a path longer than `maxLength` |
| GlobSyncSpec.StatFrame | dist/upload-lighthouse/index.js:3381-3410 | `_stat` changes both caches only at the absolute path, never replaces a truthy `cache` entry (`cache[abs] \|\| c`), and leaves a truthy entry whenever it says the path exists |
| GlobSyncSpec.ChildPath | dist/upload-lighthouse/index.js:3240-3243 | an entry's path starts with the directory and ends with the entry |
| GlobSyncSpec.CacheChildrenSets | dist/upload-lighthouse/index.js:3237-3246 | every entry `_readdirEntries` sees is cached as existing |
| GlobSyncSpec.CacheChildrenKeeps | dist/upload-lighthouse/index.js:3237-3246 | keys that are no entry's path keep their cache entries |
| GlobSyncSpec.ReaddirAgrees | dist/upload-lighthouse/index.js:3210-3252 | the entries `_readdir` returns are the ones the cache then holds for the directory, and nothing is thrown |
| GlobSyncSpec.ReaddirThrows | dist/upload-lighthouse/index.js:3254-3284 | `_readdir` throws only after `readdirSync` failed: "invalid cwd" for `ENOTDIR`/`ENOTSUP` on the working directory, or the error itself for an unusual code under `strict` |
| GlobSyncSpec.ReaddirCached | dist/upload-lighthouse/index.js:3216-3223 | a directory cached as missing or as a file is not read, and one whose entries are cached is answered from the cache |
| GlobSyncSpec.GlobStarRecordsLinks | dist/upload-lighthouse/index.js:3179-3208 | outside `follow`, a globstar read records in `symlinks` whether an existing path is a symbolic link, and changes `symlinks` nowhere else |
| GlobSyncSpec.MatchedEntries | dist/upload-lighthouse/index.js:3088-3101 | the kept entries are no more than the entries read |
| GlobSyncSpec.MatchedEntriesAre | dist/upload-lighthouse/index.js:3081-3101 | an entry is kept iff it is read and the portion admits it (a dot entry only when dots are allowed; the match inverted for a negated pattern without prefix) |
| GlobSyncSpec.Prefixed | dist/upload-lighthouse/index.js:3119-3124 | no prefix leaves the entry alone; otherwise the result starts with the prefix, ends with the entry, and has one slash between them |
| GlobSyncSpec.EmitName | dist/upload-lighthouse/index.js:3117-3129 | the emitted name is the prefixed entry, joined below `root` when it is absolute and `nomount` is off |
| GlobSyncSpec.LeadingLits | dist/upload-lighthouse/index.js:3016-3019 | the count of leading literal portions: all before it are literal, the one at it (if any) is not |
| GlobSyncSpec.Shown | dist/upload-lighthouse/index.js:3051-3053 | literal portions show as their text, others as `[*]`, one for one |
| GlobSyncSpec.StartOf | dist/upload-lighthouse/index.js:3023-3058 | a pattern starting with a non-literal portion has no prefix and reads `.`; otherwise the path read is the prefix |
| GlobSyncSpec.StartAbsolute | dist/upload-lighthouse/index.js:3050-3058 | an absolute pattern is read from an absolute path; a relative one from its literal prefix |
| GlobSyncSpec.RealKeys | dist/upload-lighthouse/index.js:2992-3006 | after the `realpath` pass a match set holds no key twice |
| GlobSyncSpec.RealKeysAre | dist/upload-lighthouse/index.js:2992-3006 | every key after the pass is the real path of some key before it (its absolute form when only `stat` failed), and every key before it has its real path after it |
| GlobSyncSpec.RealAll | dist/upload-lighthouse/index.js:2990-3007 | the pass keeps the number of match sets and which of them were never filled |
| GlobSyncSpec.RealKeysStays | dist/upload-lighthouse/index.js:2999-3003 | once a key throws, the keys after it change nothing |
| GlobSyncSpec.RealAllStays | dist/upload-lighthouse/index.js:2992-3006 | once a match set throws, the sets after it change nothing |
| GlobSyncSpec.RealStops | dist/upload-lighthouse/index.js:2992-3006 | the pass throws the error of the first match set that throws |
| GlobSyncModel.WalkOf | dist/upload-lighthouse/index.js:1955-1974 | the walk reads the place, the ignore list, `mark`, `absolute`, `nodir` and `stat` that `setopts` set, and the given file system |
| GlobSyncModel.FinishingOf | dist/upload-lighthouse/index.js:2016-2071 | `finish` reads the alternatives' texts, `nounique`, `nosort`, `mark`, `nodir`, `nonull` and the ignore list that `setopts` set |
| GlobSyncModel.EmitRecords | dist/upload-lighthouse/index.js:3150-3176 | `_emitMatch` adds at most its key to one match set and keeps it free of repeats; an ignored name changes nothing; any other name is recorded unless `nodir` finds a directory |
| GlobSyncModel.CollectAll | dist/upload-lighthouse/index.js:2017-2045 | the loop of `finish` gives exactly the collected list: every match set's keys (or the literal under `nonull`), once each unless `nounique` |
| GlobSyncModel.CollectOne | dist/upload-lighthouse/index.js:2022-2040 | one turn of that loop appends the pattern's contribution under `nounique`, and otherwise sets its keys |
| GlobSyncModel.SetKeys | dist/upload-lighthouse/index.js:2037-2039 | `all[m] = true` for every key gives the keys of the names so far followed by the new ones, each once |
| GlobSyncModel.GlobSync.constructor | dist/upload-lighthouse/index.js:2975-2981 | the object holds the settings, the caches passed in, one empty slot per alternative and no result yet |
| GlobSyncModel.GlobSync.Stat | dist/upload-lighthouse/index.js:3356-3416 | `_stat` answers and updates the caches as the specification function says, and touches nothing else |
| GlobSyncModel.GlobSync.Mark | dist/upload-lighthouse/index.js:3418-3420 | `_mark` returns the marked name and the caches as `mark` leaves them, and touches nothing else |
| GlobSyncModel.GlobSync.ReaddirEntries | dist/upload-lighthouse/index.js:3233-3252 | the cache gets every entry as existing (unless `mark` or `stat`) and the directory's list; nothing else changes |
| GlobSyncModel.GlobSync.ReaddirError | dist/upload-lighthouse/index.js:3254-3284 | the cache records 'FILE' or `false` at the path as the error code says, and the error thrown is as the specification function says |
| GlobSyncModel.GlobSync.Readdir | dist/upload-lighthouse/index.js:3210-3231 | `_readdir` returns the entries, the error and the caches the specification function gives |
| GlobSyncModel.GlobSync.ReaddirInGlobStar | dist/upload-lighthouse/index.js:3179-3208 | `_readdirInGlobStar` likewise, for a path not yet in `symlinks` |
| GlobSyncModel.GlobSync.EmitMatch | dist/upload-lighthouse/index.js:3150-3176 | `_emitMatch` leaves the match sets and caches the specification function gives, grows only its own match set, and keeps the object's invariant (no repeated keys; no ignored key unless `mark` or `absolute` rewrote it) |
| GlobSyncModel.GlobSync.Process | dist/upload-lighthouse/index.js:3012-3071 | walking an alternative only grows its own match set, and keeps the invariant |
| GlobSyncModel.GlobSync.ProcessReaddir | dist/upload-lighthouse/index.js:3074-3147 | reading a directory for a magic portion only grows its own match set, and keeps the invariant; on the `/$./` portion without `dot` it throws the TypeError of reading `_glob.charAt` |
| GlobSyncModel.GlobSync.MatchEntries | dist/upload-lighthouse/index.js:3088-3101 | the loop keeps exactly the entries the first portion admits, in order |
| GlobSyncModel.GlobSync.ProcessGlobStar | dist/upload-lighthouse/index.js:3286-3323 | a globstar step only grows its own match set, and keeps the invariant |
| GlobSyncModel.GlobSync.ProcessSimple | dist/upload-lighthouse/index.js:3325-3353 | a pattern of literals leaves exactly the match sets and caches `SimpleSpec` gives, changes neither `symlinks` nor `found`, fills its own slot, grows only that match set, and keeps the invariant |
| GlobSyncModel.SimpleRecords | dist/upload-lighthouse/index.js:3325-3353 | `_processSimple` always fills its slot; when `_stat` finds nothing the set is unchanged; otherwise it gains at most the literal path's key (mounted below `root` when absolute), and does gain it unless the path is ignored or is a directory under `nodir` |
| GlobSyncModel.GlobSync.RealpathPass | dist/upload-lighthouse/index.js:2990-3007 | the `realpath` pass replaces the match sets by their real paths, or throws the first error thrown, and changes nothing else |
| GlobSyncModel.GlobSync.RealSet | dist/upload-lighthouse/index.js:2993-3005 | one match set's keys after the pass |
| GlobSyncModel.GlobSync.CommonFinish | dist/upload-lighthouse/index.js:2016-2071 | `finish` leaves `found` and the caches the specification function gives |
| GlobSyncModel.GlobSync.MarkEach | dist/upload-lighthouse/index.js:2051-2054 | the marking loop gives the names and caches of marking each in turn |
| GlobSyncModel.GlobSync.Finish | dist/upload-lighthouse/index.js:2988-3009 | `_finish` runs the `realpath` pass when asked (throwing its error) and then `finish` on the result |
| GlobSyncModel.Glob | dist/upload-lighthouse/index.js:2956-2986 | an empty pattern throws "must provide pattern"; a failing `setopts` throws its error; otherwise `noprocess` gives no result, and a result has no ignored name, no name twice without `nounique` or `mark`, and is in collation order without `nosort` or `mark` |
| GlobSyncModel.Run | dist/upload-lighthouse/index.js:2977-2985 | the same promises for the walk of every alternative followed by `_finish` |
| JsObject.SetKey | dist/upload-lighthouse/index.js:2039 | `all[m] = true`: the keys afterwards are the old ones and the new one, still without repeats |
| JsObject.KeysPermutes | dist/upload-lighthouse/index.js:2035 | `Object.keys` lists every key that was set, each as often as it was set |
| JsObject.KeysAre | dist/upload-lighthouse/index.js:2035 | `Object.keys` lists the array-index keys first, in ascending order, then the other keys in insertion order |
| JsObject.KeysMembers | dist/upload-lighthouse/index.js:2044 | the keys `Object.keys` lists are exactly those that were set |
| JsObject.KeysDistinct | dist/upload-lighthouse/index.js:2044 | `Object.keys` of keys without repeats has no repeats |
| JsObject.NamedKeysKept | dist/upload-lighthouse/index.js:2035 | keys that are not array indices are listed in insertion order |
| JsString.IndexOf | dist/upload-lighthouse/index.js:1949 | `indexOf` finds the first occurrence at or after the clamped start, or -1 when there is none |
| JsString.ReplaceFirst | dist/upload-lighthouse/index.js:166 | `replace` with a string pattern replaces the first occurrence only, and changes nothing when there is none |
| JsString.Split | dist/upload-lighthouse/index.js:500-512 | `split` with a non-empty string separator gives at least one part, no part holds the separator, and joining the parts with it gives the string back |
| JsString.SplitPair | dist/upload-lighthouse/index.js:526-527 | a text with one separator between two separator-free parts splits into exactly those two parts |
| JsString.SplitAt | dist/upload-lighthouse/index.js:527 | the first separator ends the first part |
| JsString.SplitNoSeparator | dist/upload-lighthouse/index.js:527 | a string without the separator splits into itself |
| JsString.Take | dist/upload-lighthouse/index.js:210 | `slice(0, n)` is a prefix of length `n`, or the whole string when shorter |
| JsString.Trim | dist/upload-lighthouse/index.js:4967 | `trim` removes exactly the leading and trailing whitespace: the result is a slice with only whitespace around it and none at its ends |
| MinimatchParse.ClearState | dist/upload-lighthouse/index.js:5158-5178 | `clearStateChar` appends the pending character's text to `re`, sets `hasMagic` exactly for a pending `*` or `?`, clears the pending character and changes nothing else |
| MinimatchParse.Step | dist/upload-lighthouse/index.js:5180-5356 | one turn of the loop keeps the state well formed, ends the parse (`return false`) exactly on a `/`, and never clears `hasMagic` |
| MinimatchParse.StepExt | dist/upload-lighthouse/index.js:5207-5233 | outside a class, `? * + @ !` becomes the pending state character, or none under `noext` |
| MinimatchParse.StepOpen | dist/upload-lighthouse/index.js:5235-5257 | `(` after a pending state character outside a class pushes a pattern list recording its type and where it starts in `re` |
| MinimatchParse.StepClose | dist/upload-lighthouse/index.js:5259-5275 | `)` outside a class with a list open pops the innermost list and makes the portion magic |
| MinimatchParse.StepPipe | dist/upload-lighthouse/index.js:5277-5286 | `\|` leaves the list stack and the negative lists as they are |
| MinimatchParse.StepClassOpen | dist/upload-lighthouse/index.js:5289-5302 | `[` outside a class opens one at the current index |
| MinimatchParse.StepClassClose | dist/upload-lighthouse/index.js:5304-5341 | `]` inside a class, other than right after its `[`, closes it |
| MinimatchParse.StepOther | dist/upload-lighthouse/index.js:5343-5355 | any other character goes into `re` escaped when it is special, except `^` inside a class and a character after a backslash |
| MinimatchParse.Run | dist/upload-lighthouse/index.js:5180-5357 | the loop leaves a well-formed state at the end of the portion |
| MinimatchParse.RunKeepsMagic | dist/upload-lighthouse/index.js:5180-5357 | once magic, the portion stays magic to the end of the loop |
| MinimatchParse.TrailingBackslashes | dist/upload-lighthouse/index.js:5382 | the count of backslashes ending a text: those are backslashes and the character before them is not |
| MinimatchParse.EscapePipes | dist/upload-lighthouse/index.js:5378-5404 | rewriting an unclosed list leaves a text without `\|` unchanged |
| MinimatchParse.MatchedRun | dist/upload-lighthouse/index.js:5382 | the pattern takes in at most 129 of the backslashes before a `\|` |
| MinimatchParse.DropCloseParen | dist/upload-lighthouse/index.js:5441 | removing the first `)` and its quantifier shortens a text that holds a `)` and leaves one without `)` alone |
| MinimatchParse.SubParseAsWritten | dist/upload-lighthouse/index.js:5367-5368 | as the code is written, re-reading an empty class body yields `undefined` text (the shortcut at line 5138 returns `''`, not a pair) |
| MinimatchParse.ParseSpec | dist/upload-lighthouse/index.js:5126-5491 | a portion over the length limit is refused; `**` without `noglobstar` is GLOBSTAR; the empty portion is the empty literal; an expression carries the `i` flag exactly under `nocase`; a magic portion whose source `new RegExp` refuses becomes `Never`, the `/$./` fallback (via `Compiles`). The unclosed `[` at the end of a portion is re-read as intended (`SubParse`), not as the code at 5367-5368 does it (see Findings) |
| MinimatchParse.Compiles | dist/upload-lighthouse/index.js:5476-5491 | the `try` around `new RegExp('^' + re + '$', flags)`: the expression with its glob, source and flags exactly when the engine accepts the source, otherwise `/$./` |
| MinimatchParse.GlobUnescape | dist/upload-lighthouse/index.js:5771-5773 | `globUnescape` never lengthens a text and leaves one without backslashes alone |
| MinimatchParse.RegExpEscape | dist/upload-lighthouse/index.js:5775-5777 | `regExpEscape` never shortens a text |
| MinimatchParseFacts.RunQuiet | dist/upload-lighthouse/index.js:5180-5357 | over characters without glob meaning the loop finishes and stays quiet: no class, no list, no magic |
| MinimatchParseFacts.StepQuiet | dist/upload-lighthouse/index.js:5343-5355 | one such character keeps the loop quiet |
| MinimatchParseFacts.LiteralPortion | dist/upload-lighthouse/index.js:5469-5474 | a portion without `* ? + @ ! \ [` compiles to its own text, whatever regular-expression characters it holds |
| MinimatchParseFacts.EscapedPortion | dist/upload-lighthouse/index.js:5186-5474 | a portion whose every glob character is escaped by a backslash compiles to the literal `globUnescape` of its text (`\*\?` is the name `*?`) |
| MinimatchParseFacts.RunEscaped | dist/upload-lighthouse/index.js:5186-5203 | across escaped characters and characters without glob meaning the loop finishes and stays quiet: each `\` sets `escaping`, and the next character is copied literally |
| MinimatchParseFacts.NocaseIsMagic | dist/upload-lighthouse/index.js:5476-5486 | under `nocase` every portion but the empty one and `**` compiles to an expression with the `i` flag, or to `/$./` when that expression does not compile; never to a literal |
| MinimatchParseFacts.EndPhaseMagic | dist/upload-lighthouse/index.js:5359-5463 | after the loop a portion is magic exactly when the loop made it so, or the re-read open class is magic, or a list is left open, or a `*` or `?` is still pending |
| MinimatchParseFacts.NoGlobstar | dist/upload-lighthouse/index.js:5132-5137 | under `noglobstar`, `**` compiles as `*` does |
| MinimatchParseFacts.StarPortion | dist/upload-lighthouse/index.js:5158-5166 | `*` is a non-empty run of characters other than `/`, not starting with a dot unless `dot` is set |
| MinimatchParseFacts.EscapedStar | dist/upload-lighthouse/index.js:5186-5203 | `\*` compiles to a literal `*` |
| MinimatchParseFacts.StarDotJs | dist/upload-lighthouse/index.js:5126-5491 | `*.js` is any name without a leading dot followed by a literal `.js` |
| MinimatchParseFacts.RunOrdinary | dist/upload-lighthouse/index.js:5343-5355 | ordinary characters are copied into `re` unchanged |
| MinimatchParseFacts.OneOrMore | dist/upload-lighthouse/index.js:5235-5275 | `+(a\|b)` is one or more of the alternatives |
| MinimatchParseFacts.Dispatch | dist/upload-lighthouse/index.js:5193-5355 | which branch of the loop a character takes when no escape is pending |
| MinimatchParseFacts.EscapePipesPlain | dist/upload-lighthouse/index.js:5378-5404 | without backslashes, the rewriting of an unclosed list puts one backslash before each `\|` |
| MinimatchParseFacts.UnescapeEscaped | dist/upload-lighthouse/index.js:5771-5777 | `globUnescape` undoes `regExpEscape` on text without line terminators |
| MinimatchParseFacts.SubParseEmpty | dist/upload-lighthouse/index.js:5465-5467 | re-reading an empty class body, as intended, gives the empty expression |
| MinimatchParseFacts.UnclosedClassAsWritten | dist/upload-lighthouse/index.js:5359-5370 | for `*[`, the code as written turns the open class into the text `\[undefined`, where the intended result is `\[` |
| MinimatchParseFacts.UnclosedClass | dist/upload-lighthouse/index.js:5359-5370 | `*[` compiled as intended: any name without a leading dot that ends in a literal `[` |
| MinimatchCompiler.Parse | dist/upload-lighthouse/index.js:5126-5491 | the imperative `parse` computes what the portion specification gives |
| MinimatchCompiler.SubParseText | dist/upload-lighthouse/index.js:5329 | re-reading a class body as glob text gives its intended `[re, hasMagic]` pair |
| MinimatchCompiler.ClearStateChar | dist/upload-lighthouse/index.js:5158-5178 | `clearStateChar` on the loop's variables appends the pending text and sets `hasMagic` for `*` and `?` |
| MinimatchCompiler.ParseBody | dist/upload-lighthouse/index.js:5180-5467 | the character loop and the end phase give the specified pair, or `false` on a `/` |
| MinimatchCompiler.ParseChar | dist/upload-lighthouse/index.js:5181-5356 | one turn of the loop on a character other than `/` is the specified step |
| MinimatchCompiler.ExtChar | dist/upload-lighthouse/index.js:5207-5233 | the `? * + @ !` branch is the specified step |
| MinimatchCompiler.OpenList | dist/upload-lighthouse/index.js:5235-5257 | the `(` branch is the specified step |
| MinimatchCompiler.CloseList | dist/upload-lighthouse/index.js:5259-5275 | the `)` branch is the specified step |
| MinimatchCompiler.Pipe | dist/upload-lighthouse/index.js:5277-5286 | the `\|` branch is the specified step |
| MinimatchCompiler.OpenClass | dist/upload-lighthouse/index.js:5289-5302 | the `[` branch is the specified step |
| MinimatchCompiler.CloseClass | dist/upload-lighthouse/index.js:5304-5341 | the `]` branch is the specified step, re-reading a refused class |
| MinimatchCompiler.OtherChar | dist/upload-lighthouse/index.js:5343-5355 | the default branch is the specified step |
| MinimatchCompiler.FinishParse | dist/upload-lighthouse/index.js:5359-5467 | from the end of the loop to the returned pair, as specified |
| MinimatchCompiler.FixOpenClass | dist/upload-lighthouse/index.js:5359-5370 | the fix-up of a class left open, as intended |
| MinimatchCompiler.AddGuards | dist/upload-lighthouse/index.js:5406-5462 | the rewriting of negative lists and the two guards (non-empty, no leading dot) as specified |
| MinimatchCompiler.CloseOpenLists | dist/upload-lighthouse/index.js:5378-5404 | the loop over the lists left open gives the specified text |
| MinimatchCompiler.RewriteNegatives | dist/upload-lighthouse/index.js:5425-5451 | the loop over closed negative lists, last first, gives the specified text |
| MinimatchCompiler.RewriteNegative | dist/upload-lighthouse/index.js:5426-5450 | the rewriting of one `!(..)` as specified |
| MinimatchCompiler.DropParens | dist/upload-lighthouse/index.js:5440-5442 | the inner loop drops one closing parenthesis per step |
| MinimatchMatch.Lits | dist/upload-lighthouse/index.js:5725-5732 | the literal portions for the given names, one for one |
| MinimatchMatch.LiteralsMatch | dist/upload-lighthouse/index.js:5616-5767 | literal portions match exactly the equal names, also with one trailing empty name, or in partial mode a prefix of them |
| MinimatchMatch.FinalGlobstar | dist/upload-lighthouse/index.js:5668-5681 | a `**` at the end matches iff every name left may be swallowed (none is `.`, `..` or hidden without `dot`); with no names left only in partial mode |
| MinimatchMatch.SwallowIs | dist/upload-lighthouse/index.js:5684-5718 | the swallowing loop hits iff the rest of the pattern matches after swallowing some run of swallowable names, or partial mode is on and every name is swallowable |
| MinimatchMatch.SwallowOne | dist/upload-lighthouse/index.js:5694-5709 | swallowing one swallowable name when the rest does not match moves the loop on without changing its verdict |
| MinimatchMatch.InnerGlobstar | dist/upload-lighthouse/index.js:5641-5719 | an inner `**` matches iff after a run of swallowable names the rest matches, or partial mode is on and every name is swallowable |
| MinimatchMatch.GlobstarZeroFirst | dist/upload-lighthouse/index.js:5690-5693 | whatever the rest of the pattern matches, `**` in front of it matches too |
| MinimatchMatch.GlobstarStopsAtDot | dist/upload-lighthouse/index.js:5697-5702 | in front of `.`, `..` or a hidden name without `dot`, an inner `**` adds nothing |
| MinimatchMatch.EmptyPattern | dist/upload-lighthouse/index.js:5757-5762 | with the pattern used up, only an exhausted path or one trailing empty name matches |
| MinimatchMatch.NeverMatchesNothing | dist/upload-lighthouse/index.js:5480-5485 | a pattern holding the `/$./` portion matches no path outside partial mode, whatever `**` it also holds |
| MinimatchMatch.SwallowNever | dist/upload-lighthouse/index.js:5690-5707 | the swallowing loop of a `**` never finds a match for a rest holding `/$./` |
| MinimatchMatch.EmptyFile | dist/upload-lighthouse/index.js:5748-5756 | with the path used up, only an exhausted pattern or partial mode matches |
| MinimatchMatch.PartialWeaker | dist/upload-lighthouse/index.js:5616-5767 | partial mode only adds matches |
| MinimatchMatch.SwallowWeaker | dist/upload-lighthouse/index.js:5684-5718 | the same for the swallowing loop |
| MinimatchMatcher.MatchOne | dist/upload-lighthouse/index.js:5616-5767 | `matchOne` computes the specified verdict |
| MinimatchMatcher.SwallowsRest | dist/upload-lighthouse/index.js:5676-5680 | the loop for a final `**` answers whether every name left may be swallowed |
| MinimatchMatcher.SwallowLoop | dist/upload-lighthouse/index.js:5684-5718 | the `fr` loop of an inner `**` gives the specified verdict |
| MinimatchMake.NameEnd | dist/upload-lighthouse/index.js:5020 | the end of a name: the next `/` or the end of the text, with no `/` before it |
| MinimatchMake.SkipSlashes | dist/upload-lighthouse/index.js:5020 | the end of a run of slashes |
| MinimatchMake.SplitSlashes | dist/upload-lighthouse/index.js:5019-5021 | `split(/\/+/)` gives at least one name, none holding `/`, and only the first and last can be empty |
| MinimatchMake.SplitSlashesSingle | dist/upload-lighthouse/index.js:5019-5021 | without doubled slashes this is splitting at `/`, and joining back with `/` gives the text |
| MinimatchMake.NegateCount | dist/upload-lighthouse/index.js:5051-5056 | the number of leading `!` |
| MinimatchMake.BraceScanIs | dist/upload-lighthouse/index.js:5094 | the scan for a brace set agrees with the test `/\{(?:(?!\{).)*\}/` |
| MinimatchMake.BraceScanStep | dist/upload-lighthouse/index.js:5094 | one character of the scan keeps what it knows |
| MinimatchMake.HasBraceSetIs | dist/upload-lighthouse/index.js:5094 | the scan finds a brace set iff the expression matches somewhere |
| MinimatchMake.BraceExpandSpec | dist/upload-lighthouse/index.js:5078-5100 | with `nobrace`, or without `{`, the pattern is its only alternative |
| MinimatchMake.ParseRow | dist/upload-lighthouse/index.js:5026-5028 | every portion of an alternative parsed, one for one |
| MinimatchMake.ParseRows | dist/upload-lighthouse/index.js:5019-5028 | every alternative split at `/+` and parsed |
| MinimatchMake.Segs | dist/upload-lighthouse/index.js:5033-5035 | the compiled portions of a row, one for one |
| MinimatchMake.KeepCompiled | dist/upload-lighthouse/index.js:5033-5035 | the filter keeps no more rows than it is given |
| MinimatchMake.SplitAll | dist/upload-lighthouse/index.js:5019-5021 | every alternative split at `/+` |
| MinimatchMake.MakeBody | dist/upload-lighthouse/index.js:5003-5040 | a built pattern keeps the pattern and the negation, is neither a comment nor empty, and has one split per alternative and no more match sets than alternatives |
| MinimatchMake.MakeSpec | dist/upload-lighthouse/index.js:4990-5041 | a comment has no match sets; the empty pattern only comes from empty text and has no match sets |
| MinimatchMake.LastName | dist/upload-lighthouse/index.js:5587-5590 | the last non-empty name, with only empty names after it, or the first name when every name is empty |
| MinimatchMake.LastNameAt | dist/upload-lighthouse/index.js:5587-5590 | where the last non-empty name stands, that name is the base name |
| MinimatchMake.RowSource | dist/upload-lighthouse/index.js:5521-5525 | every portion replaced by its expression source, `**` by the globstar expression |
| MinimatchMake.SetSource | dist/upload-lighthouse/index.js:5520-5527 | every alternative's sources joined with `\/` |
| MinimatchMake.CommentAndEmpty | dist/upload-lighthouse/index.js:5560-5561 | a comment matches nothing, and the empty pattern matches only the empty path |
| MinimatchMake.NegateFlips | dist/upload-lighthouse/index.js:5599-5608 | negation flips the verdict, unless `flipNegate` is set |
| MinimatchMake.DoubleNegation | dist/upload-lighthouse/index.js:5043-5059 | `!!p` builds what `p` builds |
| MinimatchMake.NegateTwice | dist/upload-lighthouse/index.js:5051-5058 | two leading `!` cancel in `parseNegate` |
| MinimatchMake.SingleNegation | dist/upload-lighthouse/index.js:5043-5059 | `!p` builds what `p` builds, negated |
| MinimatchMake.NegateOnce | dist/upload-lighthouse/index.js:5051-5058 | one leading `!` flips `negate` and is dropped |
| MinimatchMake.MakeBodyNegate | dist/upload-lighthouse/index.js:5003-5040 | the rest of `make` does not depend on `negate` |
| MinimatchMake.MatchIsDisjunction | dist/upload-lighthouse/index.js:5592-5608 | the verdict is whether some alternative matches, inverted for a negated pattern |
| MinimatchMake.MakeReNegated | dist/upload-lighthouse/index.js:5533 | the expression of a negated pattern is the negative lookahead of the plain one |
| MinimatchMake.MakeReSpec | dist/upload-lighthouse/index.js:5498-5541 | `makeRe` gives an expression exactly when the set is non-empty and the engine accepts the assembled source, and then that source with `i` under `nocase`; otherwise `false` |
| MinimatchMake.PlainParts | dist/upload-lighthouse/index.js:5019-5021 | the names of plain text are plain and no longer than it |
| MinimatchMake.PlainRow | dist/upload-lighthouse/index.js:5026-5028 | plain names of bounded length parse to literals, one for one |
| MinimatchMake.LitSet | dist/upload-lighthouse/index.js:5019-5028 | the literal alternatives of plain texts |
| MinimatchMake.PlainRows | dist/upload-lighthouse/index.js:5026-5035 | plain alternatives all compile, to their names as literals |
| MinimatchMake.MakePlain | dist/upload-lighthouse/index.js:5003-5040 | `make` of a pattern whose brace expansion is plain |
| MinimatchMake.PlainPattern | dist/upload-lighthouse/index.js:4990-5767 | a pattern without glob characters or braces matches exactly the paths with its names, also with one trailing slash, or in partial mode a prefix of them |
| MinimatchMake.MakeSpecPlain | dist/upload-lighthouse/index.js:4990-5041 | `make` of plain text has one literal alternative |
| MinimatchMake.MatchOneAlt | dist/upload-lighthouse/index.js:5592-5608 | with one alternative, no negation and no `matchBase`, the verdict is `matchOne` on the names |
| MinimatchMake.BraceExample | dist/upload-lighthouse/index.js:5094-5099 | `a{b,c}d` expands to `abd` and `acd` |
| MinimatchMake.PlainBrace | dist/upload-lighthouse/index.js:5094-5096 | plain text is its own only alternative |
| MinimatchMake.NoNegation | dist/upload-lighthouse/index.js:4990-5006 | without a leading `!`, `#` or emptiness, `make` goes straight to its body |
| MinimatchObject.Minimatch.constructor | dist/upload-lighthouse/index.js:4958-4985 | the object keeps the options and the trimmed pattern, nothing built yet |
| MinimatchObject.Minimatch.Make | dist/upload-lighthouse/index.js:4990-5041 | `make` sets the fields to the built pattern, or reports the TypeError of a portion over the length limit |
| MinimatchObject.Minimatch.Build | dist/upload-lighthouse/index.js:5008-5040 | the steps after `parseNegate` set the alternatives, their splits and the match sets as specified |
| MinimatchObject.Minimatch.ParseNegate | dist/upload-lighthouse/index.js:5043-5059 | with `nonegate` nothing changes; otherwise the leading `!` are dropped and an odd count negates |
| MinimatchObject.Minimatch.Match | dist/upload-lighthouse/index.js:5555-5609 | `match` computes the specified verdict |
| MinimatchObject.Minimatch.MakeRe | dist/upload-lighthouse/index.js:5498-5541 | `makeRe` returns the cached expression when there is one; otherwise `false` for an empty set or a source `new RegExp` refuses, or the assembled expression, which it caches |
| MinimatchObject.BaseName | dist/upload-lighthouse/index.js:5586-5590 | the loop from the end finds the last non-empty name, or the first name |
| MinimatchObject.BraceExpand | dist/upload-lighthouse/index.js:5078-5100 | `braceExpand` gives the specified alternatives |
| MinimatchObject.BraceExpandPattern | dist/upload-lighthouse/index.js:5072-5074 | `minimatch.braceExpand` refuses a pattern over the length limit, and otherwise gives the alternatives |
| MinimatchObject.ParseSet | dist/upload-lighthouse/index.js:5026-5028 | parsing every alternative stops at the TypeError of the first portion over the length limit |
| MinimatchObject.ParsePortions | dist/upload-lighthouse/index.js:5027 | parsing one alternative's names, likewise |
| MinimatchObject.New | dist/upload-lighthouse/index.js:4958-4985 | `new Minimatch` refuses a pattern over the length limit, reports the TypeError of `make`, or gives a fresh object holding the built pattern |
| MinimatchObject.Matches | dist/upload-lighthouse/index.js:4945-4956 | `minimatch(path, pattern, options)` computes the specified verdict |
| MinimatchObject.Kept | dist/upload-lighthouse/index.js:5546-5548 | the kept paths are no more than the list |
| MinimatchObject.KeptIs | dist/upload-lighthouse/index.js:5546-5548 | a path is kept iff it is in the list and matches |
| MinimatchObject.MatchList | dist/upload-lighthouse/index.js:5543-5553 | `minimatch.match(list, pattern, options)` gives the specified list |
| MinimatchObject.Filter | dist/upload-lighthouse/index.js:5546-5548 | the filter loop keeps the matching paths in order |
| MinimatchObject.MakeReOf | dist/upload-lighthouse/index.js:5493-5495 | `minimatch.makeRe` gives the expression of the built pattern, or an error |
| ReportKeys.FormFactorName | src/upload-lighthouse/upload-to-s3.ts:13 | the report type is `mobile` or `desktop` |
| ReportKeys.BranchName | src/upload-lighthouse/upload-to-s3.ts:40 | `process.env.BRANCH_NAME \|\| ''`: the variable's value when it is set, "" otherwise |
| ReportKeys.ReportType | src/upload-lighthouse/upload-to-s3.ts:42 | `main_reports` exactly for the branch `main`, `pr_reports` for every other branch |
| ReportKeys.ReportKey | src/upload-lighthouse/upload-to-s3.ts:21 | the key of a report lies under the destination directory and ends in `.html` |
| ReportKeys.ReportKeyInjective | src/upload-lighthouse/upload-to-s3.ts:20-21 | different positions give different keys |
| ReportKeys.Uploads | src/upload-lighthouse/upload-to-s3.ts:20-34 | one request per report, in order, with the key for its 1-based position, its body, the `docs-lighthouse` bucket, `text/html`, `no-cache` and the given ACL |
| ReportKeys.UploadsShape | src/upload-lighthouse/upload-to-s3.ts:20-34 | every request of a batch lies under the directory and no two of them overwrite each other |
| ReportKeys.UploadKeysDistinct | src/upload-lighthouse/uploadToS3.ts:23-37 | no two uploads of one batch share a key |
| ReportKeys.StripDesktopSuffix | src/upload-lighthouse/uploadToS3.ts:18 | a trailing `?desktop` is removed, and an address without it is kept |
| ReportKeys.StripDesktopAppended | src/upload-lighthouse/index.ts:43 | appending `?desktop` and stripping it gives the page address back |
| UploadToS3.UploadHtmlToS3 | src/upload-lighthouse/upload-to-s3.ts:11-49 | one public-read request per report with its HTML as body, every key under the derived path, no two keys equal |
| UploadToS3.CleanDesktopAnywhere | src/upload-lighthouse/upload-to-s3.ts:44-46 | `?desktop` is removed wherever it first occurs, and what follows it is kept |
| UploadToS3.FirstDesktopAt | src/upload-lighthouse/upload-to-s3.ts:45 | the first `?desktop` sits right after a `?`-free start |
| UploadToS3.CleanPage | src/upload-lighthouse/upload-to-s3.ts:44-46 | the local-server prefix and one trailing slash are removed: `page/` gives `page`, `page//` gives `page/` |
| UploadToS3.NoDesktop | src/upload-lighthouse/upload-to-s3.ts:45 | a `?`-free address loses nothing to removing `?desktop` |
| UploadToS3.PagePath | src/upload-lighthouse/upload-to-s3.ts:38-49 | a served page is stored under `<report type>/<commit>/<page>/<type>` |
| UploadToS3Dashed.UploadHtmlToS3 | src/upload-lighthouse/uploadToS3.ts:6-39 | one public-read request per report with its HTML as body, every key under the dashed destination directory, no two keys equal |
| UploadToS3Dashed.CleanedUrlHasNoSlash | src/upload-lighthouse/uploadToS3.ts:17-19 | the cleaned page path holds no slash, so it is one key component |
| UploadToS3Dashed.SlashesBecomeOneDash | src/upload-lighthouse/uploadToS3.ts:19 | a single and a double slash each become one dash |
| UploadToS3Dashed.TwoLevelPage | src/upload-lighthouse/uploadToS3.ts:17-19 | a page `x/y/` is stored as `x-y-` |
| UploadToS3Dashed.DocsAtlasExample | src/upload-lighthouse/uploadToS3.ts:17-19 | `docs/atlas/` is stored as `docs-atlas-` |
| UploadToS3Dashed.ServedPage | src/upload-lighthouse/uploadToS3.ts:17-19 | the address of a page on the local server is cleaned from the page alone |
| UploadToS3Dashed.TwoLevelSplit | src/upload-lighthouse/uploadToS3.ts:19 | `x/y/` splits at its slashes into `x`, `y` and an empty last piece |
| UploadLighthouse.UrlWithDashesPlain | src/upload-lighthouse/index.ts:45 | no `:`, `/` or `?` is left in the dashed address |
| UploadLighthouse.SeparatorsCollapse | src/upload-lighthouse/index.ts:45 | `://` and `/?` each become one dash, not two |
| UploadLighthouse.NoQueryKept | src/upload-lighthouse/index.ts:43 | a `?`-free address has no `?desktop` suffix to strip |
| UploadLighthouse.DesktopAfterSlash | src/upload-lighthouse/index.ts:43-45 | with its only `?` right after a slash, an address ends in `?desktop` only when the rest is `desktop` |
| UploadLighthouse.DestinationDir | src/upload-lighthouse/index.ts:47 | the destination directory starts with `/` |
| UploadLighthouse.Upload | src/upload-lighthouse/index.ts:29-66 | one request per run, each with the placeholder body and no ACL, every key under the destination directory, no two keys equal |
| RegexSplit.FirstAlt | src/upload-lighthouse/index.ts:45 | the first alternative of the expression the text starts with, every earlier one failing, or none |
| RegexSplit.SplitFrom | src/upload-lighthouse/uploadToS3.ts:19 | splitting at the alternatives gives at least one piece |
| RegexSplit.PiecesAvoid | src/upload-lighthouse/uploadToS3.ts:19 | a character that is an alternative by itself never survives into a piece |
| RegexSplit.FirstAltNone | src/upload-lighthouse/index.ts:45 | when no alternative starts with the first character, none is found |
| RegexSplit.SkipPlain | src/upload-lighthouse/index.ts:45 | a run that starts no alternative joins the current piece |
| RegexSplit.JoinAvoids | src/upload-lighthouse/index.ts:45 | joining pieces without a character, with a separator without it, gives a text without it |
| RegexSplit.SplitJoinAvoids | src/upload-lighthouse/index.ts:45 | splitting at the alternatives and joining with a dash removes every single-character alternative |
| RegexSplit.SplitTwo | src/upload-lighthouse/index.ts:45 | two plain runs around one separator split into exactly those two runs |
| RegexSplit.AfterAlt | src/upload-lighthouse/index.ts:45 | the alternative found first ends the current piece |
| RegexSplit.OnlyPlain | src/upload-lighthouse/index.ts:45 | a plain run is one piece |
| Decimal.NatToString | src/upload-lighthouse/upload-to-s3.ts:21 | `String(n)` is decimal digits without a leading zero |
| Decimal.IntToString | src/upload-lighthouse/upload-to-s3.ts:21 | `String(i)` of a negative number is `-` and the digits of its magnitude |
| Decimal.DigitsOfNat | src/upload-lighthouse/upload-to-s3.ts:21 | the printed digits read back as the number |
| Decimal.NatToStringInjective | src/upload-lighthouse/upload-to-s3.ts:21 | different numbers print differently |
| ParserVersion.Literal | src/rebuild-parse-cache/src/get-parser-version.ts:5 | the literal part of the expression, one atom per character |
| ParserVersion.DigitRunDigits | src/rebuild-parse-cache/src/get-parser-version.ts:5 | the digit run from a position is made of digits and stops before a non-digit, so `\d+` starts with the longest run |
| ParserVersion.MatchFrom | src/rebuild-parse-cache/src/get-parser-version.ts:5 | a match from a position ends within the text |
| ParserVersion.TryRuns | src/rebuild-parse-cache/src/get-parser-version.ts:5 | backtracking over shorter digit runs ends within the text |
| ParserVersion.FirstMatch | src/rebuild-parse-cache/src/get-parser-version.ts:4-6 | the leftmost start where the expression matches, with that match's end; none when it matches nowhere |
| ParserVersion.GetParserVersion | src/rebuild-parse-cache/src/get-parser-version.ts:1-19 | the error "Could not find SNOOTY_PARSER_VERSION" exactly when the expression matches nowhere; otherwise a non-empty version starting with a digit |
| ParserVersion.MatchedField | src/rebuild-parse-cache/src/get-parser-version.ts:15-18 | the field after the first `=` of a match, trimmed, is non-empty and starts with a digit |
| ParserVersion.KeyThenDigit | src/rebuild-parse-cache/src/get-parser-version.ts:15-18 | for a text that is the key then a digit, `split('=')[1].trim()` is non-empty and starts with that digit |
| ParserVersion.MatchShape | src/rebuild-parse-cache/src/get-parser-version.ts:5 | a match is the key `SNOOTY_PARSER_VERSION=` followed by a digit |
| ParserVersion.TryRunsEnd | src/rebuild-parse-cache/src/get-parser-version.ts:5 | `\d+` takes at least one digit |
| ParserVersion.LiteralMatch | src/rebuild-parse-cache/src/get-parser-version.ts:5 | the literal part matches exactly where its text occurs |
| ParserVersion.SplitKey | src/rebuild-parse-cache/src/get-parser-version.ts:15 | the key holds its only `=` at its end, so `split('=')[1]` is what follows it, up to the next `=` |
| ParserVersion.KeyName | src/rebuild-parse-cache/src/get-parser-version.ts:5 | the key `SNOOTY_PARSER_VERSION=` is 22 characters and its only `=` is its last |
| ParserVersion.FieldHead | src/rebuild-parse-cache/src/get-parser-version.ts:15 | the first field of a text not starting with `=` starts with its first character |
| ParserVersion.TrimKeepsHead | src/rebuild-parse-cache/src/get-parser-version.ts:18 | trimming keeps a first character that is not whitespace |
| ParserVersion.NoKeyNoVersion | src/rebuild-parse-cache/src/get-parser-version.ts:8-11 | a text without the key is an error, whatever else it holds |
| ParserVersion.VersionRead | src/rebuild-parse-cache/src/get-parser-version.ts:1-19 | a text starting with the key and a version `x.y.z` (or `x.y.` with no patch) yields exactly that version |
| ParserVersion.VersionAt | src/rebuild-parse-cache/src/get-parser-version.ts:5 | after the key, the expression matches exactly such a version |
| ParserVersion.VersionLayout | src/rebuild-parse-cache/src/get-parser-version.ts:5 | where the pieces of a version sit |
| ParserVersion.KeyThenVersion | src/rebuild-parse-cache/src/get-parser-version.ts:5 | indexing into the key, the version and what follows |
| ParserVersion.DigitRunAt | src/rebuild-parse-cache/src/get-parser-version.ts:5 | the digit run ends at the first non-digit |
| ParserVersion.TailMatch | src/rebuild-parse-cache/src/get-parser-version.ts:5 | the part after the key matches digits, a character, digits, a character and optional digits |
| ParserVersion.OptDigitsAll | src/rebuild-parse-cache/src/get-parser-version.ts:5 | a final `(\d+)?` takes every digit there is |
| ParserVersion.AnyCharStep | src/rebuild-parse-cache/src/get-parser-version.ts:5 | `.` consumes one character that is not a line terminator |
| ParserVersion.DigitsStep | src/rebuild-parse-cache/src/get-parser-version.ts:5 | `\d+` followed by a matching rest, after its longest run, matches there |
| ParserVersion.MatchedVersion | src/rebuild-parse-cache/src/get-parser-version.ts:13-18 | when the match at the start is the key and `v`, the result is `v` |
| ParserVersion.MatchAtStart | src/rebuild-parse-cache/src/get-parser-version.ts:4-6 | a text starting with the key and a match of the rest matches first at its start |
| ParserVersion.KeyThenField | src/rebuild-parse-cache/src/get-parser-version.ts:15-18 | after the key, a field with no `=` and no whitespace at its ends is the result of `split('=')[1].trim()` |
| ParserVersion.TrimWhole | src/rebuild-parse-cache/src/get-parser-version.ts:18 | trimming leaves a text without whitespace at its ends unchanged |
| ParserVersion.ReleaseVersion | src/rebuild-parse-cache/src/get-parser-version.ts:3 | `SNOOTY_PARSER_VERSION=0.15.2` yields `0.15.2` |
| ParserVersion.LetterSeparators | src/rebuild-parse-cache/src/get-parser-version.ts:5 | the dots are not escaped, so `1x2y` is read as a version too |
| ParserVersion.TwoNumbersOnly | src/rebuild-parse-cache/src/get-parser-version.ts:5-11 | `SNOOTY_PARSER_VERSION=1.2` at the end of the text is an error |
| ParserVersion.NoMatchInShort | src/rebuild-parse-cache/src/get-parser-version.ts:5 | the expression matches nowhere in the key followed by a two-number version |
| ParserVersion.NoMatchAt | src/rebuild-parse-cache/src/get-parser-version.ts:5 | no start in the key followed by `d.d` matches: at 0 the tail fails, later the key's `=` would fall on a digit or separator |
| ParserVersion.ShortTail | src/rebuild-parse-cache/src/get-parser-version.ts:5 | after the key, a digit, a separator and a final digit leave the second separator nothing to match |
| StableSort.Insert | dist/upload-lighthouse/index.js:2047-2048 | inserting adds exactly one element |
| StableSort.Sort | dist/upload-lighthouse/index.js:2047-2048 | the sort keeps the length; `SortPermutes`, `SortSorted` and `SortStable` state that it permutes, sorts and is stable |
| StableSort.InsertPermutes | dist/upload-lighthouse/index.js:2047-2048 | inserting adds the element to the multiset |
| StableSort.InsertSorted | dist/upload-lighthouse/index.js:2047-2048 | inserting into a sorted list keeps it sorted |
| StableSort.SortedSubsequence | dist/upload-lighthouse/index.js:2065-2068 | dropping elements from a sorted list keeps it sorted |
| DebugNamespaces.ToInt32 | dist/upload-lighthouse/index.js:4108 | `hash \|= 0` gives the value in [-2^31, 2^31) congruent to the sum modulo 2^32 |
| DebugNamespaces.ToInt32Congruent | dist/upload-lighthouse/index.js:4107-4108 | congruent numbers wrap to the same value |
| DebugNamespaces.HashStep | dist/upload-lighthouse/index.js:4107-4108 | one step of the hash loop stays a 32-bit integer |
| DebugNamespaces.Hash | dist/upload-lighthouse/index.js:4104-4109 | the hash stays a 32-bit integer |
| DebugNamespaces.HashStepIs | dist/upload-lighthouse/index.js:4107-4108 | one step is `31 * hash + code` wrapped to 32 bits |
| DebugNamespaces.HashIsPolynomial | dist/upload-lighthouse/index.js:4103-4109 | the hash is the base-31 polynomial of the character codes, wrapped to 32 bits |
| DebugNamespaces.SelectColor | dist/upload-lighthouse/index.js:4103-4112 | the color is `colors[abs(hash) % 6]`, one of `[6, 2, 3, 4, 5, 1]` |
| DebugNamespaces.SeparatorRun | dist/upload-lighthouse/index.js:4203 | the run of whitespace and commas at the start of a text |
| DebugNamespaces.SplitNamespaces | dist/upload-lighthouse/index.js:4203 | `split(/[\s,]+/)` gives at least one piece and no piece holds whitespace or a comma |
| DebugNamespaces.Compile | dist/upload-lighthouse/index.js:4208-4212 | every `*` becomes a lazy run of any characters, `.` any one character, any other character itself |
| DebugNamespaces.LiteralMatchesItself | dist/upload-lighthouse/index.js:4210-4212 | the anchored pattern of a piece without `*` or `.` matches exactly that name |
| DebugNamespaces.StarMatchesAll | dist/upload-lighthouse/index.js:4208 | `*` enables every name without a line terminator |
| DebugNamespaces.PrefixStar | dist/upload-lighthouse/index.js:4208 | `prefix*` matches every name that starts with the prefix |
| DebugNamespaces.NamesOf | dist/upload-lighthouse/index.js:4206-4214 | at most one name per piece |
| DebugNamespaces.SkipsOf | dist/upload-lighthouse/index.js:4206-4214 | at most one skip per piece |
| DebugNamespaces.Debug.constructor | dist/upload-lighthouse/index.js:4200-4201 | no names and no skips |
| DebugNamespaces.Debug.Enable | dist/upload-lighthouse/index.js:4197-4215 | `enable` replaces the names and skips by those of the pieces of the list, a non-string reading as "" |
| DebugNamespaces.Debug.Disable | dist/upload-lighthouse/index.js:4223-4225 | `disable` leaves no names and no skips |
| DebugNamespaces.Debug.Enabled | dist/upload-lighthouse/index.js:4235-4248 | a name is enabled iff no skip matches it and some name does |
| DebugNamespaces.SkipWins | dist/upload-lighthouse/index.js:4237-4241 | a matching skip disables a name whatever the names say |
| DebugNamespaces.SkipAndName | dist/upload-lighthouse/index.js:4203-4214 | the list `-x,x` gives one skip and one name, both for `x` |
| DebugNamespaces.SplitPlain | dist/upload-lighthouse/index.js:4203 | characters that are not separators join the current piece |
| DebugNamespaces.NothingEnabled | dist/upload-lighthouse/index.js:4223-4248 | after `disable`, or with no string, no name is enabled |
| Marky.Lead | dist/upload-lighthouse/index.js:4733-4744 | the count of leading entries that start before the time: all before it do, the one at it (if any) does not |
| Marky.LeadUnique | dist/upload-lighthouse/index.js:4737-4744 | in a sorted list that place is unique |
| Marky.InsertedSorted | dist/upload-lighthouse/index.js:4733-4746 | inserting keeps the entries sorted by start time |
| Marky.InsertedContents | dist/upload-lighthouse/index.js:4745 | the new list is the old one plus the entry |
| Marky.InsertedBeforeEqual | dist/upload-lighthouse/index.js:4739-4743 | the new entry goes before every entry with the same start time |
| Marky.FindSlot | dist/upload-lighthouse/index.js:4734-4744 | the binary search stops between the entries that start before the time and the others; on a sorted list that is the unique such place |
| Marky.StopEntry | dist/upload-lighthouse/index.js:4799-4817 | `stop` fails with "name must be non-empty" on an empty name and with "no known mark: name" for a missing mark or one at time 0; otherwise the entry starts at the mark and lasts until now |
| Marky.MarkThenStop | dist/upload-lighthouse/index.js:4794-4817 | `mark` at `t0` then `stop` at `t1` measures `t1 - t0` |
| Marky.OtherMarkIgnored | dist/upload-lighthouse/index.js:4797-4802 | a `mark` of another name leaves a measure unchanged |
| Marky.Timer.constructor | dist/upload-lighthouse/index.js:4792-4793 | no marks, no entries |
| Marky.Timer.Mark | dist/upload-lighthouse/index.js:4794-4798 | `mark` refuses an empty name and otherwise records the time under the name, entries unchanged |
| Marky.Timer.Insert | dist/upload-lighthouse/index.js:4733-4746 | `insertSorted` splices the entry in at its place and keeps the list sorted |
| Marky.Timer.Stop | dist/upload-lighthouse/index.js:4799-4817 | `stop` returns the specified entry or error, filing the entry on success |
| Marky.Timer.GetEntries | dist/upload-lighthouse/index.js:4818 | `getEntries` returns the current entries (as a value; see Left out) |
| Marky.Timer.Clear | dist/upload-lighthouse/index.js:4819-4822 | `clear` leaves no marks and no entries |
| EscapeRegexp.Escape | dist/upload-lighthouse/index.js:1478-1486 | escaping adds one backslash per special character |
| EscapeRegexp.EscapeRoundTrip | dist/upload-lighthouse/index.js:1478-1486 | the escaped text, read as a literal pattern, is the original |
| EscapeRegexp.EscapePlain | dist/upload-lighthouse/index.js:1478-1486 | text without special characters is left as it is |
| EscapeRegexp.EscapeAppend | dist/upload-lighthouse/index.js:1485 | escaping distributes over concatenation |
| EscapeRegexp.Example | dist/upload-lighthouse/index.js:1485 | `a.b*` becomes `a\.b\*` |
| ConcatMap.Apply | dist/upload-lighthouse/index.js:1494-1502 | `concatMap` pushes each result, spreading arrays, in order |
| ConcatMap.ConcatenatedHas | dist/upload-lighthouse/index.js:1494-1502 | a value is in the result iff some element's result holds it |
| ConcatMap.ConcatenatedOnes | dist/upload-lighthouse/index.js:1494-1502 | with single values only, the result is as long as the input and holds them in order |
| OptionMerge.Ext | dist/upload-lighthouse/index.js:4888-4898 | the merged options have every key of both; `b`'s value wins, `a`'s value stays where `b` has none |
| OptionMerge.ExtNone | dist/upload-lighthouse/index.js:4888-4898 | without overrides the result copies the defaults |
| OptionMerge.ExtAssociative | dist/upload-lighthouse/index.js:4900-4936 | merging twice is merging with the merged overrides (nested `defaults`) |
| OptionMerge.ExtIdempotent | dist/upload-lighthouse/index.js:4888-4898 | laying the same options over the result again changes nothing |

## Left out

- The asynchronous `Glob` class, with its event emitter, `inflight`, `once`, `wrappy` and `inherits`. Only the synchronous `GlobSync` walk is modelled. The asynchronous walk visits the same places in a different order.
- The real file system: `fs.readdirSync`, `statSync`, `lstatSync`, `realpathSync` and `fs.realpath`. It is a `FileSystem` parameter with a `RealPath` function. `rimraf` and `mkdirp` are not part of this model.
- Native `RegExp` semantics. A `Magic` segment is tested by the `Engine` parameter, given the regular-expression source the model builds. The chrome-launcher priority regexes that chrome-finder applies to installation paths are left out for the same reason.
- DebugNamespaces.Debug.Enabled: namespace patterns treat `*` and `.` as the `RegExp` treats them (`.` is any one character but a line terminator) and every other character as literal. The bundle builds a `RegExp`, so other metacharacters in a namespace would be interpreted there.
- `save`, `load`, `createDebug`, `coerce`, `formatters` and the output functions: environment or console I/O.
- EscapeRegexp.Escape: the `typeof` check that throws `TypeError` on a non-string is not modelled. A Dafny `string` is always a string.
- `localeCompare` (GlobCommon's `alphasort`) is an abstract ordering parameter. Its locale-dependent result is not modelled.
- `path.join`, `path.resolve` and `process.cwd()` are parameters (`PathOps`) and are not computed.
- The Windows branches (`process.platform === 'win32'`, backslash handling, drive letters, `path.win32.isAbsolute`) are left out. The model is POSIX only.
- Floating point. `marky` times, `ms`/`humanize` formatting, the median-run helpers and `getAverageSummary` are left out; times in `Marky` are integers. The `performance` API branch of `marky` is left out.
- Process spawning, sockets, clocks and the Chrome `launch`/`kill`/`logLevel` machinery of chrome-launcher are I/O and are left out. Only its pure path and flag helpers are modelled.
- Characters are Unicode scalar values, not UTF-16 code units. `charCodeAt` (in `selectColor`'s hash and in alphabetic brace sequences) and the surrogate pairs that `for…in` and `split('')` would separate are not modelled.
- Balanced: `balanced(a, b, str)` is modelled with single-character delimiters, the only form the bundle uses (`{` and `}`). Multi-character and `RegExp` delimiters are left out.
- BraceExpansion.ExpandSpec: on concrete patterns only `a{b,c}d` is proved by evaluation (`ExpandTopExample`). The nested shape `a{b,c{d,e}f}g` is proved for every plain choice of its parts by `NestedOptions` (with `pre = a`, `m = b`, `x = c`, `d`, `e`, `y = f`, `post = g` it gives `abg`, `acdfg`, `acefg`), and the empty member of `a{b,}c` by `FlatOptions`. Deeper nesting is covered only by the general lemmas (`ExpandSpec`'s measure, `CombineAt`), not by an explicit list of expansions.
- BraceExpander.Sequence: a sequence whose step is `0` (`{1..5..0}`) makes the bundle's `for` loop run forever. `ExpandSpec` gives `None` there, and the methods require the expansion to be `Some`.
- Marky.FindSlot: `(low + high) >>> 1` is modelled as `(low + high) / 2`. These are equal for lists shorter than 2^31 entries.
- The `Math.random()` placeholders of brace-expansion's escaping are fixed sentinel strings. The escape round-trip lemmas require that the input does not contain them.
- GlobSyncModel.GlobSync.Process, GlobSyncModel.GlobSync.ProcessReaddir, GlobSyncModel.GlobSync.ProcessGlobStar: the recursion is bounded by a `fuel` argument, the depth of the walk. Their contracts state only that the walk grows its own alternative's match set and keeps the class invariant. No member states which paths a complete recursive walk finds. GlobSyncModel.GlobSync.ProcessSimple, which does not recurse, is fully specified by `SimpleSpec`, and `SimpleRecords` states what it records.
- BraceExpansion.SeqValueIff, BraceExpansion.ItemDenotes, BraceExpansion.Numeric: sequence endpoints, steps and values are unbounded integers. The bundle reads them with `parseInt` into doubles and prints them with `String(i)`, so it loses precision at and above 2^53 and prints exponent form from 1e21 on (`{99999999999999999999..99999999999999999999}` gives `100000000000000000000` there). `Decimal.IntToString` prints every integer in full. Both results agree below 2^53.
- GlobCommon.GlobMinimatchOptions, GlobCommon.Configure: `setopts` also writes `nonegate`, `nocomment` and `allowWindowsEscape = false` into the caller's own options object (index.js:2007-2010). The model returns a new options value, so that aliasing is not modelled.
- Marky.Timer.GetEntries: `getEntries` returns the live `entries` array, so a caller holding it sees later `stop` calls splice into it, and keeps the old array after `clear` replaces it. The model returns a copy of the entries, so this aliasing is not captured.
- MinimatchParse.ParseSpec: every member built on it (`Compile`, `MakeRe`, `MatchOne`, the glob walk) uses the intended reading of an unclosed `[` (`SubParse`), not the code as written at index.js:5367-5368. So `minimatch('a[', '*[')` holds in the model and fails in the bundle. The Findings table gives both halves.
- MinimatchParseFacts.EscapedPortion: `\@` is excluded, because `reSpecials` lacks `@` and the bundle still opens an extglob there; `\/` is excluded because `/` ends a portion.
- When `noprocess` is set, the bundle leaves `found` unset; `GlobSyncModel.Glob` returns `Ok(None)` there.
- `getCurrentBranchSafe`, `getGitRemote` and the other `git` wrappers of the build-context code are left out. Their outputs are inputs of `BuildContext`.
- The CI glue is left out: PR comments, artifact download, the Mongo fetch and the S3 `send`. The S3 uploads are modelled as the request values (bucket, key, body) that would be sent.

## Findings

| source | as written | input that shows it | evidently intended | confidence | as-written member | corrected member |
|---|---|---|---|---|---|---|
| dist/upload-lighthouse/index.js:5367-5368 | at the end of a segment with an unclosed `[`, the re-parse of the text after `[` runs in sub-parse mode and returns a string. The code then reads `sp[0]` from that string, which is `undefined`, so the source gains `\[undefined` | the pattern `*[` | the unclosed `[` is a literal `\[`, followed by the parsed rest | not executed | MinimatchParseFacts.UnclosedClassAsWritten | MinimatchParseFacts.UnclosedClass |
