// What a Minimatch object computes from its pattern, as functions: the
// comment and empty shortcuts, `parseNegate`, `braceExpand`, the split of
// each alternative at runs of `/`, `parse` of every portion and the filter
// of the alternatives that did not compile; then `match` over the set and
// the single expression of `makeRe`.
module MinimatchMake {
  import opened Wrappers
  import opened JsString
  import opened BraceExpansion
  import opened MinimatchParse
  import opened MinimatchMatch
  import opened MinimatchParseFacts

  // ---- Splitting at `/+` ----

  /** The end of the name that starts at `i`: the next `/`, or the end. */
  function NameEnd(s: string, i: nat): (j: nat)
    requires i <= |s|
    ensures i <= j <= |s| && (j < |s| ==> s[j] == '/')
    ensures forall m :: i <= m < j ==> s[m] != '/'
    decreases |s| - i
  {
    if i < |s| && s[i] != '/' then NameEnd(s, i + 1) else i
  }

  /** The end of the run of `/` that starts at `i`. */
  function SkipSlashes(s: string, i: nat): (j: nat)
    requires i <= |s|
    ensures i <= j <= |s| && (j < |s| ==> s[j] != '/')
    ensures forall m :: i <= m < j ==> s[m] == '/'
    decreases |s| - i
  {
    if i < |s| && s[i] == '/' then SkipSlashes(s, i + 1) else i
  }

  /** `s.split(/\/+/)`: the names between runs of slashes.  Only the first
      and the last name can be empty (a leading or a trailing slash). */
  function SplitSlashes(s: string): (r: seq<string>)
    ensures |r| >= 1
    ensures forall k :: 0 <= k < |r| ==> NoChar(r[k], '/')
    ensures |s| > 0 && s[0] != '/' ==> r[0] != ""
    ensures forall k :: 0 < k < |r| - 1 ==> r[k] != ""
    decreases |s|
  {
    var i := NameEnd(s, 0);
    if i == |s| then [s]
    else
      var j := SkipSlashes(s, i);
      [s[..i]] + SplitSlashes(s[j..])
  }

  /** No two slashes in a row. */
  predicate SingleSlashes(s: string)
  {
    forall k :: 0 <= k < |s| - 1 ==> !(s[k] == '/' && s[k + 1] == '/')
  }

  /** Without doubled slashes, splitting at runs of `/` is splitting at
      `/`, and joining the names with `/` gives the path back. */
  lemma {:induction false} SplitSlashesSingle(s: string)
    requires SingleSlashes(s)
    ensures SplitSlashes(s) == Split(s, "/")
    ensures Join(SplitSlashes(s), "/") == s
    decreases |s|
  {
    var i := NameEnd(s, 0);
    var x := IndexOf(s, "/", 0);
    forall m | 0 <= m < i ensures !OccursAt(s, "/", m) {
      OccursAtChar(s, '/', m);
    }
    if i < |s| {
      OccursAtChar(s, '/', i);
      assert x == i;
      var j := SkipSlashes(s, i);
      if i + 1 < |s| {
        assert s[i + 1] != '/';
      }
      assert SkipSlashes(s, i + 1) == i + 1;
      assert j == i + 1;
      assert SingleSlashes(s[j..]) by {
        forall k | 0 <= k < |s[j..]| - 1 ensures !(s[j..][k] == '/' && s[j..][k + 1] == '/') {
          assert s[j..][k] == s[j + k] && s[j..][k + 1] == s[j + k + 1];
        }
      }
      SplitSlashesSingle(s[j..]);
    } else {
      if x >= 0 {
        OccursAtChar(s, '/', x);
      }
      assert x == -1;
    }
  }

  // ---- parseNegate ----

  /** The number of leading `!`. */
  function NegateCount(p: string): (n: nat)
    ensures n <= |p| && (forall k :: 0 <= k < n ==> p[k] == '!') && (n < |p| ==> p[n] != '!')
  {
    if p != [] && p[0] == '!' then 1 + NegateCount(p[1..]) else 0
  }

  /** `parseNegate()`: an odd number of leading `!` negates the pattern, and
      the `!` are dropped; with `nonegate` nothing changes. */
  function ParseNegateSpec(p: string, nonegate: bool): (r: (bool, string))
  {
    if nonegate then (false, p)
    else (NegateCount(p) % 2 == 1, p[NegateCount(p)..])
  }

  // ---- braceExpand ----

  /** Indices `m` with `lo <= m < hi` hold neither `{` nor a line
      terminator (what `(?:(?!\{).)*` accepts). */
  predicate Clean(s: string, lo: int, hi: int)
    requires 0 <= lo && hi <= |s|
  {
    forall m :: lo <= m < hi ==> s[m] != '{' && !IsLineTerminator(s[m])
  }

  /** A match of `/\{(?:(?!\{).)*\}/` from `i` to `j`. */
  predicate BraceSetAt(s: string, i: int, j: int)
  {
    0 <= i < j < |s| && s[i] == '{' && s[j] == '}' && Clean(s, i + 1, j)
  }

  /** The scan that tests for such a match: `open` is the last `{` not yet
      cut off by another `{` or a line terminator, or -1. */
  function BraceScan(s: string, k: nat, open: int): bool
    requires k <= |s|
    decreases |s| - k
  {
    if k == |s| then false
    else if s[k] == '{' then BraceScan(s, k + 1, k)
    else if s[k] == '}' && open >= 0 then true
    else if IsLineTerminator(s[k]) then BraceScan(s, k + 1, -1)
    else BraceScan(s, k + 1, open)
  }

  /** `/\{(?:(?!\{).)*\}/.test(s)`. */
  predicate HasBraceSet(s: string)
  {
    BraceScan(s, 0, -1)
  }

  /** What the scan knows at `k`: no match ends before `k`, and `open` is
      the `{` whose clean run reaches `k`, if any. */
  ghost predicate ScanState(s: string, k: nat, open: int)
    requires k <= |s|
  {
    && (forall i, j :: BraceSetAt(s, i, j) ==> j >= k)
    && (open >= 0 ==> open < k && s[open] == '{' && Clean(s, open + 1, k))
    && (open < 0 ==> forall i :: 0 <= i < k && s[i] == '{' ==> !Clean(s, i + 1, k))
  }

  lemma {:induction false} BraceScanIs(s: string, k: nat, open: int)
    requires k <= |s| && ScanState(s, k, open)
    ensures BraceScan(s, k, open) <==> exists i, j :: BraceSetAt(s, i, j)
    decreases |s| - k
  {
    if k == |s| {
      forall i, j | BraceSetAt(s, i, j) ensures false {
      }
    } else if s[k] == '{' {
      BraceScanStep(s, k, open, k);
      BraceScanIs(s, k + 1, k);
    } else if s[k] == '}' && open >= 0 {
      assert BraceSetAt(s, open, k);
    } else if IsLineTerminator(s[k]) {
      BraceScanStep(s, k, open, -1);
      BraceScanIs(s, k + 1, -1);
    } else {
      BraceScanStep(s, k, open, open);
      BraceScanIs(s, k + 1, open);
    }
  }

  /** One character of the scan keeps what it knows. */
  lemma BraceScanStep(s: string, k: nat, open: int, next: int)
    requires k < |s| && ScanState(s, k, open)
    requires !(s[k] == '}' && open >= 0)
    requires next == if s[k] == '{' then k else if IsLineTerminator(s[k]) then -1 else open
    ensures ScanState(s, k + 1, next)
  {
    forall i, j | BraceSetAt(s, i, j) ensures j >= k + 1 {
      if j == k {
        assert false;
      }
    }
    if next < 0 {
      forall i | 0 <= i < k + 1 && s[i] == '{' ensures !Clean(s, i + 1, k + 1) {
        if i < k {
          assert s[k] == '{' || IsLineTerminator(s[k]) || !Clean(s, i + 1, k);
        }
      }
    }
  }

  /** The scan finds a brace set exactly when the expression has a match. */
  lemma HasBraceSetIs(s: string)
    ensures HasBraceSet(s) <==> exists i, j :: BraceSetAt(s, i, j)
  {
    BraceScanIs(s, 0, -1);
  }

  /** `braceExpand()`: with `nobrace`, or without a `{..}` the expression
      above matches, the pattern alone; otherwise `expandTop`, None where it
      never returns. */
  function BraceExpandSpec(p: string, nobrace: bool): (r: Option<seq<string>>)
    ensures (nobrace || NoChar(p, '{')) ==> r == Some([p])
  {
    HasBraceSetIs(p);
    if nobrace || !HasBraceSet(p) then Some([p]) else ExpandTop(p)
  }

  // ---- make ----

  /** `parse` of every portion of one alternative. */
  function ParseRow(parts: seq<string>, o: Options, e: Engine): (r: seq<Parsed>)
    ensures |r| == |parts| && forall k :: 0 <= k < |parts| ==> r[k] == ParseSpec(parts[k], o, e)
  {
    if parts == [] then [] else [ParseSpec(parts[0], o, e)] + ParseRow(parts[1..], o, e)
  }

  /** Every alternative split at `/+` and parsed. */
  function ParseRows(alts: seq<string>, o: Options, e: Engine): (r: seq<seq<Parsed>>)
    ensures |r| == |alts| && forall k :: 0 <= k < |alts| ==> r[k] == ParseRow(SplitSlashes(alts[k]), o, e)
  {
    if alts == [] then [] else [ParseRow(SplitSlashes(alts[0]), o, e)] + ParseRows(alts[1..], o, e)
  }

  predicate AllCompiled(row: seq<Parsed>)
  {
    forall k :: 0 <= k < |row| ==> row[k].Compiled?
  }

  /** Some portion of the row is over the length limit. */
  predicate RowTooLong(row: seq<Parsed>)
  {
    exists k :: 0 <= k < |row| && row[k] == TooLong
  }

  predicate AnyTooLong(rows: seq<seq<Parsed>>)
  {
    exists i :: 0 <= i < |rows| && RowTooLong(rows[i])
  }

  /** The parsed row, or the TypeError of a portion over the limit. */
  function RowResult(row: seq<Parsed>): Result<seq<Parsed>, string>
  {
    if RowTooLong(row) then Err("pattern is too long") else Ok(row)
  }

  /** The parsed rows, or the TypeError of a portion over the limit. */
  function SetResult(rows: seq<seq<Parsed>>): Result<seq<seq<Parsed>>, string>
  {
    if AnyTooLong(rows) then Err("pattern is too long") else Ok(rows)
  }

  /** The segments of a row that compiled. */
  function Segs(row: seq<Parsed>): (r: seq<Seg>)
    requires AllCompiled(row)
    ensures |r| == |row| && forall k :: 0 <= k < |row| ==> r[k] == row[k].seg
  {
    if row == [] then [] else [row[0].seg] + Segs(row[1..])
  }

  /** `set.filter(s => s.indexOf(false) === -1)`, in order. */
  function KeepCompiled(rows: seq<seq<Parsed>>): (r: seq<seq<Seg>>)
    ensures |r| <= |rows|
  {
    if rows == [] then []
    else if AllCompiled(rows[0]) then [Segs(rows[0])] + KeepCompiled(rows[1..])
    else KeepCompiled(rows[1..])
  }

  /** The fields `make` leaves behind. */
  datatype Built = Built(
    pattern: string, negate: bool, comment: bool, empty: bool,
    globSet: seq<string>, globParts: seq<seq<string>>, matchSet: seq<seq<Seg>>)

  /** The end of `make`: Made, the TypeError of an over-long portion, or
      no end at all (a brace sequence with step 0). */
  datatype MakeOutcome = Made(built: Built) | Throws(message: string) | Diverges

  /** `set.map(s => s.split(slashSplit))`. */
  function SplitAll(alts: seq<string>): (r: seq<seq<string>>)
    ensures |r| == |alts| && forall k :: 0 <= k < |alts| ==> r[k] == SplitSlashes(alts[k])
  {
    if alts == [] then [] else [SplitSlashes(alts[0])] + SplitAll(alts[1..])
  }

  /** The steps of `make()` after `parseNegate`: `braceExpand`, the split
      of every alternative, `parse` of every portion and the filter. */
  function MakeBody(negate: bool, p: string, o: Options, e: Engine): (r: MakeOutcome)
    ensures r.Made? ==> r.built.pattern == p && r.built.negate == negate
    ensures r.Made? ==> !r.built.comment && !r.built.empty
    ensures r.Made? ==> |r.built.globParts| == |r.built.globSet| && |r.built.matchSet| <= |r.built.globSet|
  {
    match BraceExpandSpec(p, o.nobrace)
    case None => Diverges
    case Some(globSet) =>
      var globParts := SplitAll(globSet);
      match SetResult(ParseRows(globSet, o, e))
      case Err(msg) => Throws(msg)
      case Ok(rows) => Made(Built(p, negate, false, false, globSet, globParts, KeepCompiled(rows)))
  }

  /** `MakeBody` once the brace expansion is known. */
  lemma MakeBodyOf(negate: bool, p: string, o: Options, e: Engine, alts: seq<string>, rows: Result<seq<seq<Parsed>>, string>)
    requires BraceExpandSpec(p, o.nobrace) == Some(alts) && rows == SetResult(ParseRows(alts, o, e))
    ensures rows.Err? ==> MakeBody(negate, p, o, e) == Throws(rows.error)
    ensures rows.Ok? ==> MakeBody(negate, p, o, e) == Made(Built(p, negate, false, false, alts, SplitAll(alts), KeepCompiled(rows.value)))
  {
  }

  /** `make()` on the trimmed pattern. */
  function MakeSpec(pattern: string, o: Options, e: Engine): (r: MakeOutcome)
    ensures r.Made? && r.built.comment ==> r.built.matchSet == [] && !r.built.empty
    ensures r.Made? && r.built.empty ==> pattern == "" && r.built.matchSet == []
  {
    if !o.nocomment && |pattern| > 0 && pattern[0] == '#' then Made(Built(pattern, false, true, false, [], [], []))
    else if pattern == "" then Made(Built(pattern, false, false, true, [], [], []))
    else
      var (negate, p) := ParseNegateSpec(pattern, o.nonegate);
      MakeBody(negate, p, o, e)
  }

  // ---- match ----

  /** The last non-empty name, or the first name when all are empty. */
  function LastName(f: seq<string>, i: nat): (r: string)
    requires i < |f|
    ensures exists k :: 0 <= k <= i && r == f[k] && forall m :: k < m <= i ==> f[m] == ""
    ensures r == "" ==> forall m :: 0 <= m <= i ==> f[m] == ""
  {
    if f[i] != "" || i == 0 then f[i] else LastName(f, i - 1)
  }

  /** Where the last non-empty name stands, `LastName` gives it; with
      every name empty, the first. */
  lemma {:induction false} LastNameAt(f: seq<string>, i: nat, j: nat)
    requires i <= j < |f| && (f[i] != "" || i == 0)
    requires forall m :: i < m <= j ==> f[m] == ""
    ensures LastName(f, j) == f[i]
    decreases j - i
  {
    if j > i {
      LastNameAt(f, i, j - 1);
    }
  }

  /** The names one alternative is matched against: the base name alone
      under `matchBase` for a one-portion alternative. */
  function FileFor(pattern: seq<Seg>, names: seq<string>, filename: string, matchBase: bool): seq<string>
  {
    if matchBase && |pattern| == 1 then [filename] else names
  }

  /** Some alternative of the set matches. */
  predicate Hits(alts: seq<seq<Seg>>, names: seq<string>, filename: string, o: Options, partial: bool, e: Engine)
  {
    exists i :: 0 <= i < |alts| && MatchOneSpec(FileFor(alts[i], names, filename, o.matchBase), alts[i], o.dot, partial, e)
  }

  /** `match(f, partial)`. */
  function MatchSpec(b: Built, o: Options, e: Engine, f: string, partial: bool): bool
  {
    if b.comment then false
    else if b.empty then f == ""
    else if f == "/" && partial then true
    else
      var names := SplitSlashes(f);
      var hit := Hits(b.matchSet, names, LastName(names, |names| - 1), o, partial, e);
      if hit then o.flipNegate || !b.negate
      else !o.flipNegate && b.negate
  }

  // ---- makeRe ----

  /** What `makeRe` leaves in `this.regexp`: not made yet, `false`, or the
      expression by its source and flags. */
  datatype Cached = NotMade | NoRegExp | RegExp(src: string, flags: string)

  /** The expression `makeRe` uses for `**`. */
  function TwoStar(o: Options): string
  {
    if o.noglobstar then Star else if o.dot then TwoStarDot else TwoStarNoDot
  }

  /** One portion as expression text; `/$./` has no `_src`, and `join`
      spells the missing value as the empty string. */
  function PortionSource(s: Seg, twoStar: string): string
  {
    match s
    case Globstar => twoStar
    case Lit(t) => RegExpEscape(t)
    case Magic(_, src, _) => src
    case Never => ""
  }

  function RowSource(row: seq<Seg>, twoStar: string): (r: seq<string>)
    ensures |r| == |row| && forall k :: 0 <= k < |row| ==> r[k] == PortionSource(row[k], twoStar)
  {
    if row == [] then [] else [PortionSource(row[0], twoStar)] + RowSource(row[1..], twoStar)
  }

  function SetSource(alts: seq<seq<Seg>>, twoStar: string): (r: seq<string>)
    ensures |r| == |alts| && forall k :: 0 <= k < |alts| ==> r[k] == Join(RowSource(alts[k], twoStar), "\\/")
  {
    if alts == [] then [] else [Join(RowSource(alts[0], twoStar), "\\/")] + SetSource(alts[1..], twoStar)
  }

  /** The expression text `makeRe()` assembles: the alternatives joined
      with `|`, each its portions joined with `\/`, anchored at both ends; a
      negated pattern matches whatever the plain one does not. */
  function Assembled(b: Built, o: Options): string
  {
    var re := "^(?:" + Join(SetSource(b.matchSet, TwoStar(o)), "|") + ")$";
    if b.negate then "^(?!" + re + ").*$" else re
  }

  /** `makeRe()`: `false` for an empty set and for an assembled text the
      engine refuses to compile, otherwise that expression. */
  function MakeReSpec(b: Built, o: Options, e: Engine): (r: Cached)
    ensures r != NotMade
    ensures r.RegExp? <==> b.matchSet != [] && e.compiles(Assembled(b, o), if o.nocase then "i" else "")
    ensures r.RegExp? ==> r.src == Assembled(b, o) && r.flags == (if o.nocase then "i" else "")
  {
    var flags := if o.nocase then "i" else "";
    if b.matchSet == [] then NoRegExp
    else if e.compiles(Assembled(b, o), flags) then RegExp(Assembled(b, o), flags)
    else NoRegExp
  }

  // ---- Facts ----

  /** Comments match nothing, the empty pattern matches the empty path
      only. */
  lemma CommentAndEmpty(b: Built, o: Options, e: Engine, f: string, partial: bool)
    ensures b.comment ==> !MatchSpec(b, o, e, f, partial)
    ensures !b.comment && b.empty ==> (MatchSpec(b, o, e, f, partial) <==> f == "")
  {
  }

  /** Negation flips the verdict, unless `flipNegate` is set, in which case
      a hit is a hit whatever the negation. */
  lemma NegateFlips(b: Built, o: Options, e: Engine, f: string, partial: bool)
    requires !b.comment && !b.empty && !(f == "/" && partial)
    ensures !o.flipNegate ==> MatchSpec(b.(negate := !b.negate), o, e, f, partial) == !MatchSpec(b, o, e, f, partial)
    ensures o.flipNegate ==> MatchSpec(b.(negate := !b.negate), o, e, f, partial) == MatchSpec(b, o, e, f, partial)
  {
  }

  /** Two leading `!` cancel: `!!p` builds what `p` builds. */
  lemma DoubleNegation(p: string, o: Options, e: Engine)
    requires !o.nonegate && p != "" && p[0] != '#'
    ensures MakeSpec("!!" + p, o, e) == MakeSpec(p, o, e)
  {
    NegateTwice(p);
  }

  lemma NegateTwice(p: string)
    ensures ParseNegateSpec("!!" + p, false) == ParseNegateSpec(p, false)
  {
    var q := "!!" + p;
    assert q[1..] == "!" + p && q[1..][1..] == p;
    assert NegateCount(q) == 2 + NegateCount(p);
    assert q[NegateCount(q)..] == p[NegateCount(p)..];
  }

  /** One leading `!` negates: `!p` builds what `p` builds, negated. */
  lemma SingleNegation(p: string, o: Options, e: Engine)
    requires !o.nonegate && p != "" && p[0] != '#'
    ensures MakeSpec(p, o, e).Made? <==> MakeSpec("!" + p, o, e).Made?
    ensures MakeSpec(p, o, e).Made? ==>
              MakeSpec("!" + p, o, e).built == MakeSpec(p, o, e).built.(negate := !MakeSpec(p, o, e).built.negate)
  {
    NegateOnce(p);
    var (negate, rest) := ParseNegateSpec(p, false);
    assert MakeSpec(p, o, e) == MakeBody(negate, rest, o, e);
    assert MakeSpec("!" + p, o, e) == MakeBody(!negate, rest, o, e);
    MakeBodyNegate(negate, rest, o, e);
  }

  lemma NegateOnce(p: string)
    ensures ParseNegateSpec("!" + p, false) == (!ParseNegateSpec(p, false).0, ParseNegateSpec(p, false).1)
  {
    var q := "!" + p;
    assert q[1..] == p;
    assert NegateCount(q) == 1 + NegateCount(p);
    assert q[NegateCount(q)..] == p[NegateCount(p)..];
  }

  /** `negate` is only stored: the rest of `make` does not depend on it. */
  lemma MakeBodyNegate(negate: bool, p: string, o: Options, e: Engine)
    ensures MakeBody(!negate, p, o, e).Made? <==> MakeBody(negate, p, o, e).Made?
    ensures MakeBody(negate, p, o, e).Made? ==>
              MakeBody(!negate, p, o, e).built == MakeBody(negate, p, o, e).built.(negate := !negate)
  {
  }

  /** The verdict is the disjunction over the alternatives, inverted for a
      negated pattern: the first alternative that matches decides. */
  lemma MatchIsDisjunction(b: Built, o: Options, e: Engine, f: string, partial: bool)
    requires !b.comment && !b.empty && !(f == "/" && partial) && !o.flipNegate
    ensures MatchSpec(b, o, e, f, partial)
            == ((exists i :: 0 <= i < |b.matchSet| && MatchOneSpec(FileFor(b.matchSet[i], SplitSlashes(f), LastName(SplitSlashes(f), |SplitSlashes(f)| - 1), o.matchBase),
                                                           b.matchSet[i], o.dot, partial, e)) != b.negate)
  {
  }

  /** A makeRe of a negated pattern is the negative lookahead of the plain
      one. */
  lemma MakeReNegated(b: Built, o: Options)
    requires !b.negate
    ensures Assembled(b.(negate := true), o) == "^(?!" + Assembled(b, o) + ").*$"
  {
  }

  // ---- Plain patterns ----

  /** Text without glob characters (slashes aside) and without `{`. */
  predicate PlainText(s: string)
  {
    forall k :: 0 <= k < |s| ==> s[k] != '{' && (s[k] == '/' || !IsGlobChar(s[k]))
  }

  /** The names of plain text are plain and no longer than the text. */
  lemma {:induction false} PlainParts(s: string)
    requires PlainText(s)
    ensures forall k :: 0 <= k < |SplitSlashes(s)| ==> PlainText(SplitSlashes(s)[k]) && |SplitSlashes(s)[k]| <= |s|
    decreases |s|
  {
    var i := NameEnd(s, 0);
    if i < |s| {
      var j := SkipSlashes(s, i);
      assert PlainText(s[j..]) by {
        forall k | 0 <= k < |s[j..]| ensures s[j..][k] != '{' && (s[j..][k] == '/' || !IsGlobChar(s[j..][k])) {
          assert s[j..][k] == s[j + k];
        }
      }
      PlainParts(s[j..]);
      assert SplitSlashes(s) == [s[..i]] + SplitSlashes(s[j..]);
      assert PlainText(s[..i]) by {
        forall k | 0 <= k < i ensures s[..i][k] != '{' && (s[..i][k] == '/' || !IsGlobChar(s[..i][k])) {
          assert s[..i][k] == s[k];
        }
      }
    }
  }

  /** Plain names of bounded length parse to literals, one for one. */
  lemma {:induction false} PlainRow(parts: seq<string>, o: Options, e: Engine)
    requires !o.nocase
    requires forall k :: 0 <= k < |parts| ==> PlainText(parts[k]) && NoChar(parts[k], '/') && |parts[k]| <= MaxPatternLength
    ensures AllCompiled(ParseRow(parts, o, e)) && Segs(ParseRow(parts, o, e)) == Lits(parts)
  {
    var row := ParseRow(parts, o, e);
    forall k | 0 <= k < |parts| ensures row[k] == Compiled(Lit(parts[k])) {
      if parts[k] != "" {
        forall m | 0 <= m < |parts[k]| ensures !IsGlobChar(parts[k][m]) {
          assert parts[k][m] != '/';
        }
        LiteralPortion(parts[k], o, e);
      }
    }
    assert Segs(row) == Lits(parts);
  }

  /** The literal alternatives of plain texts. */
  function LitSet(alts: seq<string>): (r: seq<seq<Seg>>)
    ensures |r| == |alts| && forall k :: 0 <= k < |alts| ==> r[k] == Lits(SplitSlashes(alts[k]))
  {
    if alts == [] then [] else [Lits(SplitSlashes(alts[0]))] + LitSet(alts[1..])
  }

  predicate PlainAlts(alts: seq<string>)
  {
    forall k :: 0 <= k < |alts| ==> PlainText(alts[k]) && |alts[k]| <= MaxPatternLength
  }

  /** Plain alternatives all compile, to their names as literals. */
  lemma {:induction false} PlainRows(alts: seq<string>, o: Options, e: Engine)
    requires !o.nocase && PlainAlts(alts)
    ensures !AnyTooLong(ParseRows(alts, o, e)) && KeepCompiled(ParseRows(alts, o, e)) == LitSet(alts)
  {
    if alts != [] {
      PlainParts(alts[0]);
      PlainRow(SplitSlashes(alts[0]), o, e);
      PlainRows(alts[1..], o, e);
      var rows := ParseRows(alts, o, e);
      assert rows == [ParseRow(SplitSlashes(alts[0]), o, e)] + ParseRows(alts[1..], o, e);
      assert rows[1..] == ParseRows(alts[1..], o, e);
      forall i | 0 <= i < |rows| ensures !RowTooLong(rows[i]) {
        if i > 0 {
          assert rows[i] == ParseRows(alts[1..], o, e)[i - 1];
        }
      }
    }
  }

  /** `make` of a pattern whose brace expansion is plain. */
  lemma MakePlain(negate: bool, p: string, alts: seq<string>, o: Options, e: Engine)
    requires !o.nocase && BraceExpandSpec(p, o.nobrace) == Some(alts) && PlainAlts(alts)
    ensures MakeBody(negate, p, o, e) == Made(Built(p, negate, false, false, alts, SplitAll(alts), LitSet(alts)))
  {
    PlainRows(alts, o, e);
  }

  /** A pattern with no glob character and no brace is compared name by
      name: it matches a path whose names are its own, also with one
      trailing slash, or in partial mode a prefix of them. */
  lemma PlainPattern(p: string, f: string, o: Options, e: Engine, partial: bool)
    requires p != "" && p[0] != '#' && |p| <= MaxPatternLength && PlainText(p)
    requires !o.nocase && !o.matchBase && !(f == "/" && partial)
    ensures MakeSpec(p, o, e).Made?
    ensures MatchSpec(MakeSpec(p, o, e).built, o, e, f, partial)
            <==> (var ns, ps := SplitSlashes(f), SplitSlashes(p);
                  ns == ps || ns == ps + [""] || (partial && |ns| < |ps| && ns == ps[..|ns|]))
  {
    var ps := SplitSlashes(p);
    MakeSpecPlain(p, o, e);
    var b := MakeSpec(p, o, e).built;
    var ns := SplitSlashes(f);
    MatchOneAlt(b, Lits(ps), o, e, f, partial);
    LiteralsMatch(ns, ps, o.dot, partial, e);
  }

  lemma MakeSpecPlain(p: string, o: Options, e: Engine)
    requires p != "" && p[0] != '#' && |p| <= MaxPatternLength && PlainText(p) && !o.nocase
    ensures MakeSpec(p, o, e) == Made(Built(p, false, false, false, [p], [SplitSlashes(p)], [Lits(SplitSlashes(p))]))
  {
    PlainHead(p);
    NoNegation(p, o);
    PlainBrace(p, o.nobrace);
    PlainSingle(p);
    MakePlain(false, p, [p], o, e);
  }

  lemma PlainHead(p: string)
    requires p != "" && PlainText(p)
    ensures p[0] != '!'
  {
    assert IsGlobChar('!');
  }

  /** The verdict of a pattern with one alternative, not negated, with
      `matchBase` off. */
  lemma MatchOneAlt(b: Built, alt: seq<Seg>, o: Options, e: Engine, f: string, partial: bool)
    requires b.matchSet == [alt] && !b.negate && !b.comment && !b.empty && !o.matchBase && !(f == "/" && partial)
    ensures MatchSpec(b, o, e, f, partial) <==> MatchOneSpec(SplitSlashes(f), alt, o.dot, partial, e)
  {
    var names := SplitSlashes(f);
    assert FileFor(alt, names, LastName(names, |names| - 1), false) == names;
    assert b.matchSet[0] == alt;
    assert Hits(b.matchSet, names, LastName(names, |names| - 1), o, partial, e)
           <==> MatchOneSpec(names, alt, o.dot, partial, e);
  }

  /** `a{b,c}d` expands to its two alternatives, the `{..}` test having
      found the brace set. */
  lemma BraceExample()
    ensures BraceExpandSpec("a{b,c}d", false) == Some(["abd", "acd"])
  {
    assert BraceSetAt("a{b,c}d", 1, 5);
    HasBraceSetIs("a{b,c}d");
    ExpandTopExample();
  }

  lemma PlainBrace(p: string, nobrace: bool)
    requires PlainText(p)
    ensures BraceExpandSpec(p, nobrace) == Some([p])
  {
    assert NoChar(p, '{');
  }

  lemma PlainSingle(p: string)
    requires PlainText(p) && |p| <= MaxPatternLength
    ensures PlainAlts([p]) && SplitAll([p]) == [SplitSlashes(p)] && LitSet([p]) == [Lits(SplitSlashes(p))]
  {
  }

  /** Without a leading `!`, `#` or emptiness, `make` goes straight to its
      body. */
  lemma NoNegation(p: string, o: Options)
    requires p != "" && p[0] != '!' && p[0] != '#'
    ensures forall e :: MakeSpec(p, o, e) == MakeBody(false, p, o, e)
  {
    assert NegateCount(p) == 0 && p[0..] == p;
    assert ParseNegateSpec(p, o.nonegate) == (false, p);
  }
}
