// minimatch's compiler for one path portion of a pattern (`parse`): the
// character-by-character translation of a glob into the source of a regular
// expression, the extglob pattern lists `?(..)`, `*(..)`, `+(..)`, `@(..)`,
// `!(..)`, bracket classes, and the two rewriting passes at the end.  The
// JavaScript regular-expression engine is a parameter (Engine): it decides
// whether a bracket class compiles, whether `new RegExp` accepts a source,
// and whether a compiled segment matches.
module MinimatchParse {
  import opened Wrappers
  import opened JsString

  /** The options minimatch reads. */
  datatype Options = Options(
    nocomment: bool, nonegate: bool, nobrace: bool, noglobstar: bool,
    nocase: bool, noext: bool, dot: bool, matchBase: bool,
    flipNegate: bool, partial: bool, nonull: bool)

  /** What the module asks of the regular-expression engine: does `[cs]`
      compile as a class, does `new RegExp(src, flags)` compile without
      throwing, and does the expression `^src$` with `flags` match a text. */
  datatype Engine = Engine(classOk: string -> bool, compiles: (string, string) -> bool, test: (string, string, string) -> bool)

  /** A compiled path portion: a literal, the GLOBSTAR marker, a regular
      expression remembered by its glob and its source, or `/$./`, the
      expression `parse` falls back to when its own source does not compile:
      it matches nothing and carries neither `_glob` nor `_src`. */
  datatype Seg = Lit(text: string) | Globstar | Magic(glob: string, src: string, flags: string) | Never

  /** The outcome of `parse` on one portion: a segment, `false` (the portion
      held a `/`), or the TypeError thrown for an over-long pattern. */
  datatype Parsed = Compiled(seg: Seg) | NotCompiled | TooLong

  const MaxPatternLength: nat := 65536

  const Qmark := "[^/]"
  const Star := "[^/]*?"
  const TwoStarDot := "(?:(?!(?:\\/|^)(?:\\.{1,2})($|\\/)).)*?"
  const TwoStarNoDot := "(?:(?!(?:\\/|^)\\.).)*?"

  /** Characters that need a backslash to stand for themselves. */
  predicate IsReSpecial(c: char)
  {
    c in "().*{}+?[]^$\\!"
  }

  predicate IsExtChar(c: char)
  {
    c in "?*+@!"
  }

  /** The guard put in front of a portion whose expression could match a
      leading dot. */
  function PatternStart(p: string, dot: bool): string
  {
    if |p| > 0 && p[0] == '.' then ""
    else if dot then "(?!(?:^|\\/)\\.{1,2}(?:$|\\/))"
    else "(?!\\.)"
  }

  /** plTypes: how each extglob list opens and closes. */
  function ListOpen(kind: char): string
  {
    if kind == '!' then "(?:(?!(?:" else "(?:"
  }

  function ListClose(kind: char): string
  {
    if kind == '!' then "))[^/]*?)"
    else if kind == '?' then ")?"
    else if kind == '+' then ")+"
    else if kind == '*' then ")*"
    else ")"
  }

  /** An open extglob list: its kind, where its text starts in `re`, and,
      once closed, where it ends. */
  datatype PatternList = PatternList(kind: char, reStart: nat, reEnd: nat)

  /** The variables of the character loop. */
  datatype State = State(
    re: string, hasMagic: bool, escaping: bool,
    stack: seq<PatternList>, negatives: seq<PatternList>,
    stateChar: Option<char>, inClass: bool, reClassStart: int, classStart: int)

  function Init(nocase: bool): State
  {
    State("", nocase, false, [], [], None, false, -1, -1)
  }

  /** While a class is open, it began at an earlier character and at a
      position of `re`. */
  predicate StateOk(st: State, i: nat)
  {
    && (st.inClass ==> 0 <= st.classStart < i && 0 <= st.reClassStart <= |st.re|)
    && ClosedNegatives(st.negatives)
  }

  /** A closed `!(..)` ends after its nine-character closing text. */
  predicate ClosedNegatives(negs: seq<PatternList>)
  {
    forall k :: 0 <= k < |negs| ==> negs[k].reEnd >= 9
  }

  /** A step that leaves the class bookkeeping alone and only appends to
      `re`. */
  predicate Keeps(st: State, r: State)
  {
    && r.inClass == st.inClass && r.classStart == st.classStart
    && r.reClassStart == st.reClassStart && |st.re| <= |r.re|
  }

  // ---- clearStateChar ----

  /** The text a pending state character leaves in `re`. */
  function StateText(c: char): string
  {
    if c == '*' then Star else if c == '?' then Qmark else ['\\', c]
  }

  /** The text `clearStateChar()` adds for a pending state character, if any. */
  function PendingText(sc: Option<char>): string
  {
    if sc.Some? then StateText(sc.value) else ""
  }

  /** A pending `*` or `?` makes the portion magic when it is cleared. */
  predicate PendingMagic(sc: Option<char>)
  {
    sc == Some('*') || sc == Some('?')
  }

  /** `clearStateChar()`: `*` and `?` become their expressions and make the
      portion magic; any other pending character is kept escaped. */
  function ClearState(st: State): (r: State)
    ensures r.stateChar.None? && r.inClass == st.inClass
    ensures r.escaping == st.escaping && r.stack == st.stack && r.negatives == st.negatives
    ensures r.classStart == st.classStart && r.reClassStart == st.reClassStart
    ensures r.re == st.re + PendingText(st.stateChar)
    ensures r.hasMagic == (st.hasMagic || PendingMagic(st.stateChar))
  {
    match st.stateChar
    case None => st
    case Some(c) =>
      st.(re := st.re + StateText(c), stateChar := None,
          hasMagic := st.hasMagic || c == '*' || c == '?')
  }

  // ---- The character loop ----

  /** One turn of the `for` loop on `p[i]`; None is `return false`. */
  function Step(p: string, i: nat, st: State, o: Options, e: Engine): (r: Option<State>)
    requires i < |p| && StateOk(st, i)
    ensures r.Some? ==> StateOk(r.value, i + 1)
    ensures r.None? <==> p[i] == '/'
    ensures r.Some? && st.hasMagic ==> r.value.hasMagic
    decreases |p|, 0, 1
  {
    var c := p[i];
    if st.escaping && IsReSpecial(c) then Some(st.(re := st.re + ['\\', c], escaping := false))
    else if c == '/' then None
    else if c == '\\' then Some(ClearState(st).(escaping := true))
    else if IsExtChar(c) then Some(StepExt(c, i, st, o.noext))
    else if c == '(' then Some(StepOpen(st))
    else if c == ')' then Some(StepClose(st))
    else if c == '|' then Some(StepPipe(st))
    else if c == '[' then Some(StepClassOpen(i, st))
    else if c == ']' then Some(StepClassClose(p, i, st, o, e))
    else Some(StepOther(c, st))
  }

  /** `? * + @ !`: literal inside a class (with `[!` read as `[^`), otherwise
      the new pending state character. */
  function StepExt(c: char, i: nat, st: State, noext: bool): (r: State)
    requires StateOk(st, i)
    ensures StateOk(r, i + 1)
    ensures !st.inClass ==> r.stateChar == (if noext then None else Some(c))
  {
    if st.inClass then st.(re := st.re + [if c == '!' && i == st.classStart + 1 then '^' else c])
    else
      var s1 := ClearState(st).(stateChar := Some(c));
      if noext then ClearState(s1) else s1
  }

  /** `(`: opens an extglob list when a state character is pending. */
  function StepOpen(st: State): (r: State)
    requires ClosedNegatives(st.negatives)
    ensures Keeps(st, r) && ClosedNegatives(r.negatives)
    ensures !st.inClass && st.stateChar.Some? ==>
              r.stack == st.stack + [PatternList(st.stateChar.value, |st.re|, 0)]
  {
    if st.inClass then st.(re := st.re + "(")
    else if st.stateChar.None? then st.(re := st.re + "\\(")
    else
      var t := st.stateChar.value;
      st.(stack := st.stack + [PatternList(t, |st.re|, 0)], re := st.re + ListOpen(t), stateChar := None)
  }

  /** `)`: closes the innermost open list; a closed `!(..)` is remembered for
      the rewriting at the end. */
  function StepClose(st: State): (r: State)
    requires ClosedNegatives(st.negatives)
    ensures Keeps(st, r) && ClosedNegatives(r.negatives)
    ensures !st.inClass && st.stack != [] ==> r.hasMagic && r.stack == st.stack[..|st.stack| - 1]
  {
    if st.inClass || st.stack == [] then st.(re := st.re + "\\)")
    else
      var s1 := ClearState(st).(hasMagic := true);
      var pl := s1.stack[|s1.stack| - 1];
      var re := s1.re + ListClose(pl.kind);
      s1.(re := re, stack := s1.stack[..|s1.stack| - 1],
          negatives := if pl.kind == '!' then s1.negatives + [pl.(reEnd := |re|)] else s1.negatives)
  }

  /** `|`: an alternative inside an open list, escaped anywhere else. */
  function StepPipe(st: State): (r: State)
    ensures Keeps(st, r) && r.negatives == st.negatives && r.stack == st.stack
  {
    if st.inClass || st.stack == [] || st.escaping then st.(re := st.re + "\\|", escaping := false)
    else
      var s1 := ClearState(st);
      s1.(re := s1.re + "|")
  }

  /** `[`: opens a class, or is escaped inside one. */
  function StepClassOpen(i: nat, st: State): (r: State)
    requires StateOk(st, i)
    ensures StateOk(r, i + 1)
    ensures !st.inClass ==> r.inClass && r.classStart == i
  {
    var s1 := ClearState(st);
    if s1.inClass then s1.(re := s1.re + "\\[")
    else s1.(inClass := true, classStart := i, reClassStart := |s1.re|, re := s1.re + "[")
  }

  /** `]`: closes a class.  A class the engine refuses is read again as plain
      glob text between escaped brackets. */
  function StepClassClose(p: string, i: nat, st: State, o: Options, e: Engine): (r: State)
    requires i < |p| && StateOk(st, i)
    ensures StateOk(r, i + 1)
    ensures st.inClass && i != st.classStart + 1 ==> !r.inClass
    decreases |p|, 0, 0
  {
    if i == st.classStart + 1 || !st.inClass then st.(re := st.re + "\\]", escaping := false)
    else
      var cs := p[st.classStart + 1 .. i];
      if !e.classOk("[" + cs + "]") then
        var sp := SubParse(cs, o, e);
        st.(re := Take(st.re, st.reClassStart) + "\\[" + sp.0 + "\\]",
            hasMagic := st.hasMagic || sp.1, inClass := false)
      else st.(hasMagic := true, inClass := false, re := st.re + "]")
  }

  /** Any other character: escaped when it is special, except `^` inside a
      class and a character right after a backslash. */
  function StepOther(c: char, st: State): (r: State)
    ensures Keeps(st, r) && r.negatives == st.negatives && r.stack == st.stack
    ensures r.re == ClearState(st).re + (if !st.escaping && IsReSpecial(c) && !(c == '^' && st.inClass) then ['\\', c] else [c])
  {
    var s1 := ClearState(st);
    if s1.escaping then s1.(escaping := false, re := s1.re + [c])
    else if IsReSpecial(c) && !(c == '^' && s1.inClass) then s1.(re := s1.re + ['\\', c])
    else s1.(re := s1.re + [c])
  }

  /** The loop from character `i` on: None when it meets a `/`. */
  function Run(p: string, i: nat, st: State, o: Options, e: Engine): (r: Option<State>)
    requires i <= |p| && StateOk(st, i)
    ensures r.Some? ==> StateOk(r.value, |p|)
    decreases |p|, 1, |p| - i
  {
    if i == |p| then Some(st)
    else match Step(p, i, st, o, e)
      case None => None
      case Some(s1) => Run(p, i + 1, s1, o, e)
  }

  /** Once magic, a portion stays magic to the end of the loop. */
  lemma {:induction false} RunKeepsMagic(p: string, i: nat, st: State, o: Options, e: Engine)
    requires i <= |p| && StateOk(st, i)
    ensures st.hasMagic && Run(p, i, st, o, e).Some? ==> Run(p, i, st, o, e).value.hasMagic
    decreases |p| - i
  {
    if i < |p| && st.hasMagic {
      match Step(p, i, st, o, e)
      case None =>
      case Some(s1) =>
        assert s1.hasMagic;
        RunKeepsMagic(p, i + 1, s1, o, e);
    }
  }

  // ---- After the loop ----

  /** A class left open: its text is read again as glob text after an
      escaped `[`. */
  function OpenClassFix(re: string, reClassStart: nat, hasMagic: bool, sp: (string, bool)): (string, bool)
  {
    (Take(re, reClassStart) + "\\[" + sp.0, hasMagic || sp.1)
  }

  /** n backslashes. */
  function Backslashes(n: nat): (r: string)
    ensures |r| == n && forall k :: 0 <= k < |r| ==> r[k] == '\\'
  {
    if n == 0 then "" else Backslashes(n - 1) + "\\"
  }

  /** How many backslashes end `s`. */
  function TrailingBackslashes(s: string): (n: nat)
    ensures n <= |s|
    ensures forall k :: |s| - n <= k < |s| ==> s[k] == '\\'
    ensures n < |s| ==> s[|s| - n - 1] != '\\'
  {
    if s == [] || s[|s| - 1] != '\\' then 0 else TrailingBackslashes(s[..|s| - 1]) + 1
  }

  /** `tail.replace(/((?:\\{2}){0,64})(\\?)\|/g, ...)` on an unclosed list:
      every `|` is escaped, using the run of at most 129 backslashes before
      it.  The pairs of the run are written twice and one backslash is
      added, so the `|` ends up after an odd number of backslashes. */
  function EscapePipes(s: string): (r: string)
    ensures !Contains(s, "|") ==> r == s
    decreases |s|
  {
    var j := IndexOf(s, "|", 0);
    if j < 0 then s
    else
      var m := MatchedRun(TrailingBackslashes(s[..j]));
      s[..j - m] + PipeReplacement(m) + "|" + EscapePipes(s[j + 1..])
  }

  /** The backslashes before a `|` that the pattern takes in: at most 64
      pairs and one more. */
  function MatchedRun(run: nat): (m: nat)
    ensures m <= run && m <= 129
  {
    if run < 129 then run else 129
  }

  /** `$1 + $1 + $2`, with `$2` forced to a backslash: the pairs twice and
      one backslash for the `|`. */
  function PipeReplacement(m: nat): string
  {
    Backslashes(4 * (m / 2) + 1)
  }

  /** `s.slice(from)` for a non-negative `from`. */
  function Drop(s: string, from: nat): (r: string)
    ensures |r| == if from < |s| then |s| - from else 0
  {
    if from < |s| then s[from..] else ""
  }

  /** `s.slice(from, to)` for non-negative bounds. */
  function Slice(s: string, from: nat, to: nat): (r: string)
    ensures r == Drop(Take(s, to), from)
  {
    Drop(Take(s, to), from)
  }

  /** The loop over the lists left open at the end, innermost first: each
      becomes its literal opening character and an escaped `(`, with the
      pipes of its text escaped. */
  function CloseLists(re: string, stack: seq<PatternList>): string
    decreases |stack|
  {
    if stack == [] then re
    else CloseLists(Reopen(re, stack[|stack| - 1]), stack[..|stack| - 1])
  }

  /** One open list, undone: its opening text becomes the list character
      (`*` and `?` keep their glob meaning) and an escaped `(`. */
  function Reopen(re: string, pl: PatternList): string
  {
    var tail := EscapePipes(Drop(re, pl.reStart + |ListOpen(pl.kind)|));
    var t := if pl.kind == '*' then Star else if pl.kind == '?' then Qmark else ['\\', pl.kind];
    Take(re, pl.reStart) + t + "\\(" + tail
  }

  /** `s.replace(/\)[+*?]?/, '')`: drops the first `)` and a quantifier
      right after it. */
  function DropCloseParen(s: string): (r: string)
    ensures |r| <= |s|
    ensures ')' !in s ==> r == s
    ensures ')' in s ==> |r| < |s|
  {
    IndexOfCharFound(s, ')');
    var j := IndexOf(s, ")", 0);
    if j < 0 then s
    else if j + 1 < |s| && s[j + 1] in "+*?" then s[..j] + s[j + 2..]
    else s[..j] + s[j + 1..]
  }

  /** The inner `for` loop: DropCloseParen `n` times. */
  function DropCloseParens(s: string, n: nat): string
  {
    if n == 0 then s else DropCloseParens(DropCloseParen(s), n - 1)
  }

  /** The rewriting of one closed `!(..)`: whatever follows it is moved inside
      the negative lookahead, so that the lookahead sees the rest of the
      name; without anything after it the lookahead is anchored with `$`. */
  function NegativeOne(re: string, nl: PatternList, isSub: bool): string
    requires nl.reEnd >= 9
  {
    var before := Take(re, nl.reStart);
    var mid := nl.reEnd - 8;
    var first := Slice(re, nl.reStart, mid);
    var last := Slice(re, mid, nl.reEnd);
    var after := Drop(re, nl.reEnd);
    var cleanAfter := DropCloseParens(after, multiset(before)['(']);
    var dollar := if cleanAfter == "" && !isSub then "$" else "";
    before + first + cleanAfter + dollar + (last + after)
  }

  /** The loop over the closed negative lists, last first. */
  function Negatives(re: string, negs: seq<PatternList>, isSub: bool): string
    requires ClosedNegatives(negs)
    decreases |negs|
  {
    if negs == [] then re
    else Negatives(NegativeOne(re, negs[|negs| - 1], isSub), negs[..|negs| - 1], isSub)
  }

  /** Everything from the end of the loop to `return [re, hasMagic]`: the
      open class, the open lists, the pending state character, a trailing
      backslash, the negative lists, the non-empty guard `(?=.)` and the
      leading-dot guard. */
  function EndPhase(p: string, st: State, o: Options, e: Engine, isSub: bool): (r: (string, bool))
    requires StateOk(st, |p|)
    decreases |p|, 0, 1
  {
    var fixed := FixedClass(p, st, o, e);
    var re1 := CloseLists(fixed.0, st.stack) + PendingText(st.stateChar);
    var magic := fixed.1 || st.stack != [] || PendingMagic(st.stateChar);
    var re2 := if st.escaping then re1 + "\\\\" else re1;
    (Guards(p, re2, magic, st.negatives, o.dot, isSub), magic)
  }

  /** A class still open at the end: its text is read again as glob text
      after an escaped `[`. */
  function FixedClass(p: string, st: State, o: Options, e: Engine): (string, bool)
    requires StateOk(st, |p|)
    decreases |p|, 0, 0
  {
    if st.inClass then OpenClassFix(st.re, st.reClassStart, st.hasMagic, SubParse(p[st.classStart + 1..], o, e))
    else (st.re, st.hasMagic)
  }

  /** The last part of the end phase: the negative lists, the non-empty
      guard `(?=.)` and, when the expression starts with `[`, `.` or `(`,
      the leading-dot guard. */
  function Guards(p: string, re: string, hasMagic: bool, negs: seq<PatternList>, dot: bool, isSub: bool): string
    requires ClosedNegatives(negs)
  {
    var addPatternStart := |re| > 0 && re[0] in "[.(";
    var re3 := Negatives(re, negs, isSub);
    var re4 := if re3 != "" && hasMagic then "(?=.)" + re3 else re3;
    if addPatternStart then PatternStart(p, dot) + re4 else re4
  }

  /** The loop and the end phase together: `[re, hasMagic]`, or None for
      `return false`. */
  function Compile(p: string, o: Options, e: Engine, isSub: bool): (r: Option<(string, bool)>)
    decreases |p|, 2, 0
  {
    match Run(p, 0, Init(o.nocase), o, e)
    case None => None
    case Some(st) => Some(EndPhase(p, st, o, e, isSub))
  }

  /** `parse(cs, SUBPARSE)` as the class fix-ups intend it: the text of the
      class read again as glob text, giving its expression and whether it is
      magic.  (A `/` cannot reach a sub-parse: the enclosing loop returns at
      it first.) */
  function SubParse(cs: string, o: Options, e: Engine): (r: (string, bool))
    decreases |cs|, 3, 0
  {
    Compile(cs, o, e, true).GetOr(("", false))
  }

  /** `parse(cs, SUBPARSE)` as written: the shortcuts for `**` and `` return
      GLOBSTAR or '' rather than a pair, and the caller's `sp[0]` then reads
      `undefined`, which string concatenation spells out. */
  function SubParseAsWritten(cs: string, o: Options, e: Engine): (r: (string, bool))
    ensures cs == "" ==> r == ("undefined", false)
  {
    if cs == "**" && !o.noglobstar then ("undefined", false)
    else
      var q := if cs == "**" then "*" else cs;
      if q == "" then ("undefined", false)
      else match Run(q, 0, Init(o.nocase), o, e)
        case None => ("undefined", false)
        case Some(st) => EndPhase(q, st, o, e, true)
  }

  /** `parse(pattern)` on one path portion. */
  function ParseSpec(pattern: string, o: Options, e: Engine): (r: Parsed)
    ensures |pattern| > MaxPatternLength <==> r == TooLong
    ensures |pattern| <= MaxPatternLength && pattern == "**" && !o.noglobstar ==> r == Compiled(Globstar)
    ensures |pattern| <= MaxPatternLength && pattern == "" ==> r == Compiled(Lit(""))
    ensures r.Compiled? && r.seg.Magic? ==> r.seg.flags == (if o.nocase then "i" else "")
  {
    if |pattern| > MaxPatternLength then TooLong
    else if pattern == "**" && !o.noglobstar then Compiled(Globstar)
    else
      var p := if pattern == "**" then "*" else pattern;
      if p == "" then Compiled(Lit(""))
      else match Compile(p, o, e, false)
        case None => NotCompiled
        case Some((re, hasMagic)) =>
          if !hasMagic then Compiled(Lit(GlobUnescape(p)))
          else Compiled(Compiles(p, re, o, e))
  }

  /** The `try { new RegExp('^' + re + '$', flags) }` at the end of `parse`:
      the expression with its glob and source, or `/$./` when the engine
      refuses the source. */
  function Compiles(p: string, re: string, o: Options, e: Engine): (s: Seg)
    ensures s.Magic? || s.Never?
    ensures s.Magic? <==> e.compiles("^" + re + "$", if o.nocase then "i" else "")
    ensures s.Magic? ==> s == Magic(p, re, if o.nocase then "i" else "")
  {
    var flags := if o.nocase then "i" else "";
    if e.compiles("^" + re + "$", flags) then Magic(p, re, flags) else Never
  }

  /** `s.replace(/\\(.)/g, '$1')`: a backslash before any character but a
      line terminator is dropped. */
  function GlobUnescape(s: string): (r: string)
    ensures |r| <= |s|
    ensures NoChar(s, '\\') ==> r == s
    decreases |s|
  {
    if |s| >= 2 && s[0] == '\\' && !IsLineTerminator(s[1]) then [s[1]] + GlobUnescape(s[2..])
    else if s == [] then []
    else [s[0]] + GlobUnescape(s[1..])
  }

  /** Characters `regExpEscape` puts a backslash before. */
  predicate IsRegExpSpecial(c: char)
  {
    c in "-[]{}()*+?.,\\^$|#" || IsWhitespace(c)
  }

  /** `s.replace(/[-[\]{}()*+?.,\\^$|#\s]/g, '\\$&')`. */
  function RegExpEscape(s: string): (r: string)
    ensures |r| >= |s|
  {
    if s == [] then []
    else (if IsRegExpSpecial(s[0]) then ['\\', s[0]] else [s[0]]) + RegExpEscape(s[1..])
  }
}
