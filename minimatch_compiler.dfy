// `parse` as minimatch runs it: the `for` loop over the characters of a
// portion, updating `re`, `hasMagic`, `escaping`, the stack of open extglob
// lists, the closed negative lists, the pending state character and the
// class bookkeeping; then the end phase with its two rewriting loops.  Each
// method is proved to compute the matching function of MinimatchParse.
module MinimatchCompiler {
  import opened Wrappers
  import opened JsString
  import opened MinimatchParse

  /** `parse(pattern)` on one path portion. */
  method Parse(pattern: string, o: Options, e: Engine) returns (r: Parsed)
    ensures r == ParseSpec(pattern, o, e)
  {
    if |pattern| > MaxPatternLength {
      return TooLong;
    }
    var p := pattern;
    if p == "**" {
      if !o.noglobstar {
        return Compiled(Globstar);
      }
      p := "*";
    }
    if p == "" {
      return Compiled(Lit(""));
    }
    var body := ParseBody(p, o, e, false);
    match body
    case None =>
      r := NotCompiled;
    case Some((re, hasMagic)) =>
      if !hasMagic {
        r := Compiled(Lit(GlobUnescape(p)));
      } else {
        var flags := if o.nocase then "i" else "";
        if e.compiles("^" + re + "$", flags) {
          r := Compiled(Magic(p, re, flags));
        } else {
          r := Compiled(Never);
        }
      }
  }

  /** `parse(cs, SUBPARSE)` as the class fix-ups intend it. */
  method SubParseText(cs: string, o: Options, e: Engine) returns (sp: (string, bool))
    ensures sp == SubParse(cs, o, e)
    decreases |cs|, 3
  {
    var r := ParseBody(cs, o, e, true);
    sp := r.GetOr(("", false));
  }

  /** `clearStateChar()` on the loop's variables. */
  method ClearStateChar(re: string, hasMagic: bool, stateChar: Option<char>) returns (re': string, hasMagic': bool)
    ensures re' == re + PendingText(stateChar)
    ensures hasMagic' == (hasMagic || PendingMagic(stateChar))
  {
    re', hasMagic' := re, hasMagic;
    if stateChar.Some? {
      var c := stateChar.value;
      if c == '*' {
        re' := re' + Star;
        hasMagic' := true;
      } else if c == '?' {
        re' := re' + Qmark;
        hasMagic' := true;
      } else {
        re' := re' + ['\\', c];
      }
    }
  }

  /** The character loop and the end phase: `[re, hasMagic]`, or None for
      `return false`.  `st` holds the loop's variables. */
  method ParseBody(p: string, o: Options, e: Engine, isSub: bool) returns (r: Option<(string, bool)>)
    ensures r == Compile(p, o, e, isSub)
    decreases |p|, 2
  {
    var st := Init(o.nocase);
    var i := 0;
    while i < |p|
      invariant 0 <= i <= |p|
      invariant StateOk(st, i)
      invariant Run(p, i, st, o, e) == Run(p, 0, Init(o.nocase), o, e)
    {
      if p[i] == '/' {
        return None;
      }
      var next := ParseChar(p, i, st, o, e);
      st, i := next, i + 1;
    }
    var res := FinishParse(p, st, o, e, isSub);
    return Some(res);
  }

  /** One turn of the loop on a character other than `/`: the escaped
      special character, then the `switch`. */
  method ParseChar(p: string, i: nat, st: State, o: Options, e: Engine) returns (r: State)
    requires i < |p| && StateOk(st, i) && p[i] != '/'
    ensures Step(p, i, st, o, e) == Some(r)
    decreases |p|, 1
  {
    var c := p[i];
    if st.escaping && IsReSpecial(c) {
      r := st.(re := st.re + ['\\', c], escaping := false);
    } else if c == '\\' {
      var re, hasMagic := ClearStateChar(st.re, st.hasMagic, st.stateChar);
      r := st.(re := re, hasMagic := hasMagic, stateChar := None, escaping := true);
    } else if IsExtChar(c) {
      r := ExtChar(c, i, st, o.noext);
    } else if c == '(' {
      r := OpenList(st);
    } else if c == ')' {
      r := CloseList(st);
    } else if c == '|' {
      r := Pipe(st);
    } else if c == '[' {
      r := OpenClass(i, st);
    } else if c == ']' {
      r := CloseClass(p, i, st, o, e);
    } else {
      r := OtherChar(c, st);
    }
  }

  /** `? * + @ !`. */
  method ExtChar(c: char, i: nat, st: State, noext: bool) returns (r: State)
    requires StateOk(st, i)
    ensures r == StepExt(c, i, st, noext)
  {
    if st.inClass {
      r := st.(re := st.re + [if c == '!' && i == st.classStart + 1 then '^' else c]);
      return;
    }
    var re, hasMagic := ClearStateChar(st.re, st.hasMagic, st.stateChar);
    var stateChar := Some(c);
    if noext {
      re, hasMagic := ClearStateChar(re, hasMagic, stateChar);
      stateChar := None;
    }
    r := st.(re := re, hasMagic := hasMagic, stateChar := stateChar);
  }

  /** `(`. */
  method OpenList(st: State) returns (r: State)
    requires ClosedNegatives(st.negatives)
    ensures r == StepOpen(st)
  {
    if st.inClass {
      r := st.(re := st.re + "(");
    } else if st.stateChar.None? {
      r := st.(re := st.re + "\\(");
    } else {
      var pl := PatternList(st.stateChar.value, |st.re|, 0);
      r := st.(stack := st.stack + [pl], re := st.re + ListOpen(pl.kind), stateChar := None);
    }
  }

  /** `)`. */
  method CloseList(st: State) returns (r: State)
    requires ClosedNegatives(st.negatives)
    ensures r == StepClose(st)
  {
    if st.inClass || st.stack == [] {
      r := st.(re := st.re + "\\)");
      return;
    }
    var re, _ := ClearStateChar(st.re, st.hasMagic, st.stateChar);
    var pl := st.stack[|st.stack| - 1];
    re := re + ListClose(pl.kind);
    var negatives := st.negatives;
    if pl.kind == '!' {
      negatives := negatives + [pl.(reEnd := |re|)];
    }
    r := st.(re := re, hasMagic := true, stateChar := None, stack := st.stack[..|st.stack| - 1], negatives := negatives);
  }

  /** `|`. */
  method Pipe(st: State) returns (r: State)
    ensures r == StepPipe(st)
  {
    if st.inClass || st.stack == [] || st.escaping {
      r := st.(re := st.re + "\\|", escaping := false);
      return;
    }
    var re, hasMagic := ClearStateChar(st.re, st.hasMagic, st.stateChar);
    r := st.(re := re + "|", hasMagic := hasMagic, stateChar := None);
  }

  /** `[`. */
  method OpenClass(i: nat, st: State) returns (r: State)
    requires StateOk(st, i)
    ensures r == StepClassOpen(i, st)
  {
    var re, hasMagic := ClearStateChar(st.re, st.hasMagic, st.stateChar);
    if st.inClass {
      r := st.(re := re + "\\[", hasMagic := hasMagic, stateChar := None);
    } else {
      r := st.(inClass := true, classStart := i, reClassStart := |re|, re := re + "[", hasMagic := hasMagic, stateChar := None);
    }
  }

  /** `]`: a class the engine refuses is read again with SubParseText. */
  method CloseClass(p: string, i: nat, st: State, o: Options, e: Engine) returns (r: State)
    requires i < |p| && StateOk(st, i)
    ensures r == StepClassClose(p, i, st, o, e)
    decreases |p|, 0
  {
    if i == st.classStart + 1 || !st.inClass {
      r := st.(re := st.re + "\\]", escaping := false);
      return;
    }
    var cs := p[st.classStart + 1 .. i];
    if !e.classOk("[" + cs + "]") {
      var sp := SubParseText(cs, o, e);
      r := st.(re := Take(st.re, st.reClassStart) + "\\[" + sp.0 + "\\]", hasMagic := st.hasMagic || sp.1, inClass := false);
    } else {
      r := st.(hasMagic := true, inClass := false, re := st.re + "]");
    }
  }

  /** Any other character. */
  method OtherChar(c: char, st: State) returns (r: State)
    ensures r == StepOther(c, st)
  {
    var re, hasMagic := ClearStateChar(st.re, st.hasMagic, st.stateChar);
    if st.escaping {
      re := re + [c];
    } else if IsReSpecial(c) && !(c == '^' && st.inClass) {
      re := re + ['\\', c];
    } else {
      re := re + [c];
    }
    r := st.(re := re, hasMagic := hasMagic, stateChar := None, escaping := false);
  }

  /** From the end of the loop to `return [re, hasMagic]`. */
  method FinishParse(p: string, st: State, o: Options, e: Engine, isSub: bool) returns (res: (string, bool))
    requires StateOk(st, |p|)
    ensures res == EndPhase(p, st, o, e, isSub)
    decreases |p|, 1
  {
    var re, hasMagic := FixOpenClass(p, st, o, e);
    re := CloseOpenLists(re, st.stack);
    if st.stack != [] {
      hasMagic := true;
    }
    re, hasMagic := ClearStateChar(re, hasMagic, st.stateChar);
    if st.escaping {
      re := re + "\\\\";
    }
    assert EndPhase(p, st, o, e, isSub) == (Guards(p, re, hasMagic, st.negatives, o.dot, isSub), hasMagic);
    re := AddGuards(p, re, hasMagic, st.negatives, o.dot, isSub);
    res := (re, hasMagic);
  }

  /** The fix-up of a class left open at the end. */
  method FixOpenClass(p: string, st: State, o: Options, e: Engine) returns (re: string, hasMagic: bool)
    requires StateOk(st, |p|)
    ensures (re, hasMagic) == FixedClass(p, st, o, e)
    decreases |p|, 0
  {
    re, hasMagic := st.re, st.hasMagic;
    if st.inClass {
      var sp := SubParseText(p[st.classStart + 1..], o, e);
      re := Take(re, st.reClassStart) + "\\[" + sp.0;
      hasMagic := hasMagic || sp.1;
    }
  }

  /** The negative lists and the two guards. */
  method AddGuards(p: string, re0: string, hasMagic: bool, negs: seq<PatternList>, dot: bool, isSub: bool) returns (re: string)
    requires ClosedNegatives(negs)
    ensures re == Guards(p, re0, hasMagic, negs, dot, isSub)
  {
    var addPatternStart := |re0| > 0 && re0[0] in "[.(";
    re := RewriteNegatives(re0, negs, isSub);
    if re != "" && hasMagic {
      re := "(?=.)" + re;
    }
    if addPatternStart {
      re := PatternStart(p, dot) + re;
    }
  }

  /** The loop popping the lists left open at the end. */
  method CloseOpenLists(re0: string, stack0: seq<PatternList>) returns (re: string)
    ensures re == CloseLists(re0, stack0)
  {
    re := re0;
    var stack := stack0;
    while stack != []
      invariant CloseLists(re, stack) == CloseLists(re0, stack0)
      decreases |stack|
    {
      var pl := stack[|stack| - 1];
      stack := stack[..|stack| - 1];
      re := Reopen(re, pl);
    }
  }

  /** The loop over the closed negative lists, last first. */
  method RewriteNegatives(re0: string, negs: seq<PatternList>, isSub: bool) returns (re: string)
    requires ClosedNegatives(negs)
    ensures re == Negatives(re0, negs, isSub)
  {
    re := re0;
    var n := |negs|;
    assert negs[..n] == negs;
    while n > 0
      invariant 0 <= n <= |negs|
      invariant ClosedNegatives(negs[..n])
      invariant Negatives(re, negs[..n], isSub) == Negatives(re0, negs, isSub)
    {
      NegativesStep(re, negs[..n], isSub);
      assert negs[..n][..n - 1] == negs[..n - 1];
      n := n - 1;
      re := RewriteNegative(re, negs[n], isSub);
    }
  }

  /** One closed `!(..)`, with the inner loop removing one closing
      parenthesis for each `(` before the list. */
  method RewriteNegative(re: string, nl: PatternList, isSub: bool) returns (r: string)
    requires nl.reEnd >= 9
    ensures r == NegativeOne(re, nl, isSub)
  {
    var before := Take(re, nl.reStart);
    var first := Slice(re, nl.reStart, nl.reEnd - 8);
    var last := Slice(re, nl.reEnd - 8, nl.reEnd);
    var after := Drop(re, nl.reEnd);
    last := last + after;
    var cleanAfter := DropParens(after, multiset(before)['(']);
    var dollar := if cleanAfter == "" && !isSub then "$" else "";
    r := before + first + cleanAfter + dollar + last;
  }

  /** The inner `for` loop: one closing parenthesis dropped per step. */
  method DropParens(after: string, n: nat) returns (cleanAfter: string)
    ensures cleanAfter == DropCloseParens(after, n)
  {
    cleanAfter := after;
    var left := n;
    while left > 0
      invariant DropCloseParens(cleanAfter, left) == DropCloseParens(after, n)
    {
      DropCloseParensStep(cleanAfter, left);
      cleanAfter := DropCloseParen(cleanAfter);
      left := left - 1;
    }
  }

  /** DropCloseParens drops the first closing parenthesis first. */
  lemma DropCloseParensStep(s: string, m: nat)
    requires m > 0
    ensures DropCloseParens(s, m) == DropCloseParens(DropCloseParen(s), m - 1)
  {
  }

  /** Negatives takes the last list first, on a prefix of the lists. */
  lemma NegativesStep(re: string, negs: seq<PatternList>, isSub: bool)
    requires negs != [] && ClosedNegatives(negs)
    ensures ClosedNegatives(negs[..|negs| - 1]) && negs[|negs| - 1].reEnd >= 9
    ensures Negatives(re, negs, isSub)
            == Negatives(NegativeOne(re, negs[|negs| - 1], isSub), negs[..|negs| - 1], isSub)
  {
  }
}
