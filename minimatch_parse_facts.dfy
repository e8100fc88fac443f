// What minimatch's portion compiler promises: a portion without glob magic
// is the literal text, `nocase` always yields an expression, a glob escape
// makes a character literal, `regExpEscape` is undone by `globUnescape`, and
// the translations of `*`, `*.js` and `+(a|b)`.
module MinimatchParseFacts {
  import opened Wrappers
  import opened JsString
  import opened MinimatchParse

  /** Characters that can give a portion glob meaning. */
  predicate IsGlobChar(c: char)
  {
    IsExtChar(c) || c in "\\[/"
  }

  /** The loop has met nothing magic so far. */
  predicate Quiet(st: State)
  {
    && !st.hasMagic && !st.escaping && st.stack == [] && st.negatives == []
    && st.stateChar.None? && !st.inClass
  }

  /** Over characters without glob meaning the loop stays quiet. */
  lemma {:induction false} RunQuiet(p: string, i: nat, st: State, o: Options, e: Engine)
    requires i <= |p| && StateOk(st, i) && Quiet(st)
    requires forall k :: i <= k < |p| ==> !IsGlobChar(p[k])
    ensures Run(p, i, st, o, e).Some? && Quiet(Run(p, i, st, o, e).value)
    decreases |p| - i
  {
    if i < |p| {
      StepQuiet(p, i, st, o, e);
      RunQuiet(p, i + 1, Step(p, i, st, o, e).value, o, e);
    }
  }

  lemma StepQuiet(p: string, i: nat, st: State, o: Options, e: Engine)
    requires i < |p| && StateOk(st, i) && Quiet(st) && !IsGlobChar(p[i])
    ensures Step(p, i, st, o, e).Some? && Quiet(Step(p, i, st, o, e).value)
  {
    var c := p[i];
    assert c != '/' && c != '\\' && !IsExtChar(c) && c != '[';
    if c == '(' {
      assert Step(p, i, st, o, e) == Some(StepOpen(st));
    } else if c == ')' {
      assert Step(p, i, st, o, e) == Some(StepClose(st));
    } else if c == '|' {
      assert Step(p, i, st, o, e) == Some(StepPipe(st));
    } else if c == ']' {
      assert Step(p, i, st, o, e) == Some(StepClassClose(p, i, st, o, e));
    } else {
      assert Step(p, i, st, o, e) == Some(StepOther(c, st));
    }
  }

  /** A portion with no `* ? + @ ! \ [` (and no `/`) is matched literally:
      it compiles to its own text, whatever regular-expression characters
      it holds. */
  lemma LiteralPortion(p: string, o: Options, e: Engine)
    requires 0 < |p| <= MaxPatternLength && !o.nocase
    requires forall k :: 0 <= k < |p| ==> !IsGlobChar(p[k])
    ensures ParseSpec(p, o, e) == Compiled(Lit(p))
  {
    assert !IsGlobChar(p[0]) && IsGlobChar('*');
    RunQuiet(p, 0, Init(o.nocase), o, e);
    EndPhaseMagic(p, Run(p, 0, Init(o.nocase), o, e).value, o, e, false);
    assert NoChar(p, '\\') by {
      forall k | 0 <= k < |p| ensures p[k] != '\\' {
        assert !IsGlobChar(p[k]);
      }
    }
  }

  /** A backslash makes the next character literal, except `/`, which ends
      the portion, and `@`, which `reSpecials` lacks, so that `\@` still
      opens an extglob. */
  predicate Escapable(c: char)
  {
    c != '/' && c != '@'
  }

  /** Every glob character of `p` is preceded by a backslash that escapes
      it. */
  predicate EscapedText(p: string)
    decreases |p|
  {
    if p == [] then true
    else if p[0] == '\\' then |p| >= 2 && Escapable(p[1]) && EscapedText(p[2..])
    else !IsGlobChar(p[0]) && EscapedText(p[1..])
  }

  /** An escaping backslash and the character it escapes keep the loop
      quiet. */
  lemma EscapeQuiet(p: string, i: nat, st: State, o: Options, e: Engine)
    requires i + 1 < |p| && StateOk(st, i) && Quiet(st) && p[i] == '\\' && Escapable(p[i + 1])
    ensures Step(p, i, st, o, e).Some? && StateOk(Step(p, i, st, o, e).value, i + 1)
    ensures Step(p, i + 1, Step(p, i, st, o, e).value, o, e).Some?
    ensures Quiet(Step(p, i + 1, Step(p, i, st, o, e).value, o, e).value)
  {
    var s1 := Step(p, i, st, o, e).value;
    assert s1 == st.(escaping := true);
    var c := p[i + 1];
    if !IsReSpecial(c) {
      assert c != '/' && c != '\\' && !IsExtChar(c) && c != '(' && c != ')' && c != '[' && c != ']';
      if c == '|' {
        assert Step(p, i + 1, s1, o, e) == Some(StepPipe(s1));
      } else {
        assert Step(p, i + 1, s1, o, e) == Some(StepOther(c, s1));
      }
    }
  }

  /** Over escaped text the loop finishes and stays quiet. */
  lemma {:induction false} RunEscaped(p: string, i: nat, st: State, o: Options, e: Engine)
    requires i <= |p| && StateOk(st, i) && Quiet(st) && EscapedText(p[i..])
    ensures Run(p, i, st, o, e).Some? && Quiet(Run(p, i, st, o, e).value)
    decreases |p| - i
  {
    if i < |p| {
      var t := p[i..];
      assert t[0] == p[i];
      if p[i] == '\\' {
        assert t[1] == p[i + 1] && t[2..] == p[i + 2..];
        EscapeQuiet(p, i, st, o, e);
        var s1 := Step(p, i, st, o, e).value;
        var s2 := Step(p, i + 1, s1, o, e).value;
        RunEscaped(p, i + 2, s2, o, e);
      } else {
        assert t[1..] == p[i + 1..];
        StepQuiet(p, i, st, o, e);
        RunEscaped(p, i + 1, Step(p, i, st, o, e).value, o, e);
      }
    }
  }

  /** A portion whose glob characters are all escaped is matched literally:
      it compiles to its text with the escaping backslashes removed
      (`a\*b` is the name `a*b`). */
  lemma EscapedPortion(p: string, o: Options, e: Engine)
    requires 0 < |p| <= MaxPatternLength && !o.nocase && EscapedText(p)
    ensures ParseSpec(p, o, e) == Compiled(Lit(GlobUnescape(p)))
  {
    assert p[0] != '*' by {
      assert IsGlobChar('*');
    }
    assert p[0..] == p;
    RunEscaped(p, 0, Init(o.nocase), o, e);
    EndPhaseMagic(p, Run(p, 0, Init(o.nocase), o, e).value, o, e, false);
  }

  /** With `nocase` every portion but `` and `**` is compiled to an
      expression (with the `i` flag), never to a literal. */
  lemma NocaseIsMagic(p: string, o: Options, e: Engine)
    requires o.nocase && p != "" && p != "**"
    ensures ParseSpec(p, o, e).Compiled? ==> (ParseSpec(p, o, e).seg.Magic? && ParseSpec(p, o, e).seg.flags == "i") || ParseSpec(p, o, e).seg.Never?
  {
    RunKeepsMagic(p, 0, Init(o.nocase), o, e);
    var st := Run(p, 0, Init(o.nocase), o, e);
    if st.Some? {
      EndPhaseMagic(p, st.value, o, e, false);
    }
  }

  /** The end phase leaves a portion magic exactly when the loop did, or the
      open class read again is magic, or a list was left open, or a `*` or
      `?` was still pending. */
  lemma EndPhaseMagic(p: string, st: State, o: Options, e: Engine, isSub: bool)
    requires StateOk(st, |p|)
    ensures EndPhase(p, st, o, e, isSub).1
            == (st.hasMagic || (st.inClass && SubParse(p[st.classStart + 1..], o, e).1)
                || st.stack != [] || st.stateChar == Some('*') || st.stateChar == Some('?'))
  {
    var fixed := FixedClass(p, st, o, e);
    assert fixed.1 == (st.hasMagic || (st.inClass && SubParse(p[st.classStart + 1..], o, e).1));
    assert EndPhase(p, st, o, e, isSub).1 == (fixed.1 || st.stack != [] || PendingMagic(st.stateChar));
  }

  /** With `noglobstar`, `**` is the same as `*`. */
  lemma NoGlobstar(o: Options, e: Engine)
    requires o.noglobstar
    ensures ParseSpec("**", o, e) == ParseSpec("*", o, e)
  {
  }

  /** `*` is any run of characters but `/`, not starting with a dot unless
      `dot` is set, and not empty. */
  lemma StarPortion(o: Options, e: Engine)
    ensures ParseSpec("*", o, e) == Compiled(Compiles("*", PatternStart("*", o.dot) + "(?=.)" + Star, o, e))
  {
    var st := Step("*", 0, Init(o.nocase), o, e).value;
    assert st.re == (if o.noext then Star else "") && st.hasMagic == (o.nocase || o.noext);
    assert st.stateChar == (if o.noext then None else Some('*'));
    assert Run("*", 0, Init(o.nocase), o, e) == Some(st);
    EndPhaseQuietTail("*", st, o, e, Star);
  }

  /** The end phase of a loop that left only `re` and a pending state
      character behind. */
  lemma EndPhaseQuietTail(p: string, st: State, o: Options, e: Engine, re: string)
    requires StateOk(st, |p|) && !st.inClass && st.stack == [] && st.negatives == [] && !st.escaping
    requires ClearState(st).re == re && |re| > 0 && re[0] in "[.(" && ClearState(st).hasMagic
    ensures EndPhase(p, st, o, e, false) == (PatternStart(p, o.dot) + "(?=.)" + re, true)
  {
    assert CloseLists(st.re, st.stack) == st.re;
    assert st.re + PendingText(st.stateChar) == re;
    assert Negatives(re, st.negatives, false) == re;
    assert re != "";
    assert PatternStart(p, o.dot) + ("(?=.)" + re) == PatternStart(p, o.dot) + "(?=.)" + re;
  }

  /** The end phase with no list, negation, state character or escape
      pending: the guards around the expression the class fix leaves. */
  lemma EndPhaseFixed(p: string, st: State, o: Options, e: Engine, re: string)
    requires StateOk(st, |p|) && st.stack == [] && st.negatives == [] && !st.escaping && st.stateChar.None?
    requires FixedClass(p, st, o, e) == (re, true) && |re| > 0 && re[0] in "[.("
    ensures EndPhase(p, st, o, e, false) == (PatternStart(p, o.dot) + "(?=.)" + re, true)
  {
    assert CloseLists(re, st.stack) == re;
    assert CloseLists(re, st.stack) + PendingText(st.stateChar) == re;
    assert Negatives(re, st.negatives, false) == re;
    assert Guards(p, re, true, st.negatives, o.dot, false) == PatternStart(p, o.dot) + ("(?=.)" + re);
    assert PatternStart(p, o.dot) + ("(?=.)" + re) == PatternStart(p, o.dot) + "(?=.)" + re;
  }

  /** `\*` is a literal star. */
  lemma EscapedStar(o: Options, e: Engine)
    requires !o.nocase
    ensures ParseSpec("\\*", o, e) == Compiled(Lit("*"))
  {
    var s0 := Init(o.nocase);
    var s1 := Step("\\*", 0, s0, o, e).value;
    assert s1 == s0.(escaping := true);
    var s2 := Step("\\*", 1, s1, o, e).value;
    assert s2 == s0.(re := "\\*");
    assert Run("\\*", 0, s0, o, e) == Some(s2);
    assert GlobUnescape("\\*") == "*";
  }

  /** `*.js`: anything without a leading dot, then a literal `.js`. */
  lemma StarDotJs(o: Options, e: Engine)
    requires !o.noext
    ensures ParseSpec("*.js", o, e) == Compiled(Compiles("*.js", PatternStart("*.js", o.dot) + "(?=.)" + Star + "\\.js", o, e))
  {
    var p := "*.js";
    var st := StarDotJsLoop(o, e);
    EndPhaseQuietTail(p, st, o, e, Star + "\\.js");
    assert PatternStart(p, o.dot) + "(?=.)" + (Star + "\\.js") == PatternStart(p, o.dot) + "(?=.)" + Star + "\\.js";
    ParseOfRun(p, st, o, e, PatternStart(p, o.dot) + "(?=.)" + Star + "\\.js");
  }

  lemma StarDotJsLoop(o: Options, e: Engine) returns (s4: State)
    requires !o.noext
    ensures StateOk(s4, 4) && Run("*.js", 0, Init(o.nocase), o, e) == Some(s4)
    ensures s4.re == Star + "\\.js" && s4.hasMagic && s4.stateChar.None?
    ensures !s4.inClass && s4.stack == [] && s4.negatives == [] && !s4.escaping
  {
    var p := "*.js";
    var s2 := StarDot(p, o, e);
    assert p[2..] == "js";
    Lowercase(p[2]);
    Lowercase(p[3]);
    RunOrdinary(p, 2, s2, o, e);
    s4 := s2.(re := s2.re + "js");
  }

  /** Ordinary characters are copied to `re` as they are. */
  lemma {:induction false} RunOrdinary(p: string, i: nat, st: State, o: Options, e: Engine)
    requires i <= |p| && StateOk(st, i) && !st.escaping && st.stateChar.None?
    requires forall k :: i <= k < |p| ==> IsOrdinary(p[k])
    ensures StateOk(st.(re := st.re + p[i..]), |p|)
    ensures Run(p, i, st, o, e) == Some(st.(re := st.re + p[i..]))
    decreases |p| - i
  {
    if i < |p| {
      Dispatch(p, i, st, o, e);
      var s1 := st.(re := st.re + [p[i]]);
      assert StepOther(p[i], st) == s1;
      RunOrdinary(p, i + 1, s1, o, e);
      assert st.re + [p[i]] + p[i + 1..] == st.re + p[i..];
    } else {
      assert st.(re := st.re + p[i..]) == st;
    }
  }

  /** A character with no meaning to glob or to regular expressions. */
  predicate IsOrdinary(c: char)
  {
    !IsGlobChar(c) && c !in "()|]" && !IsReSpecial(c)
  }

  /** Lower-case letters are ordinary. */
  lemma Lowercase(c: char)
    requires 'a' <= c <= 'z'
    ensures IsOrdinary(c)
  {
  }

  /** A leading `*` is held as the pending state character. */
  lemma StarFirst(p: string, o: Options, e: Engine) returns (s1: State)
    requires !o.noext && |p| >= 1 && p[0] == '*'
    ensures StateOk(s1, 1) && Run(p, 0, Init(o.nocase), o, e) == Run(p, 1, s1, o, e)
    ensures s1 == StepExt('*', 0, Init(o.nocase), o.noext)
    ensures s1.re == "" && s1.stateChar == Some('*') && s1.hasMagic == o.nocase && !s1.inClass
    ensures s1.stack == [] && s1.negatives == [] && !s1.escaping
  {
    var s0 := Init(o.nocase);
    Dispatch(p, 0, s0, o, e);
    s1 := StepExt('*', 0, s0, o.noext);
    RunStep(p, 0, s0, s1, o, e);
  }

  /** The first two characters of `*.js`. */
  lemma StarDot(p: string, o: Options, e: Engine) returns (s2: State)
    requires !o.noext && |p| >= 2 && p[0] == '*' && p[1] == '.'
    ensures StateOk(s2, 2) && Run(p, 0, Init(o.nocase), o, e) == Run(p, 2, s2, o, e)
    ensures s2.re == Star + "\\." && s2.hasMagic && s2.stateChar.None?
    ensures !s2.inClass && s2.stack == [] && s2.negatives == [] && !s2.escaping
  {
    var s1 := StarFirst(p, o, e);
    Dispatch(p, 1, s1, o, e);
    assert ClearState(s1).re == Star;
    s2 := StepOther('.', s1);
    RunStep(p, 1, s1, s2, o, e);
  }

  /** `+(a|b)`: one or more of the alternatives. */
  lemma OneOrMore(p: string, o: Options, e: Engine)
    requires !o.noext && !o.nocase && PlusAB(p)
    ensures ParseSpec(p, o, e) == Compiled(Compiles(p, PatternStart(p, o.dot) + "(?=.)" + "(?:a|b)+", o, e))
  {
    var st := OneOrMoreLoop(p, o, e);
    EndPhaseQuietTail(p, st, o, e, "(?:a|b)+");
    ParseOfRun(p, st, o, e, PatternStart(p, o.dot) + "(?=.)" + "(?:a|b)+");
  }

  /** The characters of `+(a|b)`, one by one. */
  predicate PlusAB(p: string)
  {
    |p| == 6 && p[0] == '+' && p[1] == '(' && p[2] == 'a' && p[3] == '|' && p[4] == 'b' && p[5] == ')'
  }

  lemma OneOrMoreLoop(p: string, o: Options, e: Engine) returns (s6: State)
    requires !o.noext && !o.nocase && PlusAB(p)
    ensures StateOk(s6, 6) && Run(p, 0, Init(o.nocase), o, e) == Some(s6)
    ensures s6.re == "(?:a|b)+" && s6.hasMagic && s6.stateChar.None?
    ensures !s6.inClass && s6.stack == [] && s6.negatives == [] && !s6.escaping
  {
    var s5 := OneOrMoreAlternatives(p, o, e);
    Dispatch(p, 5, s5, o, e);
    s6 := StepClose(s5);
    RunStep(p, 5, s5, s6, o, e);
    assert s6.re == "(?:a|b)+" && s6.stack == [] && s6.negatives == [];
    assert Run(p, 6, s6, o, e) == Some(s6);
  }

  /** `+(a|b` */
  lemma OneOrMoreAlternatives(p: string, o: Options, e: Engine) returns (s5: State)
    requires !o.noext && !o.nocase && PlusAB(p)
    ensures StateOk(s5, 5) && Run(p, 0, Init(o.nocase), o, e) == Run(p, 5, s5, o, e)
    ensures s5.re == "(?:a|b" && s5.stack == [PatternList('+', 0, 0)] && s5.stateChar.None?
    ensures !s5.inClass && s5.negatives == [] && !s5.escaping && !s5.hasMagic
  {
    var s4 := OneOrMorePipe(p, o, e);
    Dispatch(p, 4, s4, o, e);
    s5 := StepOther('b', s4);
    RunStep(p, 4, s4, s5, o, e);
  }

  /** `+(a|` */
  lemma OneOrMorePipe(p: string, o: Options, e: Engine) returns (s4: State)
    requires !o.noext && !o.nocase && PlusAB(p)
    ensures StateOk(s4, 4) && Run(p, 0, Init(o.nocase), o, e) == Run(p, 4, s4, o, e)
    ensures s4.re == "(?:a|" && s4.stack == [PatternList('+', 0, 0)] && s4.stateChar.None?
    ensures !s4.inClass && s4.negatives == [] && !s4.escaping && !s4.hasMagic
  {
    var s2 := OneOrMoreOpen(p, o, e);
    Dispatch(p, 2, s2, o, e);
    var s3 := StepOther('a', s2);
    RunStep(p, 2, s2, s3, o, e);
    Dispatch(p, 3, s3, o, e);
    s4 := StepPipe(s3);
    RunStep(p, 3, s3, s4, o, e);
    assert s3.re == "(?:a";
  }

  /** `+(`: the list is open. */
  lemma OneOrMoreOpen(p: string, o: Options, e: Engine) returns (s2: State)
    requires !o.noext && !o.nocase && PlusAB(p)
    ensures StateOk(s2, 2) && Run(p, 0, Init(o.nocase), o, e) == Run(p, 2, s2, o, e)
    ensures s2.re == "(?:" && s2.stack == [PatternList('+', 0, 0)] && s2.stateChar.None?
    ensures !s2.inClass && s2.negatives == [] && !s2.escaping && !s2.hasMagic
  {
    var s0 := Init(o.nocase);
    Dispatch(p, 0, s0, o, e);
    var s1 := StepExt('+', 0, s0, o.noext);
    RunStep(p, 0, s0, s1, o, e);
    Dispatch(p, 1, s1, o, e);
    s2 := StepOpen(s1);
    RunStep(p, 1, s1, s2, o, e);
  }

  /** Which branch of the loop a character takes when no escape is
      pending. */
  lemma Dispatch(p: string, i: nat, st: State, o: Options, e: Engine)
    requires i < |p| && StateOk(st, i) && !st.escaping
    ensures IsExtChar(p[i]) ==> Step(p, i, st, o, e) == Some(StepExt(p[i], i, st, o.noext))
    ensures p[i] == '(' ==> Step(p, i, st, o, e) == Some(StepOpen(st))
    ensures p[i] == ')' ==> Step(p, i, st, o, e) == Some(StepClose(st))
    ensures p[i] == '|' ==> Step(p, i, st, o, e) == Some(StepPipe(st))
    ensures !IsGlobChar(p[i]) && p[i] !in "()|]" ==> Step(p, i, st, o, e) == Some(StepOther(p[i], st))
  {
  }

  /** One turn of the loop. */
  lemma RunStep(p: string, i: nat, st: State, next: State, o: Options, e: Engine)
    requires i < |p| && StateOk(st, i) && Step(p, i, st, o, e) == Some(next)
    ensures StateOk(next, i + 1) && Run(p, i, st, o, e) == Run(p, i + 1, next, o, e)
  {
  }

  /** A magic loop result becomes the portion's expression. */
  lemma ParseOfRun(p: string, st: State, o: Options, e: Engine, re: string)
    requires 0 < |p| <= MaxPatternLength && p != "**"
    requires Run(p, 0, Init(o.nocase), o, e) == Some(st) && StateOk(st, |p|)
    requires EndPhase(p, st, o, e, false) == (re, true)
    ensures ParseSpec(p, o, e) == Compiled(Compiles(p, re, o, e))
  {
    assert Compile(p, o, e, false) == Some((re, true));
  }

  /** Without backslashes, escaping the pipes of an unclosed list puts one
      backslash before each `|`. */
  lemma {:induction false} EscapePipesPlain(s: string)
    requires NoChar(s, '\\')
    ensures EscapePipes(s) == ReplaceAll(s, "|", "\\|")
    decreases |s|
  {
    var j := IndexOf(s, "|", 0);
    if j < 0 {
      ReplaceAllAbsent(s, "|", "\\|");
    } else {
      var rest := s[j + 1..];
      assert NoChar(rest, '\\') by {
        forall k | 0 <= k < |rest| ensures rest[k] != '\\' { assert rest[k] == s[j + 1 + k]; }
      }
      EscapePipesPlain(rest);
      NoTrailingBackslash(s[..j]);
      EscapePipesAt(s, j);
      SplitAt(s, "|", j);
      JoinCons(s[..j], Split(rest, "|"), "\\|");
    }
  }

  /** One step of EscapePipes at the first `|`, with no backslash before
      it. */
  lemma EscapePipesAt(s: string, j: int)
    requires IndexOf(s, "|", 0) == j && j >= 0 && TrailingBackslashes(s[..j]) == 0
    ensures EscapePipes(s) == s[..j] + "\\|" + EscapePipes(s[j + 1..])
  {
    var m := MatchedRun(TrailingBackslashes(s[..j]));
    assert m == 0;
    assert s[..j - m] == s[..j];
    assert PipeReplacement(m) == "\\" by { assert Backslashes(1) == Backslashes(0) + "\\"; }
    assert s[..j] + "\\" + "|" == s[..j] + "\\|";
  }

  lemma NoTrailingBackslash(s: string)
    requires NoChar(s, '\\')
    ensures TrailingBackslashes(s) == 0
  {
    if s != [] {
      assert s[|s| - 1] != '\\';
    }
  }

  /** `globUnescape` undoes `regExpEscape` on text without line
      terminators. */
  lemma {:induction false} UnescapeEscaped(s: string)
    requires forall k :: 0 <= k < |s| ==> !IsLineTerminator(s[k])
    ensures GlobUnescape(RegExpEscape(s)) == s
    decreases |s|
  {
    if s != [] {
      var rest := RegExpEscape(s[1..]);
      UnescapeEscaped(s[1..]);
      if IsRegExpSpecial(s[0]) {
        var t := ['\\', s[0]] + rest;
        assert RegExpEscape(s) == t;
        assert t[2..] == rest;
      } else {
        var t := [s[0]] + rest;
        assert RegExpEscape(s) == t;
        assert t[1..] == rest;
        assert s[0] != '\\';
      }
      assert [s[0]] + s[1..] == s;
    }
  }

  // ---- A class left open at the end ----

  /** The loop over `*[`: the star is pending, then the class opens after
      its expression. */
  lemma StarBracketLoop(p: string, o: Options, e: Engine) returns (s2: State)
    requires !o.noext && |p| == 2 && p[0] == '*' && p[1] == '['
    ensures StateOk(s2, 2) && Run(p, 0, Init(o.nocase), o, e) == Some(s2)
    ensures s2.re == Star + "[" && s2.hasMagic && s2.stateChar.None? && !s2.escaping
    ensures s2.inClass && s2.classStart == 1 && s2.reClassStart == 6
    ensures s2.stack == [] && s2.negatives == []
  {
    var s1 := StarFirst(p, o, e);
    assert Step(p, 1, s1, o, e) == Some(StepClassOpen(1, s1));
    s2 := StepClassOpen(1, s1);
    RunStep(p, 1, s1, s2, o, e);
    assert Run(p, 2, s2, o, e) == Some(s2);
  }

  /** Read again as glob text, the empty rest of the class is empty. */
  lemma SubParseEmpty(o: Options, e: Engine)
    ensures SubParse("", o, e) == ("", o.nocase)
  {
    var st := Init(o.nocase);
    assert Run("", 0, st, o, e) == Some(st);
    assert ClearState(st) == st;
    assert EndPhase("", st, o, e, true) == ("", o.nocase);
  }

  /** `*[` as the code is written: the open class is read again with
      `parse('', SUBPARSE)`, which returns '' rather than a pair, so the
      expression gains the text `[undefined` where a lone `[` was meant. */
  lemma UnclosedClassAsWritten(o: Options, e: Engine)
    ensures OpenClassFix(Star + "[", 6, true, SubParseAsWritten("", o, e)) == (Star + "\\[undefined", true)
    ensures OpenClassFix(Star + "[", 6, true, SubParse("", o, e)) == (Star + "\\[", true)
  {
    SubParseEmpty(o, e);
    assert Take(Star + "[", 6) == Star;
    assert Star + "\\[" + "undefined" == Star + "\\[undefined";
    assert Star + "\\[" + "" == Star + "\\[";
  }

  /** `*[` compiled as intended: any name without a leading dot that ends
      in a literal `[`. */
  lemma UnclosedClass(p: string, o: Options, e: Engine)
    requires !o.noext && |p| == 2 && p[0] == '*' && p[1] == '['
    ensures ParseSpec(p, o, e) == Compiled(Compiles(p, PatternStart(p, o.dot) + "(?=.)" + Star + "\\[", o, e))
  {
    var st := StarBracketLoop(p, o, e);
    assert p[st.classStart + 1..] == "";
    UnclosedClassAsWritten(o, e);
    var re := Star + "\\[";
    assert FixedClass(p, st, o, e) == (re, true);
    assert re[0] in "[.(";
    EndPhaseFixed(p, st, o, e, re);
    ParseOfRun(p, st, o, e, PatternStart(p, o.dot) + "(?=.)" + re);
    assert PatternStart(p, o.dot) + "(?=.)" + re == PatternStart(p, o.dot) + "(?=.)" + Star + "\\[";
  }
}
