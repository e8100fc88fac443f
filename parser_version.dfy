// `getParserVersion` (src/rebuild-parse-cache/src/get-parser-version.ts):
// the first match of /SNOOTY_PARSER_VERSION=\d+.\d+.(\d+)?/g in the
// Dockerfile text, the part after its first `=` up to any further `=`,
// trimmed. The regular expression is matched here by a backtracking matcher
// for the few constructs it uses, in the order JavaScript tries them.
module ParserVersion {
  import opened Wrappers
  import opened JsString
  import opened Decimal

  /** The constructs of the expression: a literal character, `.` (any
      character but a line terminator), `\d+` and `(\d+)?`. */
  datatype Atom = Ch(c: char) | AnyChar | Digits | OptDigits

  const Key := "SNOOTY_PARSER_VERSION="
  const NotFound := "ERROR! Could not find SNOOTY_PARSER_VERSION in Dockerfile.enhanced"

  function Literal(p: string): (r: seq<Atom>)
    ensures |r| == |p| && forall k :: 0 <= k < |p| ==> r[k] == Ch(p[k])
  {
    seq(|p|, k requires 0 <= k < |p| => Ch(p[k]))
  }

  /** /SNOOTY_PARSER_VERSION=\d+.\d+.(\d+)?/ */
  function Pattern(): seq<Atom>
  {
    Literal(Key) + [Digits, AnyChar, Digits, AnyChar, OptDigits]
  }

  /** The number of digits starting at `i`. */
  function DigitRun(s: string, i: nat): (n: nat)
    requires i <= |s|
    ensures i + n <= |s|
    decreases |s| - i
  {
    if i < |s| && IsDigit(s[i]) then 1 + DigitRun(s, i + 1) else 0
  }

  /** The run is made of digits and stops before a non-digit. */
  lemma {:induction false} DigitRunDigits(s: string, i: nat)
    requires i <= |s|
    ensures forall k :: i <= k < i + DigitRun(s, i) ==> IsDigit(s[k])
    ensures i + DigitRun(s, i) < |s| ==> !IsDigit(s[i + DigitRun(s, i)])
    decreases |s| - i
  {
    if i < |s| && IsDigit(s[i]) {
      DigitRunDigits(s, i + 1);
    }
  }

  /** Where the first successful way of matching `re` at `i` ends, trying
      longer digit runs before shorter ones and the optional group before
      skipping it. */
  function MatchFrom(s: string, re: seq<Atom>, i: nat): (r: Option<nat>)
    requires i <= |s|
    ensures r.Some? ==> i <= r.value <= |s|
    decreases |re|, 1, 0
  {
    if re == [] then Some(i)
    else match re[0]
      case Ch(c) => if i < |s| && s[i] == c then MatchFrom(s, re[1..], i + 1) else None
      case AnyChar => if i < |s| && !IsLineTerminator(s[i]) then MatchFrom(s, re[1..], i + 1) else None
      case Digits =>
        var n := DigitRun(s, i);
        if n == 0 then None else TryRuns(s, re[1..], i, n)
      case OptDigits =>
        var n := DigitRun(s, i);
        var once := if n == 0 then None else TryRuns(s, re[1..], i, n);
        if once.Some? then once else MatchFrom(s, re[1..], i)
  }

  /** A digit run of `n`, `n - 1`, ..., 1 characters at `i`, each followed
      by `rest`. */
  function TryRuns(s: string, rest: seq<Atom>, i: nat, n: nat): (r: Option<nat>)
    requires i + n <= |s|
    ensures r.Some? ==> i <= r.value <= |s|
    decreases |rest| + 1, 0, n
  {
    var r := MatchFrom(s, rest, i + n);
    if r.Some? || n <= 1 then r else TryRuns(s, rest, i, n - 1)
  }

  /** The leftmost start at or after `j` where `re` matches, with the end
      of that match. */
  function FirstMatch(s: string, re: seq<Atom>, j: nat): (r: Option<(nat, nat)>)
    requires j <= |s|
    ensures r.Some? ==> j <= r.value.0 <= |s| && MatchFrom(s, re, r.value.0) == Some(r.value.1)
    ensures r.Some? ==> forall k :: j <= k < r.value.0 ==> MatchFrom(s, re, k).None?
    ensures r.None? ==> forall k :: j <= k <= |s| ==> MatchFrom(s, re, k).None?
    decreases |s| - j
  {
    var m := MatchFrom(s, re, j);
    if m.Some? then Some((j, m.value))
    else if j == |s| then None
    else FirstMatch(s, re, j + 1)
  }

  /** `dockerfileStr.match(re)[0].split('=')[1].trim()`, or the error
      thrown when nothing matches. */
  function GetParserVersion(dockerfile: string): (r: Result<string, string>)
    ensures r.Err? <==> forall k :: 0 <= k <= |dockerfile| ==> MatchFrom(dockerfile, Pattern(), k).None?
    ensures r.Err? ==> r.error == NotFound
    ensures r.Ok? ==> |r.value| > 0 && IsDigit(r.value[0])
  {
    match FirstMatch(dockerfile, Pattern(), 0)
    case None => Err(NotFound)
    case Some((j, e)) =>
      MatchedField(dockerfile, j, e);
      Ok(Trim(Split(dockerfile[j..e], "=")[1]))
  }

  /** The version field of a match starts with a digit. */
  lemma MatchedField(s: string, j: nat, e: nat)
    requires j <= |s| && MatchFrom(s, Pattern(), j) == Some(e)
    ensures |Split(s[j..e], "=")| >= 2
    ensures var v := Trim(Split(s[j..e], "=")[1]); |v| > 0 && IsDigit(v[0])
  {
    KeyName();
    MatchShape(s, Key, j, e);
    KeyThenDigit(s[j..e], Key);
  }

  /** The same for any text that is a key ending in its only `=`, then a
      digit. */
  lemma KeyThenDigit(m: string, key: string)
    requires KeyShape(key) && |m| > |key| && m[..|key|] == key && IsDigit(m[|key|])
    ensures |Split(m, "=")| >= 2
    ensures var v := Trim(Split(m, "=")[1]); |v| > 0 && IsDigit(v[0])
  {
    var t := m[|key|..];
    assert t[0] == m[|key|];
    SplitKey(m, key);
    FieldHead(t);
    var f := Split(t, "=")[0];
    assert Split(m, "=")[1] == f;
    TrimKeepsHead(f);
  }

  /** A match is the key followed by a digit. */
  lemma MatchShape(s: string, key: string, j: nat, e: nat)
    requires j <= |s| && MatchFrom(s, Literal(key) + [Digits, AnyChar, Digits, AnyChar, OptDigits], j) == Some(e)
    ensures j + |key| + 1 <= e && s[j..e][..|key|] == key && IsDigit(s[j..e][|key|])
  {
    var tail := [Digits, AnyChar, Digits, AnyChar, OptDigits];
    LiteralMatch(s, key, tail, j);
    var i := j + |key|;
    assert s[j..i] == key;
    var n := DigitRun(s, i);
    assert tail[0] == Digits && tail[1..] == [AnyChar, Digits, AnyChar, OptDigits];
    assert n > 0;
    TryRunsEnd(s, tail[1..], i, n);
    assert s[j..e][..|key|] == s[j..i];
    assert s[j..e][|key|] == s[i];
  }

  /** A `Digits` atom followed by `rest` ends at least one digit later. */
  lemma TryRunsEnd(s: string, rest: seq<Atom>, i: nat, n: nat)
    requires i + n <= |s| && n > 0
    ensures TryRuns(s, rest, i, n).Some? ==> i + 1 <= TryRuns(s, rest, i, n).value
    decreases n
  {
    if MatchFrom(s, rest, i + n).None? && n > 1 {
      TryRunsEnd(s, rest, i, n - 1);
    }
  }

  /** A literal prefix of atoms matches exactly where its text occurs. */
  lemma {:induction false} LiteralMatch(s: string, p: string, rest: seq<Atom>, i: nat)
    requires i <= |s|
    ensures MatchFrom(s, Literal(p) + rest, i)
         == if OccursAt(s, p, i) then MatchFrom(s, rest, i + |p|) else None
    decreases |p|
  {
    var re := Literal(p) + rest;
    if p != [] {
      assert re[0] == Ch(p[0]);
      assert re[1..] == Literal(p[1..]) + rest;
      if i < |s| && s[i] == p[0] {
        LiteralMatch(s, p[1..], rest, i + 1);
        assert OccursAt(s, p, i) <==> OccursAt(s, p[1..], i + 1) by {
          if i + |p| <= |s| {
            assert s[i..i + |p|] == [s[i]] + s[i + 1..i + |p|];
          }
        }
      } else if i + |p| <= |s| {
        assert s[i..i + |p|][0] == s[i];
      }
    } else {
      assert re == rest;
      assert s[i..i] == p;
    }
  }

  /** The key holds one `=`, at its end, so the first `=` of a match ends
      the key and `split('=')[1]` is what follows it up to the next `=`. */
  lemma SplitKey(m: string, key: string)
    requires KeyShape(key) && |m| > |key| && m[..|key|] == key
    ensures |Split(m, "=")| >= 2
    ensures Split(m, "=")[1] == Split(m[|key|..], "=")[0]
  {
    var last := |key| - 1;
    assert IndexOf(m, "=", 0) == last by {
      assert OccursAt(m, "=", last) by {
        assert m[last..last + 1] == [key[last]];
      }
      forall j | 0 <= j < last ensures !OccursAt(m, "=", j) {
        assert m[j..j + 1] == [key[j]];
      }
    }
    SplitAt(m, "=", last);
  }

  /** A key whose only `=` is its last character. */
  predicate KeyShape(key: string)
  {
    |key| > 0 && key[|key| - 1] == '=' && forall j :: 0 <= j < |key| - 1 ==> key[j] != '='
  }

  /** `SNOOTY_PARSER_VERSION=` has that shape. */
  lemma KeyName()
    ensures KeyShape(Key) && |Key| == 22
  {
  }

  /** The first `=`-separated field of a text that does not start with `=`
      starts with the text's first character. */
  lemma FieldHead(t: string)
    requires |t| > 0 && t[0] != '='
    ensures |Split(t, "=")[0]| > 0 && Split(t, "=")[0][0] == t[0]
  {
    var i := IndexOf(t, "=", 0);
    if i != -1 {
      SplitAt(t, "=", i);
      assert i != 0 by {
        assert t[0..1] == [t[0]];
      }
    }
  }

  /** Trimming keeps a first character that is not whitespace. */
  lemma TrimKeepsHead(t: string)
    requires |t| > 0 && !IsWhitespace(t[0])
    ensures |Trim(t)| > 0 && Trim(t)[0] == t[0]
  {
    var i := ContentStart(t, 0);
    assert i == 0;
    var j := ContentEnd(t, |t|, i);
    assert j > 0;
  }

  /** A text without the key has no version in it: a bare `=1.2` is not
      enough. */
  lemma NoKeyNoVersion(s: string)
    requires !Contains(s, Key)
    ensures GetParserVersion(s) == Err(NotFound)
  {
    forall k | 0 <= k <= |s| ensures MatchFrom(s, Pattern(), k).None? {
      LiteralMatch(s, Key, [Digits, AnyChar, Digits, AnyChar, OptDigits], k);
    }
  }

  /** A character that may stand between the numbers of a version and
      survives the `split('=')` and the `trim()`. */
  predicate Separator(c: char)
  {
    !IsDigit(c) && !IsLineTerminator(c) && !IsWhitespace(c) && c != '='
  }

  /** A Dockerfile that starts with the key and a version `x p y q z`
      (`0.15.2`, or `1.2.` with no patch number) yields that version, the
      greedy `\d+` and `(\d+)?` taking every digit there is. */
  lemma VersionRead(v: string, x: string, p: char, y: string, q: char, z: string, rest: string)
    requires v == x + [p] + y + [q] + z
    requires |x| > 0 && |y| > 0 && AllDigits(x) && AllDigits(y) && AllDigits(z)
    requires Separator(p) && Separator(q)
    requires rest == [] || !IsDigit(rest[0])
    ensures GetParserVersion(Key + v + rest) == Ok(v)
  {
    VersionLayout(x, p, y, q, z);
    var s := Key + v + rest;
    KeyThenVersion(v, rest);
    VersionAt(s, v, |x|, |x| + 1 + |y|);
    assert !IsWhitespace(v[0]) && !IsWhitespace(v[|v| - 1]);
    MatchedVersion(s, v);
  }

  /** A version laid out as digits, a separator at `a`, digits, a separator
      at `b` and possibly more digits, right after the key, is what the
      expression matches after the key. */
  lemma VersionAt(s: string, v: string, a: nat, b: nat)
    requires 0 < a && a + 1 < b < |v| && 22 + |v| <= |s|
    requires forall i :: 0 <= i < |v| ==> s[22 + i] == v[i]
    requires 22 + |v| == |s| || !IsDigit(s[22 + |v|])
    requires forall k :: 0 <= k < a ==> IsDigit(v[k])
    requires forall k :: a < k < b ==> IsDigit(v[k])
    requires forall k :: b < k < |v| ==> IsDigit(v[k])
    requires Separator(v[a]) && Separator(v[b])
    ensures MatchFrom(s, [Digits, AnyChar, Digits, AnyChar, OptDigits], 22) == Some(22 + |v|)
  {
    var e := 22 + |v|;
    assert s[22 + a] == v[a] && s[22 + b] == v[b];
    forall k | 22 <= k < 22 + a ensures IsDigit(s[k]) {
      assert s[22 + (k - 22)] == v[k - 22];
    }
    DigitRunAt(s, 22, 22 + a);
    forall k | 23 + a <= k < 22 + b ensures IsDigit(s[k]) {
      assert s[22 + (k - 22)] == v[k - 22];
    }
    DigitRunAt(s, 23 + a, 22 + b);
    forall k | 23 + b <= k < e ensures IsDigit(s[k]) {
      assert s[22 + (k - 22)] == v[k - 22];
    }
    DigitRunAt(s, 23 + b, e);
    TailMatch(s, 22, 22 + a, 22 + b, e);
  }

  /** Where the pieces of a version sit. */
  lemma VersionLayout(x: string, p: char, y: string, q: char, z: string)
    requires AllDigits(x) && AllDigits(y) && AllDigits(z)
    requires Separator(p) && Separator(q)
    ensures var v := x + [p] + y + [q] + z;
            && |v| == |x| + |y| + |z| + 2
            && (forall k :: 0 <= k < |x| ==> IsDigit(v[k]))
            && v[|x|] == p
            && (forall k :: |x| < k < |x| + 1 + |y| ==> IsDigit(v[k]))
            && v[|x| + 1 + |y|] == q
            && (forall k :: |x| + 1 + |y| < k < |v| ==> IsDigit(v[k]))
            && NoChar(v, '=')
  {
    var v := x + [p] + y + [q] + z;
    assert forall k :: 0 <= k < |x| ==> v[k] == x[k];
    assert forall k :: |x| < k < |x| + 1 + |y| ==> v[k] == y[k - |x| - 1];
    assert forall k :: |x| + 1 + |y| < k < |v| ==> v[k] == z[k - |x| - 2 - |y|];
  }

  /** Indexing into the key, the version and what follows. */
  lemma KeyThenVersion(v: string, rest: string)
    ensures var s := Key + v + rest;
            && |s| == 22 + |v| + |rest|
            && s[..22] == Key && s[22..22 + |v|] == v
            && (forall i :: 0 <= i < |v| ==> s[22 + i] == v[i])
            && (rest != [] ==> s[22 + |v|] == rest[0])
  {
  }

  /** The digit run at `i` ends at `j` when everything in between is a digit
      and the character at `j` (if any) is not. */
  lemma {:induction false} DigitRunAt(s: string, i: nat, j: nat)
    requires i <= j <= |s| && forall k :: i <= k < j ==> IsDigit(s[k])
    requires j == |s| || !IsDigit(s[j])
    ensures DigitRun(s, i) == j - i
    decreases j - i
  {
    if i < j {
      DigitRunAt(s, i + 1, j);
    }
  }

  /** The part of the expression after the key, over a digit run ending at
      `a`, a character, a digit run ending at `b`, a character and a
      possibly empty digit run ending at `e`. */
  lemma TailMatch(s: string, i: nat, a: nat, b: nat, e: nat)
    requires i < a < |s| && a + 1 < b < |s| && b + 1 <= e <= |s|
    requires DigitRun(s, i) == a - i && DigitRun(s, a + 1) == b - a - 1 && DigitRun(s, b + 1) == e - b - 1
    requires !IsLineTerminator(s[a]) && !IsLineTerminator(s[b])
    ensures MatchFrom(s, [Digits, AnyChar, Digits, AnyChar, OptDigits], i) == Some(e)
  {
    var r4 := [OptDigits];
    OptDigitsAll(s, b + 1);
    var r3 := [AnyChar] + r4;
    AnyCharStep(s, r4, b);
    var r2 := [Digits] + r3;
    DigitsStep(s, r3, a + 1, e);
    var r1 := [AnyChar] + r2;
    AnyCharStep(s, r2, a);
    DigitsStep(s, r1, i, e);
    assert [Digits] + r1 == [Digits, AnyChar, Digits, AnyChar, OptDigits];
  }

  /** `(\d+)?` at the end of the expression takes every digit there is. */
  lemma OptDigitsAll(s: string, i: nat)
    requires i <= |s|
    ensures MatchFrom(s, [OptDigits], i) == Some(i + DigitRun(s, i))
  {
    var n := DigitRun(s, i);
    assert [OptDigits][1..] == [];
    if n > 0 {
      assert TryRuns(s, [], i, n) == Some(i + n);
    }
  }

  /** `.` over a character that is not a line terminator. */
  lemma AnyCharStep(s: string, rest: seq<Atom>, i: nat)
    requires i < |s| && !IsLineTerminator(s[i])
    ensures MatchFrom(s, [AnyChar] + rest, i) == MatchFrom(s, rest, i + 1)
  {
    assert ([AnyChar] + rest)[1..] == rest;
  }

  /** `\d+` whose longest run is followed by a match of the rest. */
  lemma DigitsStep(s: string, rest: seq<Atom>, i: nat, e: nat)
    requires i <= |s| && DigitRun(s, i) > 0 && MatchFrom(s, rest, i + DigitRun(s, i)) == Some(e)
    ensures MatchFrom(s, [Digits] + rest, i) == Some(e)
  {
    assert ([Digits] + rest)[1..] == rest;
  }

  /** When the match at the start is the key and `v`, the version is `v`. */
  lemma MatchedVersion(s: string, v: string)
    requires 22 + |v| <= |s| && s[..22] == Key && s[22..22 + |v|] == v
    requires MatchFrom(s, [Digits, AnyChar, Digits, AnyChar, OptDigits], 22) == Some(22 + |v|)
    requires |v| > 0 && NoChar(v, '=') && !IsWhitespace(v[0]) && !IsWhitespace(v[|v| - 1])
    ensures GetParserVersion(s) == Ok(v)
  {
    KeyName();
    var e: nat := 22 + |v|;
    MatchAtStart(s, Key, [Digits, AnyChar, Digits, AnyChar, OptDigits], e);
    var m := s[0..e];
    assert m[..22] == Key && m[22..] == v;
    KeyThenField(m, Key, v);
  }

  /** A text that starts with the key matches at its start. */
  lemma MatchAtStart(s: string, key: string, tail: seq<Atom>, e: nat)
    requires |key| <= |s| && s[..|key|] == key && MatchFrom(s, tail, |key|) == Some(e)
    ensures FirstMatch(s, Literal(key) + tail, 0) == Some((0, e))
  {
    LiteralMatch(s, key, tail, 0);
    assert s[0..|key|] == key;
  }

  /** The field after a key with its only `=` at its end is the rest of
      the text, when the rest holds no `=` and has no whitespace at its
      ends. */
  lemma KeyThenField(m: string, key: string, v: string)
    requires KeyShape(key) && |m| > |key| && m[..|key|] == key && m[|key|..] == v
    requires NoChar(v, '=') && !IsWhitespace(v[0]) && !IsWhitespace(v[|v| - 1])
    ensures |Split(m, "=")| >= 2 && Trim(Split(m, "=")[1]) == v
  {
    SplitKey(m, key);
    assert !Contains(v, "=") by {
      forall j | 0 <= j <= |v| ensures !OccursAt(v, "=", j) {
        OccursAtChar(v, '=', j);
      }
    }
    SplitNoSeparator(v, "=");
    TrimWhole(v);
  }

  /** `trim()` leaves a text without whitespace at either end alone. */
  lemma TrimWhole(t: string)
    requires |t| > 0 && !IsWhitespace(t[0]) && !IsWhitespace(t[|t| - 1])
    ensures Trim(t) == t
  {
    assert ContentStart(t, 0) == 0;
    assert ContentEnd(t, |t|, 0) == |t|;
  }

  /** `SNOOTY_PARSER_VERSION=0.15.2` in a Dockerfile line. */
  lemma ReleaseVersion(rest: string)
    requires rest == [] || !IsDigit(rest[0])
    ensures GetParserVersion(Key + "0.15.2" + rest) == Ok("0.15.2")
  {
    assert AllDigits("0") && AllDigits("15") && AllDigits("2");
    assert Separator('.');
    assert "0" + ['.'] + "15" + ['.'] + "2" == "0.15.2";
    VersionRead("0.15.2", "0", '.', "15", '.', "2", rest);
  }

  /** The dots of the expression are not escaped: any separator will do. */
  lemma LetterSeparators(rest: string)
    requires rest == [] || !IsDigit(rest[0])
    ensures GetParserVersion(Key + "1x2y" + rest) == Ok("1x2y")
  {
    assert AllDigits("1") && AllDigits("2") && AllDigits("");
    assert Separator('x') && Separator('y');
    assert "1" + ['x'] + "2" + ['y'] + "" == "1x2y";
    VersionRead("1x2y", "1", 'x', "2", 'y', "", rest);
  }

  /** Two numbers and nothing after the second separator's place do not
      match: `SNOOTY_PARSER_VERSION=1.2` at the end of the text is an error. */
  lemma TwoNumbersOnly(d1: char, p: char, d2: char)
    requires IsDigit(d1) && IsDigit(d2) && Separator(p)
    ensures GetParserVersion(Key + [d1, p, d2]) == Err(NotFound)
  {
    var s := Key + [d1, p, d2];
    KeyThenVersion([d1, p, d2], []);
    assert s[22] == d1 && s[23] == p && s[24] == d2;
    NoMatchInShort(s);
  }

  /** The expression matches nowhere in the key and a two-number version. */
  lemma NoMatchInShort(s: string)
    requires |s| == 25 && IsDigit(s[22]) && Separator(s[23]) && IsDigit(s[24])
    ensures forall k :: 0 <= k <= |s| ==> MatchFrom(s, Pattern(), k).None?
  {
    KeyName();
    forall k | 0 <= k <= |s| ensures MatchFrom(s, Pattern(), k).None? {
      NoMatchAt(s, Key, k);
    }
  }

  /** One start of that text: at 0 the tail fails, and later the key's `=`
      would have to sit on a digit or a separator. */
  lemma NoMatchAt(s: string, key: string, k: nat)
    requires KeyShape(key) && |key| == 22 && k <= |s|
    requires |s| == 25 && IsDigit(s[22]) && Separator(s[23]) && IsDigit(s[24])
    ensures MatchFrom(s, Literal(key) + [Digits, AnyChar, Digits, AnyChar, OptDigits], k).None?
  {
    LiteralMatch(s, key, [Digits, AnyChar, Digits, AnyChar, OptDigits], k);
    if k == 0 {
      ShortTail(s);
    } else if k + 22 <= |s| {
      assert s[k..k + 22][21] == s[k + 21];
    }
  }

  /** After the key, a digit, a separator and a digit ending the text leave
      the second separator nothing to match. */
  lemma ShortTail(s: string)
    requires |s| == 25 && IsDigit(s[22]) && !IsDigit(s[23]) && !IsLineTerminator(s[23]) && IsDigit(s[24])
    ensures MatchFrom(s, [Digits, AnyChar, Digits, AnyChar, OptDigits], 22).None?
  {
    assert DigitRun(s, 22) == 1 by { DigitRunAt(s, 22, 23); }
    assert DigitRun(s, 24) == 1 by { DigitRunAt(s, 24, 25); }
    assert MatchFrom(s, [AnyChar, OptDigits], 25).None?;
    assert [AnyChar, Digits, AnyChar, OptDigits][1..] == [Digits, AnyChar, OptDigits];
    assert [Digits, AnyChar, OptDigits][1..] == [AnyChar, OptDigits];
    assert [Digits, AnyChar, Digits, AnyChar, OptDigits][1..] == [AnyChar, Digits, AnyChar, OptDigits];
    assert MatchFrom(s, [Digits, AnyChar, OptDigits], 24).None?;
    assert MatchFrom(s, [AnyChar, Digits, AnyChar, OptDigits], 23).None?;
  }
}
