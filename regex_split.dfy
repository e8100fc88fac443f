// `s.split(re)` for a regular expression that is an alternation of plain,
// non-empty literal strings (`/\/\/|\//`, `/:\/\/|:|\/\?|\/|\?/`): at each
// position the first alternative that occurs there is the separator.
module RegexSplit {
  import opened JsString

  predicate NonEmptyAlts(alts: seq<string>)
  {
    forall k :: 0 <= k < |alts| ==> |alts[k]| > 0
  }

  /** The index of the first alternative `s` starts with, or `|alts|`. */
  function FirstAlt(s: string, alts: seq<string>): (k: nat)
    ensures k <= |alts|
    ensures k < |alts| ==> alts[k] <= s
    ensures forall j :: 0 <= j < k ==> !(alts[j] <= s)
  {
    if alts == [] then 0
    else if alts[0] <= s then 0
    else 1 + FirstAlt(s, alts[1..])
  }

  /** The pieces of `s`, the current piece having collected `cur` so far. */
  function SplitFrom(s: string, alts: seq<string>, cur: string): (r: seq<string>)
    requires NonEmptyAlts(alts)
    ensures |r| >= 1
    decreases |s|
  {
    if s == [] then [cur]
    else
      var k := FirstAlt(s, alts);
      if k < |alts| then [cur] + SplitFrom(s[|alts[k]|..], alts, "")
      else SplitFrom(s[1..], alts, cur + [s[0]])
  }

  function SplitOn(s: string, alts: seq<string>): seq<string>
    requires NonEmptyAlts(alts)
  {
    SplitFrom(s, alts, "")
  }

  /** `c` is one of the alternatives on its own. */
  predicate SingleAlt(alts: seq<string>, c: char)
  {
    exists k :: 0 <= k < |alts| && alts[k] == [c]
  }

  /** No alternative starts with a character of `x`. */
  predicate NoAltStart(x: string, alts: seq<string>)
  {
    forall i, k :: 0 <= i < |x| && 0 <= k < |alts| && |alts[k]| > 0 ==> alts[k][0] != x[i]
  }

  predicate NoCharIn(parts: seq<string>, c: char)
  {
    forall k :: 0 <= k < |parts| ==> NoChar(parts[k], c)
  }

  /** A character that is an alternative by itself never survives into a
      piece. */
  lemma {:induction false} PiecesAvoid(s: string, alts: seq<string>, cur: string, c: char)
    requires NonEmptyAlts(alts) && SingleAlt(alts, c) && NoChar(cur, c)
    ensures NoCharIn(SplitFrom(s, alts, cur), c)
    decreases |s|
  {
    if s != [] {
      if s[0] == c {
        var j :| 0 <= j < |alts| && alts[j] == [c];
        assert alts[j] <= s;
      }
      var k := FirstAlt(s, alts);
      if k < |alts| {
        PiecesAvoid(s[|alts[k]|..], alts, "", c);
      } else {
        PiecesAvoid(s[1..], alts, cur + [s[0]], c);
      }
    }
  }

  /** When no alternative starts with the first character, none is found. */
  lemma {:induction false} FirstAltNone(s: string, alts: seq<string>)
    requires NonEmptyAlts(alts) && |s| > 0
    requires forall k :: 0 <= k < |alts| ==> alts[k][0] != s[0]
    ensures FirstAlt(s, alts) == |alts|
  {
    if alts != [] {
      assert !(alts[0] <= s) by {
        assert alts[0][0] != s[0];
      }
      FirstAltNone(s, alts[1..]);
    }
  }

  /** A run of characters that starts no alternative joins the current piece. */
  lemma {:induction false} SkipPlain(x: string, rest: string, alts: seq<string>, cur: string)
    requires NonEmptyAlts(alts) && NoAltStart(x, alts)
    ensures SplitFrom(x + rest, alts, cur) == SplitFrom(rest, alts, cur + x)
    decreases |x|
  {
    if x == [] {
      assert x + rest == rest && cur + x == cur;
    } else {
      var s := x + rest;
      assert s[0] == x[0];
      FirstAltNone(s, alts);
      assert s[1..] == x[1..] + rest;
      assert SplitFrom(s, alts, cur) == SplitFrom(x[1..] + rest, alts, cur + [x[0]]);
      assert NoAltStart(x[1..], alts) by {
        forall i, k | 0 <= i < |x[1..]| && 0 <= k < |alts| && |alts[k]| > 0 ensures alts[k][0] != x[1..][i] {
          assert x[1..][i] == x[i + 1];
        }
      }
      SkipPlain(x[1..], rest, alts, cur + [x[0]]);
      assert cur + [x[0]] + x[1..] == cur + x;
    }
  }

  /** Joining pieces free of `c` with a separator free of `c` gives a string
      free of `c`. */
  lemma {:induction false} JoinAvoids(parts: seq<string>, sep: string, c: char)
    requires NoCharIn(parts, c) && NoChar(sep, c)
    ensures NoChar(Join(parts, sep), c)
    decreases |parts|
  {
    if |parts| > 1 {
      JoinAvoids(parts[1..], sep, c);
      var j := Join(parts[1..], sep);
      assert Join(parts, sep) == parts[0] + sep + j;
      forall k | 0 <= k < |parts[0] + sep + j| ensures (parts[0] + sep + j)[k] != c {
        if k < |parts[0]| {
        } else if k < |parts[0]| + |sep| {
          assert (parts[0] + sep + j)[k] == sep[k - |parts[0]|];
        } else {
          assert (parts[0] + sep + j)[k] == j[k - |parts[0]| - |sep|];
        }
      }
    }
  }

  /** Splitting on the alternatives and joining with `sep` removes every
      character that is an alternative by itself. */
  lemma SplitJoinAvoids(s: string, alts: seq<string>, sep: string, c: char)
    requires NonEmptyAlts(alts) && SingleAlt(alts, c) && NoChar(sep, c)
    ensures NoChar(Join(SplitOn(s, alts), sep), c)
  {
    PiecesAvoid(s, alts, "", c);
    JoinAvoids(SplitOn(s, alts), sep, c);
  }

  /** Two plain runs around the alternative that is found first at the joint
      split into exactly those two runs. */
  lemma SplitTwo(x: string, k: nat, y: string, alts: seq<string>)
    requires NonEmptyAlts(alts) && k < |alts|
    requires NoAltStart(x, alts) && NoAltStart(y, alts)
    requires FirstAlt(alts[k] + y, alts) == k
    ensures SplitOn(x + alts[k] + y, alts) == [x, y]
  {
    var t := alts[k] + y;
    assert x + alts[k] + y == x + t;
    SkipPlain(x, t, alts, "");
    assert "" + x == x;
    AfterAlt(k, y, alts, x);
    OnlyPlain(y, alts);
  }

  /** The alternative found first ends the current piece. */
  lemma AfterAlt(k: nat, y: string, alts: seq<string>, cur: string)
    requires NonEmptyAlts(alts) && k < |alts|
    requires FirstAlt(alts[k] + y, alts) == k
    ensures SplitFrom(alts[k] + y, alts, cur) == [cur] + SplitFrom(y, alts, "")
  {
    var t := alts[k] + y;
    assert t[|alts[k]|..] == y;
  }

  /** A plain run is one piece. */
  lemma OnlyPlain(y: string, alts: seq<string>)
    requires NonEmptyAlts(alts) && NoAltStart(y, alts)
    ensures SplitFrom(y, alts, "") == [y]
  {
    SkipPlain(y, "", alts, "");
    assert y + "" == y;
    assert "" + y == y;
  }
}
