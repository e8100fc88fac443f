// The bundled `escape-string-regexp` package: every character that has a
// meaning in a regular expression gets a backslash in front of it.
module EscapeRegexp {
  import opened Wrappers

  /** `/[|\\{}()[\]^$+*?.]/`: the characters the package escapes. */
  predicate IsSpecial(c: char)
  {
    c in {'|', '\\', '{', '}', '(', ')', '[', ']', '^', '$', '+', '*', '?', '.'}
  }

  function CountSpecial(s: string): nat
  {
    if s == [] then 0 else (if IsSpecial(s[0]) then 1 else 0) + CountSpecial(s[1..])
  }

  /** `str.replace(matchOperatorsRe, '\\$&')`. */
  function Escape(s: string): (r: string)
    ensures |r| == |s| + CountSpecial(s)
  {
    if s == [] then []
    else (if IsSpecial(s[0]) then ['\\', s[0]] else [s[0]]) + Escape(s[1..])
  }

  /** The text a regular expression written as `r` matches literally: every
      special character comes right after a backslash, and a backslash
      escapes the character that follows it. */
  function Unescape(r: string): (s: Option<string>)
    decreases |r|
  {
    if r == [] then Some([])
    else if r[0] == '\\' then
      if |r| < 2 then None
      else match Unescape(r[2..])
        case None => None
        case Some(t) => Some([r[1]] + t)
    else if IsSpecial(r[0]) then None
    else match Unescape(r[1..])
      case None => None
      case Some(t) => Some([r[0]] + t)
  }

  /** The escaped text reads back, as a literal pattern, as the original. */
  lemma {:induction false} EscapeRoundTrip(s: string)
    ensures Unescape(Escape(s)) == Some(s)
  {
    if s != [] {
      EscapeRoundTrip(s[1..]);
      var tail := Escape(s[1..]);
      if IsSpecial(s[0]) {
        var r := ['\\', s[0]] + tail;
        assert r[2..] == tail;
      } else {
        var r := [s[0]] + tail;
        assert r[1..] == tail;
      }
      assert s == [s[0]] + s[1..];
    }
  }

  /** Text without special characters is left as it is. */
  lemma {:induction false} EscapePlain(s: string)
    requires forall k :: 0 <= k < |s| ==> !IsSpecial(s[k])
    ensures Escape(s) == s
  {
    if s != [] {
      EscapePlain(s[1..]);
      assert s == [s[0]] + s[1..];
    }
  }

  /** Escaping distributes over concatenation, so each character is
      escaped on its own. */
  lemma {:induction false} EscapeAppend(a: string, b: string)
    ensures Escape(a + b) == Escape(a) + Escape(b)
  {
    if a != [] {
      assert (a + b)[0] == a[0] && (a + b)[1..] == a[1..] + b;
      EscapeAppend(a[1..], b);
    } else {
      assert a + b == b;
    }
  }

  /** For example, `a.b*` becomes `a\.b\*`. */
  lemma Example()
    ensures Escape("a.b*") == "a\\.b\\*"
  {
    assert "a.b*"[1..] == ".b*" && ".b*"[1..] == "b*" && "b*"[1..] == "*" && "*"[1..] == [];
  }
}
