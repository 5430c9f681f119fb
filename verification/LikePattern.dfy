// SQL LIKE with '~' as escape character, and the store's escaping of user text.
module LikePattern {
  import opened Text

  // LIKE matching: '%' any text, '_' one character, '~' takes the next character literally.
  predicate Matches(pattern: string, s: string)
    decreases |pattern|, |s|
  {
    if pattern == "" then s == ""
    else if pattern[0] == '%' then Matches(pattern[1..], s) || (s != "" && Matches(pattern, s[1..]))
    else if pattern[0] == '_' then s != "" && Matches(pattern[1..], s[1..])
    else if pattern[0] == '~' then
      |pattern| >= 2 && s != "" && s[0] == pattern[1] && Matches(pattern[2..], s[1..])
    else s != "" && s[0] == pattern[0] && Matches(pattern[1..], s[1..])
  }

  // strings.ReplaceAll for a one-character search text.
  function ReplaceAll(s: string, from: char, into: string): string {
    if s == "" then "" else (if s[0] == from then into else [s[0]]) + ReplaceAll(s[1..], from, into)
  }

  predicate Special(c: char) {
    c == '~' || c == '%' || c == '_'
  }

  // The reference form: one pass over the characters.
  function Escaped(v: string): string {
    if v == "" then "" else (if Special(v[0]) then ['~', v[0]] else [v[0]]) + Escaped(v[1..])
  }

  lemma {:induction false} ReplaceAllAppend(s: string, t: string, from: char, into: string)
    ensures ReplaceAll(s + t, from, into) == ReplaceAll(s, from, into) + ReplaceAll(t, from, into)
  {
    if s == "" {
      assert s + t == t;
    } else {
      assert (s + t)[1..] == s[1..] + t;
      ReplaceAllAppend(s[1..], t, from, into);
    }
  }

  // Replacing one character after the other never escapes an escape twice.
  lemma {:induction false} SequentialReplacementIsOnePass(v: string)
    ensures ReplaceAll(ReplaceAll(ReplaceAll(v, '~', "~~"), '%', "~%"), '_', "~_") == Escaped(v)
  {
    if v != "" {
      SequentialReplacementIsOnePass(v[1..]);
      var head := if v[0] == '~' then "~~" else [v[0]];
      var tail := ReplaceAll(v[1..], '~', "~~");
      ReplaceAllAppend(head, tail, '%', "~%");
      ReplaceAllAppend(ReplaceAll(head, '%', "~%"), ReplaceAll(tail, '%', "~%"), '_', "~_");
      assert ReplaceAll("", '%', "~%") == "" && ReplaceAll("", '_', "~_") == "";
      assert head == [head[0]] + head[1..];
      if v[0] == '~' {
        assert head[1..] == "~";
        assert "~"[1..] == "";
        assert ReplaceAll("~", '%', "~%") == "~" && ReplaceAll("~", '_', "~_") == "~";
      } else if v[0] == '%' {
        assert "~%"[1..] == "%" && "%"[1..] == "";
        assert ReplaceAll("%", '_', "~_") == "%";
      }
    }
  }

  method EscapeSQLLike(input: string) returns (value: string)
    ensures value == Escaped(input)
  {
    value := ReplaceAll(input, '~', "~~");
    value := ReplaceAll(value, '%', "~%");
    value := ReplaceAll(value, '_', "~_");
    SequentialReplacementIsOnePass(input);
  }

  // Escaped text matches itself and nothing else; the rest of the pattern sees the rest of the text.
  lemma {:induction false} EscapedMatchesLiterally(v: string, rest: string, s: string)
    ensures Matches(Escaped(v) + rest, s) <==> HasPrefix(s, v) && Matches(rest, s[|v|..])
  {
    if v == "" {
      assert Escaped(v) + rest == rest && s[0..] == s;
    } else {
      var p := Escaped(v) + rest;
      var tail := Escaped(v[1..]) + rest;
      if Special(v[0]) {
        assert p == ['~', v[0]] + tail;
        assert p[2..] == tail;
      } else {
        assert p == [v[0]] + tail;
        assert p[1..] == tail;
      }
      if s != "" {
        EscapedMatchesLiterally(v[1..], rest, s[1..]);
        PrefixStep(s, v);
      }
    }
  }

  lemma {:induction false} PrefixStep(s: string, v: string)
    requires s != "" && v != ""
    ensures HasPrefix(s, v) <==> s[0] == v[0] && HasPrefix(s[1..], v[1..])
    ensures |v| <= |s| ==> s[1..][|v[1..]|..] == s[|v|..]
  {
    assert v == [v[0]] + v[1..];
    if |v| <= |s| {
      assert s[..|v|] == [s[0]] + s[1..|v|];
      assert s[1..][..|v| - 1] == s[1..|v|];
    }
  }

  lemma {:induction false} AnyTextMatchesPercent(s: string)
    ensures Matches("%", s)
  {
    assert "%"[1..] == "";
    if s != "" {
      AnyTextMatchesPercent(s[1..]);
    }
  }

  lemma {:induction false} LeadingPercent(p: string, s: string)
    ensures Matches("%" + p, s) <==> exists k :: 0 <= k <= |s| && Matches(p, s[k..])
  {
    assert ("%" + p)[1..] == p;
    if s == "" {
      assert s[0..] == s;
    } else {
      LeadingPercent(p, s[1..]);
      if Matches(p, s) {
        assert s[0..] == s;
      }
      if k :| 0 <= k <= |s| && Matches(p, s[k..]) {
        if k == 0 {
          assert s[0..] == s;
        } else {
          assert s[1..][k - 1..] == s[k..];
        }
      }
      if k :| 0 <= k <= |s[1..]| && Matches(p, s[1..][k..]) {
        assert s[1..][k..] == s[k + 1..];
      }
    }
  }

  // "%" + escaped + "%" is exactly "contains".
  lemma {:induction false} ContainsPattern(v: string, s: string)
    ensures Matches("%" + Escaped(v) + "%", s) <==> Contains(s, v)
  {
    var p := Escaped(v) + "%";
    assert "%" + Escaped(v) + "%" == "%" + p;
    LeadingPercent(p, s);
    forall k | 0 <= k <= |s|
      ensures Matches(p, s[k..]) <==> HasPrefix(s[k..], v)
    {
      EscapedMatchesLiterally(v, "%", s[k..]);
      if HasPrefix(s[k..], v) {
        AnyTextMatchesPercent(s[k..][|v|..]);
      }
    }
  }

  // escaped + "%" is exactly "starts with".
  lemma {:induction false} PrefixPattern(v: string, s: string)
    ensures Matches(Escaped(v) + "%", s) <==> HasPrefix(s, v)
  {
    EscapedMatchesLiterally(v, "%", s);
    if HasPrefix(s, v) {
      AnyTextMatchesPercent(s[|v|..]);
    }
  }
}
