/**
  `MethodParser.parse` of the line protocol: a request line becomes a method token and a value
  token, or nothing (Java's `null`) when the split leaves no token at all.
*/
module MethodParser {
  import opened Wrappers
  import opened JavaSplit

  /** `MethodParser.MethodAndValue`: the method token (Java's `method` field) and its argument. */
  datatype MethodAndValue = MethodAndValue(methodName: string, value: string)

  /**
    `parse(message)`: split on single spaces the way Java does, then take the first token as the
    method and the second, if any, as the value; `None` stands for the `null` returned when the
    split is empty, which happens exactly for a non-empty line of spaces.
  */
  function Parse(message: string): (r: Option<MethodAndValue>)
    ensures r.None? <==> |message| > 0 && AllChars(message, ' ')
    ensures r.Some? ==> ' ' !in r.value.methodName && ' ' !in r.value.value
  {
    var messages := JavaSplitSpace(message);
    if |messages| > 0 then
      if |messages| == 1 then Some(MethodAndValue(messages[0], ""))
      else Some(MethodAndValue(messages[0], messages[1]))
    else None
  }

  /**
    The same rule stated without any split: the method is the text before the first space, the
    value is the text between the first and the second space (or to the end of the line).
  */
  function ParseReference(message: string): Option<MethodAndValue> {
    if |message| > 0 && AllChars(message, ' ') then None
    else
      var rest := After(message, ' ');
      Some(MethodAndValue(Before(message, ' '), Before(rest, ' ')))
  }

  /** `Parse` and the split-free reading agree on every line. */
  lemma ParseMatchesReference(message: string)
    ensures Parse(message) == ParseReference(message)
  {
    if ' ' in message {
      var xs := SplitOn(message, ' ');
      SplitHeadIsBefore(message, ' ');
      SplitTailIsSplitOfAfter(message, ' ');
      SplitHeadIsBefore(After(message, ' '), ' ');
      assert xs[1] == xs[1..][0];
      var tokens := DropTrailingEmpty(xs);
      assert JavaSplitSpace(message) == tokens;
      if |tokens| == 1 {
        assert xs[1] == "";
      } else if |tokens| > 1 {
        assert tokens[1] == xs[1];
      }
    } else {
      assert Before(message, ' ') == message;
      assert Before("", ' ') == "";
    }
  }

  /** The method is always a prefix of the line; a leading space makes it empty. */
  lemma ParseMethodIsPrefix(message: string)
    requires Parse(message).Some?
    ensures var m := Parse(message).value.methodName;
      |m| <= |message| && m == message[..|m|]
    ensures |message| > 0 && message[0] == ' ' ==> Parse(message).value.methodName == ""
  {
    ParseMatchesReference(message);
  }

  /** A line without spaces is all method and no value; this includes the empty line. */
  lemma ParseSingleToken(m: string)
    requires ' ' !in m
    ensures Parse(m) == Some(MethodAndValue(m, ""))
  {
    ParseMatchesReference(m);
  }

  /** Two space-free tokens joined by one space parse back into those tokens, whatever their alphabet. */
  lemma ParseMethodAndValue(m: string, v: string)
    requires ' ' !in m && ' ' !in v
    requires m + v != ""
    ensures Parse(m + " " + v) == Some(MethodAndValue(m, v))
  {
    var s := m + " " + v;
    NotAllSpaces(m, v, s);
    ParseMatchesReference(s);
    BeforeAfterOfJoin(m, v, ' ');
    BeforeAfterOfJoin(v, "", ' ');
    assert v + [' '] + "" == v + " ";
    assert Before(v, ' ') == v;
  }

  /** Tokens after the second are discarded. */
  lemma ParseDropsExtraTokens(m: string, v: string, rest: string)
    requires ' ' !in m && ' ' !in v
    requires m + v != ""
    ensures Parse(m + " " + v + " " + rest) == Some(MethodAndValue(m, v))
  {
    var s := m + " " + v + " " + rest;
    assert s == m + [' '] + (v + [' '] + rest);
    NotAllSpaces(m, v + [' '] + rest, s);
    ParseMatchesReference(s);
    BeforeAfterOfJoin(m, v + [' '] + rest, ' ');
    BeforeAfterOfJoin(v, rest, ' ');
  }

  /** A single trailing space changes nothing, except on the empty line. */
  lemma ParseIgnoresTrailingSpace(s: string)
    requires s != ""
    ensures Parse(s + " ") == Parse(s)
  {
    var t := s + " ";
    assert AllChars(t, ' ') <==> AllChars(s, ' ') by {
      assert forall i :: 0 <= i < |s| ==> t[i] == s[i];
    }
    ParseMatchesReference(s);
    ParseMatchesReference(t);
    if ' ' in s {
      BeforeAfterOfAppend(s, " ", ' ');
    } else {
      BeforeAfterOfJoin(s, "", ' ');
      assert s + [' '] + "" == t;
    }
    BeforeIgnoresTrailingSpace(After(s, ' '));
  }

  /** `Before` does not see a space appended at the end. */
  lemma BeforeIgnoresTrailingSpace(u: string)
    ensures Before(u + " ", ' ') == Before(u, ' ')
  {
    if ' ' in u {
      BeforeAfterOfAppend(u, " ", ' ');
    } else {
      BeforeAfterOfJoin(u, "", ' ');
      assert u + [' '] + "" == u + " ";
    }
  }

  /** A line holding a space-free non-empty piece is not made of spaces only. */
  lemma NotAllSpaces(m: string, v: string, s: string)
    requires ' ' !in m
    requires m != "" || (v != "" && v[0] != ' ')
    requires s == m + [' '] + v
    ensures !AllChars(s, ' ')
  {
    if m != "" {
      assert s[0] == m[0];
    } else {
      assert s[1] == v[0];
    }
  }

  /** The non-ASCII pair of the echo module's parser test: the value is taken verbatim. */
  lemma ParseNonAsciiValue()
    ensures Parse("echo 엔에이치엔아카데미") == Some(MethodAndValue("echo", "엔에이치엔아카데미"))
  {
    assert "echo 엔에이치엔아카데미" == "echo " + "엔에이치엔아카데미";
    ParseEchoPair("엔에이치엔아카데미");
  }

  /** `"echo " + v` parses to the echo method with value `v`. */
  lemma ParseEchoPair(v: string)
    requires ' ' !in v
    ensures Parse("echo " + v) == Some(MethodAndValue("echo", v))
  {
    ParseMethodAndValue("echo", v);
    assert "echo " + v == "echo" + " " + v;
  }

  /** Only the space character separates: a tab is part of a token, so a lone tab is a method. */
  lemma ParseTabIsAToken()
    ensures Parse("\t") == Some(MethodAndValue("\t", ""))
  {
    ParseSingleToken("\t");
  }

  /**
    As written, the empty line is not "no request": Java's split returns `{ "" }` for it, so
    `parse` answers `("", "")` where the echo module's test expects `null`.
  */
  lemma ParseEmptyLineIsNotNull()
    ensures Parse("") == Some(MethodAndValue("", ""))
    ensures Parse("") != ParseIntended("")
  {
    ParseSingleToken("");
  }

  /**
    The parser the test expects: no request for a line that is empty or made of spaces only,
    and `parse`'s answer for every other line.
  */
  function ParseIntended(message: string): (r: Option<MethodAndValue>)
    ensures r.None? <==> AllChars(message, ' ')
    ensures message != "" ==> r == Parse(message)
  {
    if message == "" then None else Parse(message)
  }

  /** The corrected parser answers `null` for both lines of the echo module's empty-message test. */
  lemma ParseIntendedMeetsTests()
    ensures ParseIntended("") == None
    ensures ParseIntended("    ") == None
  {
    assert AllChars("    ", ' ');
  }
}
