/**
  How a client takes an HTTP/1.0 response apart: the head is a run of CRLF-terminated lines
  closed by an empty line, and the body is everything after it. The server's response is proved
  to read back through these functions; they have no counterpart in the server itself.
*/
module HttpResponseReader {
  import opened Wrappers

  const CRLF: string := "\r\n"
  const BlankLine: string := "\r\n\r\n"

  /** A header line as a server writes it: non-empty and free of CR and LF. */
  predicate IsPlainLine(l: string) {
    l != "" && '\r' !in l && '\n' !in l
  }

  predicate AllPlainLines(ls: seq<string>) {
    forall i :: 0 <= i < |ls| ==> IsPlainLine(ls[i])
  }

  /** Each line followed by its CRLF. */
  function Lines(ls: seq<string>): string {
    if |ls| == 0 then "" else ls[0] + CRLF + Lines(ls[1..])
  }

  /** Splits `s` at its first CRLF into the line before it and the text after it. */
  function NextLine(s: string): (r: Option<(string, string)>)
    ensures r.Some? ==> s == r.value.0 + CRLF + r.value.1
    ensures r.Some? ==> |r.value.1| < |s|
  {
    if |s| < 2 then None
    else if s[0] == '\r' && s[1] == '\n' then
      assert s == "" + CRLF + s[2..];
      Some(("", s[2..]))
    else
      match NextLine(s[1..])
      case None => None
      case Some((l, rest)) =>
        assert s == [s[0]] + s[1..];
        Some(([s[0]] + l, rest))
  }

  /**
    Reads lines up to the first empty one and returns them with the rest of the text;
    `None` when the text runs out before an empty line.
  */
  function ReadHead(s: string): (r: Option<(seq<string>, string)>)
    ensures r.Some? ==> s == Lines(r.value.0) + CRLF + r.value.1
    decreases |s|
  {
    match NextLine(s)
    case None => None
    case Some((line, rest)) =>
      if line == "" then Some(([], rest))
      else
        match ReadHead(rest)
        case None => None
        case Some((ls, body)) =>
          assert ([line] + ls)[1..] == ls;
          Some(([line] + ls, body))
  }

  /** The four characters CR LF CR LF start at position `i`. */
  predicate BlankAt(s: string, i: int) {
    0 <= i && i + 4 <= |s| && s[i..i + 4] == BlankLine
  }

  /** The first position at or after `k` where CR LF CR LF starts. */
  function FindBlankFrom(s: string, k: nat): (r: Option<nat>)
    requires k <= |s|
    ensures r.Some? ==> k <= r.value && BlankAt(s, r.value)
    ensures r.Some? ==> forall j :: k <= j < r.value ==> !BlankAt(s, j)
    ensures r.None? ==> forall j :: k <= j ==> !BlankAt(s, j)
    decreases |s| - k
  {
    if k + 4 > |s| then None
    else if BlankAt(s, k) then Some(k)
    else FindBlankFrom(s, k + 1)
  }

  /** Cuts a response after its first CR LF CR LF: the head (blank line included) and the body. */
  function SplitAtBlank(s: string): (r: Option<(string, string)>)
    ensures r.Some? ==> s == r.value.0 + r.value.1
  {
    match FindBlankFrom(s, 0)
    case None => None
    case Some(i) => Some((s[..i + 4], s[i + 4..]))
  }

  /** A plain line is found whole by `NextLine`, whatever follows its CRLF. */
  lemma {:induction false} NextLineOfPlain(l: string, t: string)
    requires '\r' !in l
    ensures NextLine(l + CRLF + t) == Some((l, t))
  {
    var s := l + CRLF + t;
    if |l| > 0 {
      assert s[1..] == l[1..] + CRLF + t;
      NextLineOfPlain(l[1..], t);
      assert [l[0]] + l[1..] == l;
    } else {
      assert s[2..] == t;
    }
  }

  /** `ReadHead` recovers the lines and the body of `Lines(ls) + CRLF + body`. */
  lemma {:induction false} ReadHeadOfLines(ls: seq<string>, body: string)
    requires AllPlainLines(ls)
    ensures ReadHead(Lines(ls) + CRLF + body) == Some((ls, body))
  {
    if |ls| == 0 {
      NextLineOfPlain("", body);
      assert Lines(ls) + CRLF + body == "" + CRLF + body;
    } else {
      var rest := Lines(ls[1..]) + CRLF + body;
      assert Lines(ls) + CRLF + body == ls[0] + CRLF + rest;
      NextLineOfPlain(ls[0], rest);
      ReadHeadOfLines(ls[1..], body);
      assert [ls[0]] + ls[1..] == ls;
    }
  }

  /** No line feed of `t` is directly followed by a carriage return. */
  predicate NoCrAfterLf(t: string) {
    forall j :: 0 <= j < |t| - 1 && t[j] == '\n' ==> t[j + 1] != '\r'
  }

  /** Inside `Lines(ls)` a line feed is never directly followed by a carriage return. */
  lemma {:induction false} LinesHaveNoCrAfterLf(ls: seq<string>)
    requires AllPlainLines(ls)
    ensures NoCrAfterLf(Lines(ls))
  {
    if |ls| > 0 {
      var t := Lines(ls);
      var l := ls[0];
      var u := Lines(ls[1..]);
      assert t == l + CRLF + u;
      LinesHaveNoCrAfterLf(ls[1..]);
      forall j | 0 <= j < |t| - 1
        ensures t[j] == '\n' ==> t[j + 1] != '\r'
      {
        if j < |l| {
          assert t[j] == l[j];
          assert IsPlainLine(l);
          assert t[j] != '\n';
        } else if j == |l| {
          assert t[j] == '\r';
        } else if j == |l| + 1 {
          assert |ls| > 1;
          var l' := ls[1];
          assert ls[1..][0] == l' && IsPlainLine(l');
          assert u == l' + CRLF + Lines(ls[2..]) by {
            assert ls[1..][1..] == ls[2..];
          }
          assert t[j + 1] == l'[0];
          assert t[j + 1] != '\r';
        } else {
          var k := j - |l| - 2;
          assert t[j] == u[k] && t[j + 1] == u[k + 1];
          assert 0 <= k < |u| - 1;
          assert u[k] == '\n' ==> u[k + 1] != '\r';
        }
      }
    }
  }

  /**
    A head of one or more plain lines closed by an empty line holds CR LF CR LF only at its
    very end, so the first one in head-plus-body is where the head ends.
  */
  lemma BlankOnlyAtEndOfHead(ls: seq<string>, body: string)
    requires |ls| > 0 && AllPlainLines(ls)
    ensures var h := Lines(ls) + CRLF;
      BlankAt(h + body, |h| - 4) && forall i :: 0 <= i < |h| - 4 ==> !BlankAt(h + body, i)
  {
    var t := Lines(ls);
    var h := t + CRLF;
    var w := h + body;
    assert |t| >= 3 by {
      assert t == ls[0] + CRLF + Lines(ls[1..]);
    }
    assert t[|t| - 2..] == CRLF by {
      LinesEndWithCrlf(ls);
    }
    assert w[|h| - 4..|h|] == BlankLine;
    LinesHaveNoCrAfterLf(ls);
    forall i | 0 <= i < |h| - 4
      ensures !BlankAt(w, i)
    {
      assert w[i + 1] == t[i + 1] && w[i + 2] == t[i + 2];
      assert t[i + 1] == '\n' ==> t[i + 2] != '\r';
      assert w[i..i + 4][1] == w[i + 1] && w[i..i + 4][2] == w[i + 2];
    }
  }

  /** A non-empty `Lines(ls)` ends with CRLF. */
  lemma {:induction false} LinesEndWithCrlf(ls: seq<string>)
    requires |ls| > 0
    ensures |Lines(ls)| >= 2 && Lines(ls)[|Lines(ls)| - 2..] == CRLF
  {
    if |ls| > 1 {
      LinesEndWithCrlf(ls[1..]);
    }
  }

  /** Cutting head-plus-body at its first CR LF CR LF gives back exactly the head and the body. */
  lemma SplitAtBlankOfHead(ls: seq<string>, body: string)
    requires |ls| > 0 && AllPlainLines(ls)
    ensures SplitAtBlank(Lines(ls) + CRLF + body) == Some((Lines(ls) + CRLF, body))
  {
    var h := Lines(ls) + CRLF;
    var w := h + body;
    BlankOnlyAtEndOfHead(ls, body);
    var r := FindBlankFrom(w, 0);
    assert BlankAt(w, |h| - 4);
    assert r.Some?;
    assert r.value >= |h| - 4;
    assert r.value <= |h| - 4;
    assert r == Some(|h| - 4);
    assert w[..|h|] == h && w[|h|..] == body;
  }
}
