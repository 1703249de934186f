/**
  The part of `java.lang.String.split(String regex)` that `MethodParser.parse` relies on:
  splitting on the one-character, non-meta pattern `" "` with the implicit limit 0.

  Java's algorithm, for such a pattern, is:
  - when the separator does not occur at all, the result is `{ this }`, even for `""`;
  - otherwise the string is cut at every occurrence (leading empty pieces are kept) and,
    because the limit is 0, every trailing empty piece is removed, which can leave nothing.
*/
module JavaSplit {

  /** Every character of `s` is `c`; the empty string qualifies. */
  predicate AllChars(s: string, c: char) {
    forall i :: 0 <= i < |s| ==> s[i] == c
  }

  /** `n` copies of `c`. */
  function Repeat(c: char, n: nat): (s: string)
    ensures |s| == n && AllChars(s, c)
  {
    if n == 0 then "" else Repeat(c, n - 1) + [c]
  }

  /** Glues `parts` together with one `c` between neighbours. */
  function Join(parts: seq<string>, c: char): string
    requires |parts| > 0
  {
    if |parts| == 1 then parts[0] else parts[0] + [c] + Join(parts[1..], c)
  }

  /** The text before the first `c`, or all of `s` when `c` does not occur. */
  function Before(s: string, c: char): (t: string)
    ensures c !in t
    ensures |t| <= |s| && t == s[..|t|]
    ensures |t| < |s| ==> s[|t|] == c
  {
    if |s| == 0 || s[0] == c then "" else [s[0]] + Before(s[1..], c)
  }

  /** The text after the first `c`, or `""` when `c` does not occur. */
  function After(s: string, c: char): (t: string)
    ensures c in s ==> s == Before(s, c) + [c] + t
    ensures c !in s ==> t == ""
  {
    if |s| == 0 then "" else if s[0] == c then s[1..] else After(s[1..], c)
  }

  /** Cutting `a + [c] + t` at its first `c` gives back `a` and `t` when `a` has no `c`. */
  lemma {:induction false} BeforeAfterOfJoin(a: string, t: string, c: char)
    requires c !in a
    ensures Before(a + [c] + t, c) == a
    ensures After(a + [c] + t, c) == t
  {
    if |a| > 0 {
      assert (a + [c] + t)[1..] == a[1..] + [c] + t;
      BeforeAfterOfJoin(a[1..], t, c);
      assert [a[0]] + a[1..] == a;
    } else {
      assert (a + [c] + t)[1..] == t;
    }
  }

  /** Text appended after the first `c` does not move the cut. */
  lemma {:induction false} BeforeAfterOfAppend(s: string, t: string, c: char)
    requires c in s
    ensures Before(s + t, c) == Before(s, c)
    ensures After(s + t, c) == After(s, c) + t
  {
    assert s + t == Before(s, c) + [c] + (After(s, c) + t);
    BeforeAfterOfJoin(Before(s, c), After(s, c) + t, c);
  }

  /**
    The raw regex split: `s` cut at every occurrence of `c`, every piece kept.
    Its pieces are separator-free and glue back to `s`.
  */
  function SplitOn(s: string, c: char): (parts: seq<string>)
    ensures |parts| > 0
    ensures forall i :: 0 <= i < |parts| ==> c !in parts[i]
    ensures Join(parts, c) == s
  {
    if |s| == 0 then [""]
    else
      var rest := SplitOn(s[1..], c);
      if s[0] == c then
        assert ([""] + rest)[1..] == rest;
        [""] + rest
      else
        var parts := [[s[0]] + rest[0]] + rest[1..];
        assert parts[1..] == rest[1..];
        assert Join(parts, c) == s by {
          if |rest| > 1 {
            assert Join(rest, c) == rest[0] + [c] + Join(rest[1..], c);
            assert Join(parts, c) == [s[0]] + rest[0] + [c] + Join(rest[1..], c);
          }
          assert s == [s[0]] + s[1..];
        }
        parts
  }

  /** Java's limit-0 clean-up: drop every trailing empty piece. */
  function DropTrailingEmpty(xs: seq<string>): (r: seq<string>)
    ensures |r| <= |xs| && r == xs[..|r|]
    ensures |r| > 0 ==> r[|r| - 1] != ""
    ensures forall i :: |r| <= i < |xs| ==> xs[i] == ""
  {
    if |xs| > 0 && xs[|xs| - 1] == "" then DropTrailingEmpty(xs[..|xs| - 1]) else xs
  }

  /** `s.split(" ")` in Java. */
  function JavaSplitSpace(s: string): (tokens: seq<string>)
    ensures forall i :: 0 <= i < |tokens| ==> ' ' !in tokens[i]
    ensures tokens == [] <==> |s| > 0 && AllChars(s, ' ')
    ensures |tokens| > 0 && s != "" ==> tokens[|tokens| - 1] != ""
  {
    if ' ' !in s then
      assert |s| > 0 ==> s[0] != ' ';
      [s]
    else
      var tokens := DropTrailingEmpty(SplitOn(s, ' '));
      assert tokens == [] ==> AllChars(s, ' ') by {
        if tokens == [] { AllEmptyJoinsToSeparators(SplitOn(s, ' '), ' '); }
      }
      assert AllChars(s, ' ') ==> tokens == [] by {
        if AllChars(s, ' ') { SplitOfSeparatorsIsEmpty(s, ' '); }
      }
      tokens
  }

  /** Pieces that are all empty glue to nothing but separators. */
  lemma {:induction false} AllEmptyJoinsToSeparators(parts: seq<string>, c: char)
    requires |parts| > 0
    requires forall i :: 0 <= i < |parts| ==> parts[i] == ""
    ensures AllChars(Join(parts, c), c)
  {
    if |parts| > 1 {
      AllEmptyJoinsToSeparators(parts[1..], c);
    }
  }

  /** A string made only of separators splits into empty pieces only. */
  lemma {:induction false} SplitOfSeparatorsIsEmpty(s: string, c: char)
    requires AllChars(s, c)
    ensures forall i :: 0 <= i < |SplitOn(s, c)| ==> SplitOn(s, c)[i] == ""
  {
    if |s| > 0 {
      SplitOfSeparatorsIsEmpty(s[1..], c);
    }
  }

  /** The first raw piece is the text before the first separator. */
  lemma {:induction false} SplitHeadIsBefore(s: string, c: char)
    ensures SplitOn(s, c)[0] == Before(s, c)
  {
    if |s| > 0 && s[0] != c {
      SplitHeadIsBefore(s[1..], c);
    }
  }

  /** After the first raw piece come exactly the raw pieces of the text after the first separator. */
  lemma {:induction false} SplitTailIsSplitOfAfter(s: string, c: char)
    requires c in s
    ensures |SplitOn(s, c)| >= 2
    ensures SplitOn(s, c)[1..] == SplitOn(After(s, c), c)
  {
    if s[0] != c {
      assert c in s[1..] by {
        var k :| 0 <= k < |s| && s[k] == c;
        assert s[1..][k - 1] == c;
      }
      SplitTailIsSplitOfAfter(s[1..], c);
    }
  }

  /** Gluing a separator-free head, a separator and a tail splits back into the head and the tail's pieces. */
  lemma {:induction false} SplitOfJoinStep(a: string, t: string, c: char)
    requires c !in a
    ensures SplitOn(a + [c] + t, c) == [a] + SplitOn(t, c)
  {
    if |a| == 0 {
      assert (a + [c] + t)[1..] == t;
    } else {
      assert (a + [c] + t)[1..] == a[1..] + [c] + t;
      SplitOfJoinStep(a[1..], t, c);
      assert [a[0]] + a[1..] == a;
    }
  }

  /** A separator-free string is a single piece. */
  lemma {:induction false} SplitOfPlain(a: string, c: char)
    requires c !in a
    ensures SplitOn(a, c) == [a]
  {
    if |a| > 0 {
      SplitOfPlain(a[1..], c);
      assert [a[0]] + a[1..] == a;
    }
  }

  /** `SplitOn` undoes `Join` when no piece holds the separator (the other half of the round trip). */
  lemma {:induction false} SplitJoinRoundTrip(parts: seq<string>, c: char)
    requires |parts| > 0
    requires forall i :: 0 <= i < |parts| ==> c !in parts[i]
    ensures SplitOn(Join(parts, c), c) == parts
  {
    if |parts| == 1 {
      SplitOfPlain(parts[0], c);
    } else {
      SplitJoinRoundTrip(parts[1..], c);
      SplitOfJoinStep(parts[0], Join(parts[1..], c), c);
      assert [parts[0]] + parts[1..] == parts;
    }
  }

  /** Appending one more piece to a join adds a separator and that piece. */
  lemma {:induction false} JoinSnoc(parts: seq<string>, p: string, c: char)
    requires |parts| > 0
    ensures Join(parts + [p], c) == Join(parts, c) + [c] + p
  {
    if |parts| == 1 {
      assert (parts + [p])[1..] == [p];
    } else {
      assert (parts + [p])[1..] == parts[1..] + [p];
      JoinSnoc(parts[1..], p, c);
    }
  }

  /** Cutting empty pieces off the end of a join removes exactly one trailing separator per piece. */
  lemma {:induction false} JoinDropsTrailingSeparators(xs: seq<string>, n: nat, c: char)
    requires 0 < n <= |xs|
    requires forall i :: n <= i < |xs| ==> xs[i] == ""
    ensures Join(xs, c) == Join(xs[..n], c) + Repeat(c, |xs| - n)
  {
    if n < |xs| {
      var m := |xs| - 1;
      assert xs == xs[..m] + [xs[m]];
      JoinSnoc(xs[..m], xs[m], c);
      assert xs[..m][..n] == xs[..n];
      JoinDropsTrailingSeparators(xs[..m], n, c);
    } else {
      assert xs[..n] == xs;
    }
  }

  /**
    What Java's documentation promises of `s.split(" ")`: gluing the tokens back with single
    spaces gives `s` without some trailing spaces; with the last-token fact of `JavaSplitSpace`
    and `SplitJoinRoundTrip` this pins the tokens down uniquely.
  */
  lemma JavaSplitSpaceRejoins(s: string)
    ensures var tokens := JavaSplitSpace(s);
      |tokens| > 0 ==>
        var j := Join(tokens, ' ');
        |j| <= |s| && s == j + Repeat(' ', |s| - |j|)
  {
    var tokens := JavaSplitSpace(s);
    if ' ' in s && |tokens| > 0 {
      var xs := SplitOn(s, ' ');
      JoinDropsTrailingSeparators(xs, |tokens|, ' ');
      assert xs[..|tokens|] == tokens;
    }
  }

  /** Apart from `""`, Java's special case for a missing separator agrees with the general rule. */
  lemma JavaSplitSpaceGeneralRule(s: string)
    requires s != ""
    ensures JavaSplitSpace(s) == DropTrailingEmpty(SplitOn(s, ' '))
  {
    if ' ' !in s {
      SplitOfPlain(s, ' ');
    }
  }
}
