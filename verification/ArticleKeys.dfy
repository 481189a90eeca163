/** `article_key`: the first two runs of digits of a text, dotted, as charges in the news are keyed. */
module ArticleKeys {
  import opened Digits
  import opened Patterns

  /** The run of digits a text starts with. */
  function FirstRun(s: string): (run: string)
    ensures AllDigits(run) && run <= s && (s != [] && IsDigit(s[0]) ==> run != [])
  {
    DigitsAreIn(s[..RunOf(s, Digit)]);
    s[..RunOf(s, Digit)]
  }

  /** `re.findall(r"\d+", s)` */
  function Runs(s: string): (runs: seq<string>)
    ensures forall i :: 0 <= i < |runs| ==> runs[i] != [] && AllDigits(runs[i])
    decreases |s|
  {
    if s == [] then []
    else if IsDigit(s[0]) then [FirstRun(s)] + Runs(s[|FirstRun(s)|..])
    else Runs(s[1..])
  }

  function ArticleKey(text: string): string {
    var runs := Runs(text);
    if runs == [] then "" else if |runs| == 1 then runs[0] else runs[0] + "." + runs[1]
  }

  // What the key is

  lemma {:induction false} RunsSkip(before: string, s: string)
    requires NoDigits(before)
    ensures Runs(before + s) == Runs(s)
  {
    if before != [] {
      assert (before + s)[1..] == before[1..] + s;
      RunsSkip(before[1..], s);
    } else {
      assert before + s == s;
    }
  }

  lemma NumberIsFirstRun(number: string, rest: string)
    requires AllDigits(number) && (rest == [] || !IsDigit(rest[0]))
    ensures FirstRun(number + rest) == number
  {
    DigitsAreIn(number);
    RunOfCovers(number, rest, Digit);
  }

  /** A text is words around numbers: its runs are those numbers, in order. */
  lemma RunsOfNumberThenRest(before: string, number: string, rest: string)
    requires NoDigits(before) && number != [] && AllDigits(number)
    requires rest == [] || !IsDigit(rest[0])
    ensures Runs(before + number + rest) == [number] + Runs(rest)
  {
    assert before + number + rest == before + (number + rest);
    RunsSkip(before, number + rest);
    NumberIsFirstRun(number, rest);
    assert (number + rest)[|number|..] == rest;
  }

  /** A text without a number has no key, and only such a text. */
  lemma {:induction false} KeyIsEmptyIff(text: string)
    ensures ArticleKey(text) == "" <==> NoDigits(text)
  {
    if text != [] {
      if IsDigit(text[0]) {
        assert !NoDigits(text);
      } else {
        KeyIsEmptyIff(text[1..]);
        assert forall i :: 0 < i < |text| ==> text[i] == text[1..][i - 1];
      }
    }
  }

  /** An article without a part is keyed by its number, whatever words stand around it. */
  lemma ArticleAlone(before: string, number: string, after: string)
    requires NoDigits(before) && number != [] && AllDigits(number) && NoDigits(after)
    ensures ArticleKey(before + number + after) == number
  {
    RunsOfNumberThenRest(before, number, after);
    RunsSkip(after, "");
    assert after + "" == after;
  }

  /**
   An article with a part is keyed by both, whatever words stand between and around them, and
   whatever follows: a Code's name is not part of the key, nor is a third number.
   */
  lemma ArticleWithPart(before: string, number: string, between: string, part: string, after: string)
    requires NoDigits(before) && number != [] && AllDigits(number)
    requires between != [] && NoDigits(between) && part != [] && AllDigits(part)
    requires after == [] || !IsDigit(after[0])
    ensures ArticleKey(before + number + between + part + after) == number + "." + part
  {
    var rest := between + part + after;
    assert before + number + between + part + after == before + number + rest;
    RunsOfNumberThenRest(before, number, rest);
    RunsOfNumberThenRest(between, part, after);
  }

  /** A key is its own key, so a charge as the news writes it («205.2») meets the article of the list. */
  lemma KeyOfKey(text: string)
    ensures ArticleKey(ArticleKey(text)) == ArticleKey(text)
  {
    var runs := Runs(text);
    if |runs| == 1 {
      ArticleAlone("", runs[0], "");
      assert "" + runs[0] + "" == runs[0];
    } else if |runs| > 1 {
      ArticleWithPart("", runs[0], ".", runs[1], "");
      assert "" + runs[0] + "." + runs[1] + "" == runs[0] + "." + runs[1];
    }
  }
}
