/** A date column of an exported file, rewritten for the readers of dates: `_as_date`. */
module FileDates {
  import opened Wrappers
  import opened Digits
  import opened Texts
  import opened Patterns
  import opened CellDates

  const MONTH := Field(MonthLetter, 1, None)
  const SPACES := Field(Space, 1, None)
  const TWO := Field(Digit, 2, Some(2))

  function Perhaps(c: char): Field { Field(Only(c), 0, Some(1)) }

  const ENGLISH_DATE: Pattern := [MONTH, Perhaps('.'), SPACES, SHORT, Perhaps(','), SPACES, YEAR]
  const DAY_FIRST: Pattern := [SHORT, Perhaps('.'), SPACES, MONTH, Perhaps(','), SPACES, YEAR]
  const ISO_LIKE: Pattern := [YEAR, One('-'), TWO, One('-'), TWO]

  const RUSSIAN := [
    "января", "февраля", "марта", "апреля", "мая", "июня",
    "июля", "августа", "сентября", "октября", "ноября", "декабря"]

  function FoldOf(c: char): char { if c == 'ё' then 'е' else LowerOf(c) }

  function Fold(s: string): string { seq(|s|, i requires 0 <= i < |s| => FoldOf(s[i])) }

  function MonthOf(name: string): (month: Option<nat>)
    ensures month.Some? ==> 1 <= month.value <= 12
  {
    var english := MonthIn(ENGLISH, Fold(name));
    if english.Some? then english else MonthIn(RUSSIAN, Fold(name))
  }

  /** Two digits of a number below a hundred. */
  function TwoDigits(n: nat): (s: string)
    requires n < 100
    ensures |s| == 2 && AllDigits(s) && Number(s) == n
  {
    var s := [DigitOf(n / 10), DigitOf(n % 10)];
    assert s[..1] == [DigitOf(n / 10)] && s[..1][..0] == [];
    assert Number(s[..1]) == n / 10;
    s
  }

  lemma ShortIsSmall(s: string)
    requires Short(s)
    ensures Number(s) < 100
  {
    var tens := s[..|s| - 1];
    assert Number(tens) <= 9 by {
      if tens != [] { assert tens[..0] == []; }
    }
  }

  /** What a text spells: the parts of one of the two patterns, with a known month. */
  datatype Spelled = Spelled(dayFirst: bool, parts: seq<string>) {
    function Shape(): Pattern { if dayFirst then DAY_FIRST else ENGLISH_DATE }

    ghost predicate Of(text: string) { Fits(parts, Shape()) && Concat(parts) == text && MonthOf(Name()).Some? }

    function Name(): string
      requires |parts| == 7
    {
      if dayFirst then parts[3] else parts[0]
    }

    function Day(): string
      requires |parts| == 7
    {
      if dayFirst then parts[0] else parts[3]
    }
  }

  function Spelling(text: string): (found: Option<Spelled>)
    ensures found.Some? ==> |found.value.parts| == 7
  {
    var english, dayFirst := FullMatch(text, ENGLISH_DATE), FullMatch(text, DAY_FIRST);
    if english.Some? then (if MonthOf(english.value[0]).None? then None else Some(Spelled(false, english.value)))
    else if dayFirst.Some? then (if MonthOf(dayFirst.value[3]).None? then None else Some(Spelled(true, dayFirst.value)))
    else None
  }

  lemma EnglishIsSharp()
    ensures Sharp(ENGLISH_DATE)
  {
    SharpFrom(ENGLISH_DATE, 6);
    SharpFrom(ENGLISH_DATE, 5);
    SharpFrom(ENGLISH_DATE, 4);
    SharpFrom(ENGLISH_DATE, 3);
    SharpFrom(ENGLISH_DATE, 2);
    SharpFrom(ENGLISH_DATE, 1);
    SharpFrom(ENGLISH_DATE, 0);
    assert ENGLISH_DATE[0..] == ENGLISH_DATE;
  }

  lemma DayFirstIsSharp()
    ensures Sharp(DAY_FIRST)
  {
    SharpFrom(DAY_FIRST, 6);
    SharpFrom(DAY_FIRST, 5);
    SharpFrom(DAY_FIRST, 4);
    SharpFrom(DAY_FIRST, 3);
    SharpFrom(DAY_FIRST, 2);
    SharpFrom(DAY_FIRST, 1);
    SharpFrom(DAY_FIRST, 0);
    assert DAY_FIRST[0..] == DAY_FIRST;
  }

  lemma IsoLikeIsSharp()
    ensures Sharp(ISO_LIKE)
  {
    SharpFrom(ISO_LIKE, 4);
    SharpFrom(ISO_LIKE, 3);
    SharpFrom(ISO_LIKE, 2);
    SharpFrom(ISO_LIKE, 1);
    SharpFrom(ISO_LIKE, 0);
    assert ISO_LIKE[0..] == ISO_LIKE;
  }

  lemma SpelledDigits(sp: Spelled)
    requires Fits(sp.parts, sp.Shape())
    ensures Short(sp.Day()) && FourDigits(sp.parts[6]) && sp.Name() != [] && AllIn(sp.Name(), MonthLetter)
  {
    DigitsAreIn(sp.Day());
    DigitsAreIn(sp.parts[6]);
  }

  predicate AllSpaces(s: string) { s != [] && forall i :: 0 <= i < |s| ==> IsSpace(s[i]) }

  /** The two spellings: a name and a day, either first, each sign at most once, and the year. */
  lemma FitsIff(sp: Spelled)
    requires |sp.parts| == 7
    ensures Fits(sp.parts, sp.Shape())
            <==> && sp.Name() != [] && AllIn(sp.Name(), MonthLetter) && Short(sp.Day()) && FourDigits(sp.parts[6])
                 && sp.parts[1] in {"", "."} && sp.parts[4] in {"", ","} && AllSpaces(sp.parts[2]) && AllSpaces(sp.parts[5])
  {
    var p, shape := sp.parts, sp.Shape();
    DigitsAreIn(sp.Day());
    DigitsAreIn(p[6]);
    PerhapsFits(p[1], '.');
    PerhapsFits(p[4], ',');
    SpacesFit(p[2]);
    SpacesFit(p[5]);
    assert FitsField(p[0], shape[0]) && FitsField(p[1], shape[1]) && FitsField(p[2], shape[2]) && FitsField(p[3], shape[3])
           && FitsField(p[4], shape[4]) && FitsField(p[5], shape[5]) && FitsField(p[6], shape[6])
           <==> Fits(p, shape);
  }

  lemma PerhapsFits(part: string, c: char)
    ensures FitsField(part, Perhaps(c)) <==> part == "" || part == [c]
  {
  }

  lemma SpacesFit(part: string)
    ensures FitsField(part, SPACES) <==> AllSpaces(part)
  {
  }

  lemma SpellingIff(text: string, sp: Spelled)
    ensures Spelling(text) == Some(sp) <==> sp.Of(text)
  {
    EnglishIsSharp();
    DayFirstIsSharp();
    FullMatchIff(text, sp.Shape(), sp.parts);
    var english := FullMatch(text, ENGLISH_DATE);
    if english.Some? {
      FullMatchIff(text, ENGLISH_DATE, english.value);
      if sp.dayFirst && Fits(sp.parts, DAY_FIRST) {
        NotBoth(english.value, sp.parts);
      }
    }
  }

  lemma NotBoth(english: seq<string>, dayFirst: seq<string>)
    requires Fits(english, ENGLISH_DATE) && Fits(dayFirst, DAY_FIRST)
    ensures Concat(english) != Concat(dayFirst)
  {
    assert In(english[0][0], MonthLetter) && In(dayFirst[0][0], Digit);
    assert Concat(english)[0] == english[0][0];
    assert Concat(dayFirst)[0] == dayFirst[0][0];
  }

  /** `_as_date` */
  function AsDate(text: string): string {
    var sp := Spelling(text);
    if text == "" || FullMatch(text, ISO_LIKE).Some? || sp.None? then text
    else
      SpellingIff(text, sp.value);
      SpelledDigits(sp.value);
      Text(Respelled(sp.value))
  }

  function Respelled(sp: Spelled): Match
    requires Fits(sp.parts, sp.Shape()) && MonthOf(sp.Name()).Some?
  {
    SpelledDigits(sp);
    ShortIsSmall(sp.Day());
    Iso(sp.parts[6], TwoDigits(MonthOf(sp.Name()).value), TwoDigits(Number(sp.Day())))
  }

  // What the rewriting keeps

  lemma SpelledWithoutDash(sp: Spelled)
    requires Fits(sp.parts, sp.Shape())
    ensures '-' !in Concat(sp.parts)
  {
    NowhereIn(sp.parts, sp.Shape(), '-');
  }

  lemma IsoLikeHasDash(parts: seq<string>)
    requires Fits(parts, ISO_LIKE)
    ensures '-' in Concat(parts)
  {
    ConcatFive(parts);
    assert parts[1][0] in Concat(parts);
  }

  /** A text changes exactly when it spells a date with a month the reader knows. */
  lemma SpelledIsRewritten(text: string, sp: Spelled)
    requires sp.Of(text)
    ensures AsDate(text) == Text(Respelled(sp)) && FullMatch(text, ISO_LIKE).None?
  {
    SpellingIff(text, sp);
    SpelledWithoutDash(sp);
    IsoLikeIsSharp();
    var iso := FullMatch(text, ISO_LIKE);
    if iso.Some? {
      FullMatchIff(text, ISO_LIKE, iso.value);
      IsoLikeHasDash(iso.value);
    }
    SpelledDigits(sp);
    assert sp.parts[6][0] in Concat(sp.parts) by { PartIn(sp.parts, 6, sp.parts[6][0]); }
  }

  lemma {:induction false} PartIn(parts: seq<string>, k: nat, c: char)
    requires k < |parts| && c in parts[k]
    ensures c in Concat(parts)
  {
    if k > 0 { PartIn(parts[1..], k - 1, c); }
  }

  lemma RespelledIsIsoLike(sp: Spelled)
    requires Fits(sp.parts, sp.Shape()) && MonthOf(sp.Name()).Some?
    ensures FullMatch(Text(Respelled(sp)), ISO_LIKE).Some?
  {
    var w := Respelled(sp);
    IsoLikeIsSharp();
    DigitsAreIn(w.year);
    DigitsAreIn(w.month);
    DigitsAreIn(w.day);
    FullMatchIff(Text(w), ISO_LIKE, PartsOf(w));
  }

  /** An import of a file the import wrote changes no date: rewriting twice is rewriting once. */
  lemma AsDateTwiceIsOnce(text: string)
    ensures AsDate(AsDate(text)) == AsDate(text)
  {
    var sp := Spelling(text);
    if sp.Some? {
      SpellingIff(text, sp.value);
      SpelledIsRewritten(text, sp.value);
      RespelledIsIsoLike(sp.value);
    }
  }

  function DateOf(sp: Spelled): Date
    requires Fits(sp.parts, sp.Shape()) && MonthOf(sp.Name()).Some?
  {
    SpelledDigits(sp);
    Date(Number(sp.parts[6]), MonthOf(sp.Name()).value, Number(sp.Day()))
  }

  lemma OnlyMatch(w: Match)
    ensures DatesOf(Text(w)) == if Value(w).Some? then [Value(w).value] else []
  {
    assert Text(w) + "" == Text(w);
    MatchTakes(Text(w), w, "");
    assert Matches("") == [];
    assert Matches(Text(w)) == [w];
    CollectEnd([w], 0, Value);
    assert [w][..1] == [w];
  }

  /** What is rewritten is then read as the date it spells, when the calendar has it. */
  lemma SpelledDateIsRead(text: string, sp: Spelled)
    requires sp.Of(text)
    ensures DatesOf(AsDate(text)) == if OnCalendar(DateOf(sp)) then [DateOf(sp)] else []
  {
    SpelledIsRewritten(text, sp);
    OnlyMatch(Respelled(sp));
  }

  // Against the reader of the base's own cells

  /** `December 18, 1998`: the one spelling both readers know. */
  predicate Shared(sp: Spelled) {
    && !sp.dayFirst && |sp.parts| == 7 && AllIn(sp.parts[0], Letter)
    && sp.parts[1] == "" && sp.parts[2] == " " && sp.parts[4] == "," && sp.parts[5] == " "
  }

  lemma SharedIsNamed(text: string, sp: Spelled)
    requires sp.Of(text) && Shared(sp)
    ensures DatesOf(text) == DatesOf(AsDate(text))
  {
    SpelledDigits(sp);
    var w := Named(sp.parts[0], sp.parts[3], sp.parts[6]);
    FitsIffWellFormed(w);
    ConcatShared(sp.parts);
    assert Fold(w.name) == Lower(w.name);
    NoRussianLetters(w.name);
    OnlyMatch(w);
    SpelledDateIsRead(text, sp);
  }

  lemma ConcatShared(p: seq<string>)
    requires |p| == 7 && p[1] == ""
    ensures Concat(p) == Concat([p[0], p[2], p[3], p[4], p[5], p[6]])
  {
    var q := [p[0], p[2], p[3], p[4], p[5], p[6]];
    assert p[1..][1..] == q[1..];
    assert Concat(p[1..]) == Concat(q[1..]);
  }

  /** A name of ASCII letters is no Russian month. */
  lemma NoRussianLetters(name: string)
    requires name != [] && AllIn(name, Letter)
    ensures MonthOf(name) == MonthIn(ENGLISH, Fold(name))
  {
    var russian := MonthIn(RUSSIAN, Fold(name));
    assert In(name[0], Letter);
    assert forall k :: 0 <= k < 12 ==> !In(RUSSIAN[k][0], Letter);
    assert !In(FoldOf(name[0]), MonthLetter) || In(FoldOf(name[0]), Letter);
    assert Fold(name)[0] == FoldOf(name[0]);
  }

  /** A month's name is of one alphabet. */
  lemma MonthIsOneAlphabet(name: string)
    requires AllIn(name, MonthLetter) && MonthOf(name).Some?
    ensures AllIn(name, Letter) || forall i :: 0 <= i < |name| ==> !In(name[i], Letter)
  {
    var folded := Fold(name);
    assert forall i :: 0 <= i < |name| ==> (In(folded[i], Letter) <==> In(name[i], Letter));
    var english := MonthIn(ENGLISH, folded);
    if english.Some? {
      EnglishLetters();
      assert AllIn(folded, Letter);
    } else {
      RussianLetters();
    }
  }

  lemma EnglishLetters()
    ensures forall k :: 0 <= k < 12 ==> AllIn(ENGLISH[k], Letter)
  {
  }

  lemma RussianLetters()
    ensures forall k, i :: 0 <= k < 12 && 0 <= i < |RUSSIAN[k]| ==> !In(RUSSIAN[k][i], Letter)
  {
  }

  /** The months by their numbers, as a Russian date names them and as an English one does. */
  lemma MonthNumbers(k: nat)
    requires k < 12
    ensures MonthOf(RUSSIAN[k]) == Some(k + 1) && MonthOf(ENGLISH[k]) == Some(k + 1)
  {
    NamesAreFolded(k);
    assert forall i, j :: 0 <= i < j < 12 ==> ENGLISH[i] != ENGLISH[j];
    assert forall i, j :: 0 <= i < j < 12 ==> RUSSIAN[i] != RUSSIAN[j];
    MonthInDistinct(ENGLISH, k);
    MonthInDistinct(RUSSIAN, k);
    NotEnglish(k);
  }

  lemma NotEnglish(k: nat)
    requires k < 12
    ensures RUSSIAN[k] !in ENGLISH
  {
    EnglishLetters();
    RussianLetters();
    forall j | 0 <= j < 12
      ensures ENGLISH[j] != RUSSIAN[k]
    {
      assert In(ENGLISH[j][0], Letter);
    }
  }

  lemma NamesAreFolded(k: nat)
    requires k < 12
    ensures Fold(RUSSIAN[k]) == RUSSIAN[k] && Fold(ENGLISH[k]) == ENGLISH[k]
  {
    assert forall i :: 0 <= i < |RUSSIAN[k]| ==> FoldOf(RUSSIAN[k][i]) == RUSSIAN[k][i];
    assert forall i :: 0 <= i < |ENGLISH[k]| ==> FoldOf(ENGLISH[k][i]) == ENGLISH[k][i];
  }

  /** The Russian months in the case a date puts them in, and the English ones, are one to twelve. */
  lemma MonthsInTurn(k: nat)
    requires k < 12
    ensures
      var russian := ["января", "февраля", "марта", "апреля", "мая", "июня",
                      "июля", "августа", "сентября", "октября", "ноября", "декабря"];
      MonthOf(russian[k]) == Some(k + 1)
    ensures
      var english := ["january", "february", "march", "april", "may", "june",
                      "july", "august", "september", "october", "november", "december"];
      MonthOf(english[k]) == Some(k + 1)
  {
    MonthNumbers(k);
  }

  lemma At(a: string, b: string, k: nat)
    requires k < |a| + |b|
    ensures (a + b)[k] == if k < |a| then a[k] else b[k - |a|]
  {
  }

  lemma DotBeforeSpace(sp: Spelled, k: nat)
    requires Fits(sp.parts, sp.Shape()) && k < |Concat(sp.parts)| && Concat(sp.parts)[k] == '.'
    ensures k + 1 < |Concat(sp.parts)| && !IsDigit(Concat(sp.parts)[k + 1])
  {
    var p, text := sp.parts, Concat(sp.parts);
    var after := Concat(p[2..]);
    assert p[1..][1..] == p[2..];
    assert text == p[0] + (p[1] + after);
    NowhereIn(p[2..], sp.Shape()[2..], '.');
    At(p[0], p[1] + after, k);
    At(p[1], after, k - |p[0]|);
    At(p[0], p[1] + after, k + 1);
    At(p[1], after, k + 1 - |p[0]|);
    assert after[0] == p[2][0];
  }

  lemma NoNumberForms(text: string, sp: Spelled, i: nat, w: Match)
    requires sp.Of(text) && i <= |text| && !w.Named?
    ensures !(Text(w) <= text[i..])
  {
    PartsInPlace(w);
    if Text(w) <= text[i..] {
      assert forall j :: 0 <= j < |Text(w)| ==> text[i + j] == Text(w)[j];
      if w.Dotted? {
        assert Text(w)[|w.day|] == '.' && IsDigit(Text(w)[|w.day| + 1]);
        DotBeforeSpace(sp, i + |w.day|);
      } else {
        assert text[i + 4] == '-';
        SpelledWithoutDash(sp);
      }
    }
  }

  lemma LettersInFront(p: seq<string>, j: nat)
    requires Fits(p, ENGLISH_DATE) && j < |Concat(p)| && In(Concat(p)[j], Letter)
    ensures j < |p[0]|
  {
    NowhereIn(p[1..], ENGLISH_DATE[1..], Concat(p)[j]);
    At(p[0], Concat(p[1..]), j);
  }

  /** The first pattern's parts of a text that is a named date after some letters. */
  function NamedParts(head: string, w: Match): seq<string>
    requires w.Named?
  {
    [head + w.name, "", " ", w.day, ",", " ", w.year]
  }

  lemma NamedPartsFit(head: string, w: Match)
    requires w.Named? && AllIn(head, MonthLetter)
    ensures Fits(NamedParts(head, w), ENGLISH_DATE)
    ensures Concat(NamedParts(head, w)) == head + Text(w)
  {
    var q := NamedParts(head, w);
    DigitsAreIn(w.day);
    DigitsAreIn(w.year);
    ConcatShared(q);
    var tail := [" ", w.day, ",", " ", w.year];
    assert PartsOf(w)[1..] == tail;
    assert [q[0], q[2], q[3], q[4], q[5], q[6]][1..] == tail;
    assert Concat(q) == (head + w.name) + Concat(tail);
  }

  lemma NamedInEnglishIsShared(text: string, sp: Spelled, i: nat, w: Match)
    requires sp.Of(text) && !sp.dayFirst && i <= |text| && w.Named? && Text(w) <= text[i..]
    ensures Shared(sp)
  {
    var p, head := sp.parts, text[..i];
    PartsInPlace(w);
    assert text[i] == w.name[0];
    LettersInFront(p, i);
    assert head == p[0][..i];
    NamedPartsFit(head, w);
    assert text == head + text[i..];
    EnglishIsSharp();
    TakeIffFits(text, ENGLISH_DATE, NamedParts(head, w));
    FullMatchIff(text, ENGLISH_DATE, p);
    assert p == NamedParts(head, w);
    MonthIsOneAlphabet(p[0]);
    assert p[0][i] == w.name[0];
  }

  const BEFORE_YEAR: Pattern := [SHORT, Perhaps('.'), SPACES, MONTH, Perhaps(','), SPACES]

  lemma BeforeYearIsSharp()
    ensures Sharp(BEFORE_YEAR)
  {
    SharpFrom(BEFORE_YEAR, 5);
    SharpFrom(BEFORE_YEAR, 4);
    SharpFrom(BEFORE_YEAR, 3);
    SharpFrom(BEFORE_YEAR, 2);
    SharpFrom(BEFORE_YEAR, 1);
    SharpFrom(BEFORE_YEAR, 0);
    assert BEFORE_YEAR[0..] == BEFORE_YEAR;
  }

  lemma SplitAtMonth(p: seq<string>)
    requires |p| == 7
    ensures Concat(p) == Concat(p[..3]) + (p[3] + Concat(p[4..]))
    ensures Concat(p) == Concat(p[..6]) + p[6]
  {
    ConcatJoins(p[..3], p[3..]);
    assert p[..3] + p[3..] == p && p[3..][1..] == p[4..];
    ConcatJoins(p[..6], p[6..]);
    assert p[..6] + p[6..] == p && p[6..][1..] == [];
  }

  /** Day first, the letters are the month's. */
  lemma LettersInMonth(p: seq<string>, j: nat)
    requires Fits(p, DAY_FIRST) && j < |Concat(p)| && In(Concat(p)[j], Letter)
    ensures |Concat(p[..3])| <= j < |Concat(p[..3])| + |p[3]|
  {
    SplitAtMonth(p);
    NowhereIn(p[..3], DAY_FIRST[..3], Concat(p)[j]);
    NowhereIn(p[4..], DAY_FIRST[4..], Concat(p)[j]);
    At(Concat(p[..3]), p[3] + Concat(p[4..]), j);
    if j >= |Concat(p[..3])| { At(p[3], Concat(p[4..]), j - |Concat(p[..3])|); }
  }

  lemma UpToTheYear(p: seq<string>)
    requires Fits(p, DAY_FIRST)
    ensures Take(Concat(p), BEFORE_YEAR) == Some(p[..6])
  {
    SplitAtMonth(p);
    BeforeYearIsSharp();
    assert Concat(p)[|Concat(p[..6])|..] == p[6];
    assert In(p[6][0], Digit);
    TakeIffFits(Concat(p), BEFORE_YEAR, p[..6]);
  }

  /** The second pattern's parts up to the year, when a named date begins in the month. */
  function MonthParts(p: seq<string>, m: nat, w: Match): seq<string>
    requires |p| == 7 && m <= |p[3]| && w.Named?
  {
    p[..3] + [p[3][..m] + w.name, "", " "]
  }

  lemma MonthPartsFit(p: seq<string>, m: nat, w: Match)
    requires Fits(p, DAY_FIRST) && m <= |p[3]| && w.Named?
    ensures Fits(MonthParts(p, m, w), BEFORE_YEAR)
    ensures Concat(MonthParts(p, m, w)) == Concat(p[..3]) + p[3][..m] + (w.name + " ")
  {
    var tail := [p[3][..m] + w.name, "", " "];
    ConcatJoins(p[..3], tail);
    var month := p[3][..m] + w.name;
    assert tail[1..] == ["", " "] && tail[1..][1..] == [" "] && [" "][1..] == [];
    assert Concat([" "]) == " " && Concat(["", " "]) == " ";
    assert Concat(tail) == month + " ";
  }

  lemma NameThenDay(head: string, w: Match, text: string)
    requires w.Named? && head + Text(w) <= text
    ensures (head + (w.name + " ")) + (w.day + ",") <= text
  {
    PartsInPlace(w);
    var upToDay, rest := head + (w.name + " ") + (w.day + ","), " " + w.year;
    assert head + Text(w) == upToDay + rest;
    PrefixSplits(upToDay, rest, text);
  }

  lemma MonthEnds(p: seq<string>, m: nat, w: Match, text: string)
    requires Fits(p, DAY_FIRST) && m <= |p[3]| && w.Named?
    requires (Concat(p[..3]) + p[3][..m]) + Text(w) <= text
    ensures Take(text, BEFORE_YEAR) == Some(MonthParts(p, m, w))
    ensures |Concat(MonthParts(p, m, w))| <= |text| && w.day + "," <= text[|Concat(MonthParts(p, m, w))|..]
  {
    MonthPartsFit(p, m, w);
    BeforeYearIsSharp();
    NameThenDay(Concat(p[..3]) + p[3][..m], w, text);
    DayIsNoSpace(w);
    TakenBefore(text, BEFORE_YEAR, MonthParts(p, m, w), w.day + ",");
  }

  lemma DayIsNoSpace(w: Match)
    ensures (w.day + ",") != [] && !In((w.day + ",")[0], Space)
  {
    assert (w.day + ",")[0] == w.day[0];
  }

  lemma NoNamedInDayFirst(text: string, sp: Spelled, i: nat, w: Match)
    requires sp.Of(text) && sp.dayFirst && i <= |text| && w.Named?
    ensures !(Text(w) <= text[i..])
  {
    if Text(w) <= text[i..] {
      var p := sp.parts;
      PartsInPlace(w);
      assert text[i] == w.name[0];
      LettersInMonth(p, i);
      SplitAtMonth(p);
      var m := i - |Concat(p[..3])|;
      assert text[..i] == Concat(p[..3]) + p[3][..m];
      assert text == text[..i] + text[i..];
      MonthEnds(p, m, w, text);
      UpToTheYear(p);
      YearIsNotDay(p[6], w.day);
    }
  }

  lemma YearIsNotDay(year: string, day: string)
    requires FitsField(year, YEAR) && Short(day)
    ensures !(day + "," <= year)
  {
    assert (day + ",")[|day|] == ',';
  }

  /** A text that spells a date holds no match, save in the spelling both readers know. */
  lemma NoMatchUnlessShared(text: string, sp: Spelled)
    requires sp.Of(text) && !Shared(sp)
    ensures DatesOf(text) == []
  {
    forall i | 0 <= i < |text|
      ensures MatchHere(text[i..]).None?
    {
      if MatchHere(text[i..]).Some? {
        var w := MatchHere(text[i..]).value;
        MatchIffWritten(text[i..], w);
        NothingAt(text, sp, i, w);
      }
    }
    MatchesSkip(text, |text|);
  }

  lemma NothingAt(text: string, sp: Spelled, i: nat, w: Match)
    requires sp.Of(text) && !Shared(sp) && i <= |text|
    ensures !(Text(w) <= text[i..])
  {
    if !w.Named? {
      NoNumberForms(text, sp, i, w);
    } else if sp.dayFirst {
      NoNamedInDayFirst(text, sp, i, w);
    } else if Text(w) <= text[i..] {
      NamedInEnglishIsShared(text, sp, i, w);
    }
  }

  /**
   The import never loses a date the base's own cells would give, and gives the very same
   dates exactly when the cell's text gave one, or spells none the calendar has.
   */
  lemma ImportKeepsTheDates(text: string)
    ensures DatesOf(AsDate(text)) == DatesOf(text) || DatesOf(text) == []
    ensures DatesOf(AsDate(text)) != DatesOf(text)
            <==> Spelling(text).Some? && Spelling(text).value.Of(text)
                 && !Shared(Spelling(text).value) && OnCalendar(DateOf(Spelling(text).value))
  {
    var found := Spelling(text);
    if found.Some? {
      SpellingIff(text, found.value);
      SpelledDateIsRead(text, found.value);
      if Shared(found.value) { SharedIsNamed(text, found.value); } else { NoMatchUnlessShared(text, found.value); }
    }
  }
}
