/** The dates a cell of the operator's base holds: the scanner `dates`, and what `details` takes from it. */
module CellDates {
  import opened Wrappers
  import opened Digits
  import opened Patterns

  // One date as the pattern writes it

  /** The groups of one match, by the branch of `_DATE`. */
  datatype Written =
    | Named(name: string, day: string, year: string)
    | Dotted(day: string, month: string, year: string)
    | Iso(year: string, month: string, day: string)

  const WORD := Field(Letter, 1, None)
  const SHORT := Field(Digit, 1, Some(2))
  const YEAR := Field(Digit, 4, Some(4))

  function One(c: char): Field { Field(Only(c), 1, Some(1)) }

  const NAMED: Pattern := [WORD, One(' '), SHORT, One(','), One(' '), YEAR]
  const DOTTED: Pattern := [SHORT, One('.'), SHORT, One('.'), YEAR]
  const ISO: Pattern := [YEAR, One('-'), SHORT, One('-'), SHORT]

  function PatternOf(w: Written): Pattern {
    match w
    case Named(_, _, _) => NAMED
    case Dotted(_, _, _) => DOTTED
    case Iso(_, _, _) => ISO
  }

  function PartsOf(w: Written): (parts: seq<string>)
    ensures |parts| == |PatternOf(w)|
  {
    match w
    case Named(name, day, year) => [name, " ", day, ",", " ", year]
    case Dotted(day, month, year) => [day, ".", month, ".", year]
    case Iso(year, month, day) => [year, "-", month, "-", day]
  }

  predicate Short(s: string) { 1 <= |s| <= 2 && AllDigits(s) }

  predicate FourDigits(s: string) { |s| == 4 && AllDigits(s) }

  predicate WellFormed(w: Written) {
    && Short(w.day) && FourDigits(w.year)
    && if w.Named? then w.name != [] && AllIn(w.name, Letter) else Short(w.month)
  }

  /** A match of the pattern. */
  type Match = w: Written | WellFormed(w) witness Iso("2000", "1", "1")

  lemma FitsIffWellFormed(w: Written)
    ensures Fits(PartsOf(w), PatternOf(w)) <==> WellFormed(w)
  {
    var parts, p := PartsOf(w), PatternOf(w);
    assert FitsField(w.day, SHORT) <==> Short(w.day) by { DigitsAreIn(w.day); }
    assert FitsField(w.year, YEAR) <==> FourDigits(w.year) by { DigitsAreIn(w.year); }
    if !w.Named? { assert FitsField(w.month, SHORT) <==> Short(w.month) by { DigitsAreIn(w.month); } }
    assert FitsField(parts[0], p[0]) && FitsField(parts[2], p[2]) && FitsField(parts[4], p[4])
           && (w.Named? ==> FitsField(parts[5], p[5]))
           <==> WellFormed(w);
  }

  function Text(w: Written): string { Concat(PartsOf(w)) }

  /** A day at the end takes its second digit when there is one. */
  predicate Complete(w: Written, rest: string) { Whole(PartsOf(w), PatternOf(w), rest) }

  /** The branches of the pattern in turn. */
  function MatchHere(s: string): (found: Option<Written>) {
    var named, dotted, iso := Take(s, NAMED), Take(s, DOTTED), Take(s, ISO);
    if named.Some? then Some(Named(named.value[0], named.value[2], named.value[5]))
    else if dotted.Some? then Some(Dotted(dotted.value[0], dotted.value[2], dotted.value[4]))
    else if iso.Some? then Some(Iso(iso.value[0], iso.value[2], iso.value[4]))
    else None
  }

  lemma PatternsAreSharp(w: Written)
    ensures Sharp(PatternOf(w))
  {
    var p := PatternOf(w);
    SharpFrom(p, |p| - 1);
    SharpFrom(p, |p| - 2);
    SharpFrom(p, |p| - 3);
    SharpFrom(p, |p| - 4);
    SharpFrom(p, |p| - 5);
    if w.Named? { SharpFrom(p, 0); }
    assert p[0..] == p;
  }

  lemma OneFits(part: string, c: char)
    requires FitsField(part, One(c))
    ensures part == [c]
  {
  }

  /** The parts of a match are those of the date it is read as. */
  lemma MatchIsTaken(s: string)
    requires MatchHere(s).Some?
    ensures
      var w := MatchHere(s).value;
      Take(s, PatternOf(w)) == Some(PartsOf(w))
  {
    var w := MatchHere(s).value;
    var parts := Take(s, PatternOf(w)).value;
    TakenFits(s, PatternOf(w));
    match w
    case Named(_, _, _) =>
      OneFits(parts[1], ' ');
      OneFits(parts[3], ',');
      OneFits(parts[4], ' ');
      assert parts == PartsOf(w);
    case Dotted(_, _, _) =>
      OneFits(parts[1], '.');
      OneFits(parts[3], '.');
      assert parts == PartsOf(w);
    case Iso(_, _, _) =>
      OneFits(parts[1], '-');
      OneFits(parts[3], '-');
      assert parts == PartsOf(w);
  }

  lemma ConcatFive(p: seq<string>)
    requires |p| == 5
    ensures Concat(p) == p[0] + p[1] + p[2] + p[3] + p[4]
  {
    assert p[1..][1..] == p[2..] && p[2..][1..] == p[3..] && p[3..][1..] == p[4..] && p[4..][1..] == [];
    assert Concat(p[4..]) == p[4];
    assert Concat(p[3..]) == p[3] + p[4];
    assert Concat(p[2..]) == p[2] + p[3] + p[4];
  }

  /** What stands at the places of a written date. */
  lemma PartsInPlace(w: Written)
    ensures
      var t := Text(w);
      match w
      case Named(name, day, year) => t == name + " " + day + ", " + year
      case Dotted(day, month, year) => t == day + "." + month + "." + year
      case Iso(year, month, day) => t == year + "-" + month + "-" + day
  {
    var p := PartsOf(w);
    if w.Named? {
      ConcatFive(p[1..]);
      assert Text(w) == p[0] + (p[1] + p[2] + p[3] + p[4] + p[5]);
    } else {
      ConcatFive(p);
    }
  }

  lemma StartsLike(s: string, w: Written)
    requires Take(s, PatternOf(w)) == Some(PartsOf(w))
    ensures WellFormed(w) && Text(w) <= s && Complete(w, s[|Text(w)|..])
  {
    PatternsAreSharp(w);
    FitsIffWellFormed(w);
    TakeIffFits(s, PatternOf(w), PartsOf(w));
  }

  lemma DottedIsNotIso(s: string, dotted: Written, iso: Written)
    requires dotted.Dotted? && iso.Iso? && WellFormed(dotted) && WellFormed(iso)
    ensures !(Text(dotted) <= s && Text(iso) <= s)
  {
    PartsInPlace(dotted);
    PartsInPlace(iso);
    var k := |dotted.day|;
    assert Text(dotted)[k] == '.' && Text(iso)[k] == iso.year[k];
  }

  lemma BranchesExclude(s: string, w: Written)
    requires Take(s, PatternOf(w)) == Some(PartsOf(w))
    ensures MatchHere(s) == Some(w)
  {
    var found := MatchHere(s).value;
    StartsLike(s, w);
    MatchIsTaken(s);
    StartsLike(s, found);
    FirstIsLetterIff(s, w);
    FirstIsLetterIff(s, found);
    if found.Dotted? && w.Iso? { DottedIsNotIso(s, found, w); }
  }

  lemma FirstIsLetterIff(s: string, w: Written)
    requires WellFormed(w) && Text(w) <= s
    ensures s != [] && (In(s[0], Letter) <==> w.Named?)
  {
    PartsInPlace(w);
    assert s[0] == Text(w)[0];
  }

  /** The pattern matches at a place exactly when some date is written there, and takes all of it. */
  lemma MatchIffWritten(s: string, w: Written)
    ensures MatchHere(s) == Some(w) <==> WellFormed(w) && Text(w) <= s && Complete(w, s[|Text(w)|..])
  {
    PatternsAreSharp(w);
    FitsIffWellFormed(w);
    TakeIffFits(s, PatternOf(w), PartsOf(w));
    if Take(s, PatternOf(w)) == Some(PartsOf(w)) { BranchesExclude(s, w); }
    if MatchHere(s) == Some(w) { MatchIsTaken(s); }
  }

  // The scanner

  /** `_DATE.finditer(s)`: leftmost, not overlapping. */
  function Matches(s: string): seq<Match>
    decreases |s|
  {
    if s == [] then []
    else
      var here := MatchHere(s);
      if here.None? then Matches(s[1..])
      else
        MatchIffWritten(s, here.value);
        PartsInPlace(here.value);
        [here.value] + Matches(s[|Text(here.value)|..])
  }

  /** Dates among anything: what stands before each, the dates, and what stands after the last. */
  datatype Piece = Piece(gap: string, written: Match)

  function Cell(pieces: seq<Piece>, end: string): string {
    if pieces == [] then end else pieces[0].gap + (Text(pieces[0].written) + Cell(pieces[1..], end))
  }

  function WrittenIn(pieces: seq<Piece>): seq<Match> {
    if pieces == [] then [] else [pieces[0].written] + WrittenIn(pieces[1..])
  }

  /** No digit stands between the dates, and no letter right before one. */
  predicate Plain(gap: string) { NoDigits(gap) && (gap != [] ==> !In(gap[|gap| - 1], Letter)) }

  predicate Apart(pieces: seq<Piece>, end: string) {
    && (forall i :: 0 <= i < |pieces| ==> Plain(pieces[i].gap))
    && (forall i :: 0 < i < |pieces| ==> pieces[i].gap != [])
    && NoDigits(end)
  }

  lemma NoMatchBefore(gap: string, w: Written, rest: string)
    requires gap != [] && Plain(gap) && WellFormed(w)
    ensures MatchHere(gap + (Text(w) + rest)) == None
  {
    var s := gap + (Text(w) + rest);
    if MatchHere(s).Some? {
      var found := MatchHere(s).value;
      MatchIffWritten(s, found);
      PartsInPlace(found);
      assert s[0] == gap[0] == Text(found)[0];
      NoNameBefore(gap, w, rest, found);
    }
  }

  lemma NoNameBefore(gap: string, w: Written, rest: string, found: Written)
    requires gap != [] && Plain(gap) && WellFormed(w) && WellFormed(found) && found.Named?
    ensures !(Text(found) <= gap + (Text(w) + rest))
  {
    var s := gap + (Text(w) + rest);
    PartsInPlace(w);
    PartsInPlace(found);
    if Text(found) <= s {
      AfterTheName(gap, Text(w) + rest, found);
      DayThenComma(w, rest, found.day);
    }
  }

  /** Where a gap comes first, a name can only end right before its last character. */
  lemma AfterTheName(gap: string, after: string, found: Written)
    requires gap != [] && Plain(gap) && WellFormed(found) && found.Named?
    requires Text(found) <= gap + after
    ensures |gap| == |found.name| + 1 && found.day + "," <= after
  {
    var s, k := gap + after, |found.name| + 1;
    PartsInPlace(found);
    assert forall i :: 0 <= i < |Text(found)| ==> s[i] == Text(found)[i];
    assert s[k - 1] == ' ' && s[k] == found.day[0];
    assert s[|gap| - 1] == gap[|gap| - 1];
    if k > |gap| { assert false; }
    if k < |gap| { assert false; }
    assert s[k..k + |found.day| + 1] == Text(found)[k..k + |found.day| + 1] == found.day + ",";
  }

  /** No date starts as the day of a named one does. */
  lemma DayThenComma(w: Written, rest: string, day: string)
    requires WellFormed(w) && Short(day)
    ensures !(day + "," <= Text(w) + rest)
  {
    PartsInPlace(w);
    var s := Text(w) + rest;
    assert forall i :: 0 <= i < |Text(w)| ==> s[i] == Text(w)[i];
    assert (day + ",")[|day|] == ',' && (day + ",")[0] == day[0];
    match w
    case Named(name, _, _) =>
      assert s[0] == name[0];
    case Dotted(first, _, _) =>
      assert s[|first|] == '.';
      assert forall i :: 0 <= i < |first| ==> s[i] == first[i];
      assert |day| > |first| ==> (day + ",")[|first|] == day[|first|];
    case Iso(year, _, _) =>
      assert forall i :: 0 <= i < 4 ==> s[i] == year[i];
  }

  lemma HoldsDigit(s: string, w: Match)
    requires Text(w) <= s
    ensures !NoDigits(s)
  {
    PartsInPlace(w);
    var last := |Text(w)| - 1;
    assert IsDigit(Text(w)[last]) && s[last] == Text(w)[last];
  }

  lemma NoMatchWithoutDigits(s: string)
    requires NoDigits(s)
    ensures MatchHere(s).None?
  {
    if MatchHere(s).Some? {
      MatchIffWritten(s, MatchHere(s).value);
      HoldsDigit(s, MatchHere(s).value);
    }
  }

  lemma NoMatchIn(end: string)
    requires NoDigits(end)
    ensures Matches(end) == []
  {
    forall i | 0 <= i < |end|
      ensures MatchHere(end[i..]).None?
    {
      NoMatchWithoutDigits(end[i..]);
    }
    MatchesSkip(end, |end|);
  }

  lemma MatchTakes(s: string, w: Written, rest: string)
    requires s == Text(w) + rest && WellFormed(w) && Complete(w, rest)
    ensures Matches(s) == [w] + Matches(rest)
  {
    assert s[|Text(w)|..] == rest;
    MatchIffWritten(s, w);
  }

  lemma {:induction false} MatchesSkip(s: string, n: nat)
    requires n <= |s| && forall i :: 0 <= i < n ==> MatchHere(s[i..]).None?
    ensures Matches(s) == Matches(s[n..])
  {
    if n > 0 {
      assert MatchHere(s[0..]).None? && s[0..] == s;
      forall i | 0 <= i < n - 1
        ensures MatchHere(s[1..][i..]).None?
      {
        assert s[1..][i..] == s[i + 1..];
      }
      MatchesSkip(s[1..], n - 1);
      assert s[1..][n - 1..] == s[n..];
    } else {
      assert s[0..] == s;
    }
  }

  lemma NoMatchInGap(gap: string, w: Match, rest: string, i: nat)
    requires Plain(gap) && i < |gap|
    ensures MatchHere((gap + (Text(w) + rest))[i..]).None?
  {
    var here := gap[i..];
    assert here[|here| - 1] == gap[|gap| - 1];
    NoMatchBefore(here, w, rest);
    assert (gap + (Text(w) + rest))[i..] == here + (Text(w) + rest);
  }

  lemma ScanReaches(gap: string, w: Match, rest: string)
    requires Plain(gap) && Complete(w, rest)
    ensures Matches(gap + (Text(w) + rest)) == [w] + Matches(rest)
  {
    var after := Text(w) + rest;
    MatchTakes(after, w, rest);
    forall i | 0 <= i < |gap|
      ensures MatchHere((gap + after)[i..]).None?
    {
      NoMatchInGap(gap, w, rest, i);
    }
    MatchesSkip(gap + after, |gap|);
    assert (gap + after)[|gap|..] == after;
  }

  /** Every date of a cell is read, in the order written, whatever its forms and the words between. */
  lemma {:induction false} ScanReadsAll(pieces: seq<Piece>, end: string)
    requires Apart(pieces, end)
    ensures Matches(Cell(pieces, end)) == WrittenIn(pieces)
  {
    if pieces == [] {
      NoMatchIn(end);
    } else {
      var rest := Cell(pieces[1..], end);
      assert rest == [] || !IsDigit(rest[0]) by {
        if |pieces| > 1 { assert rest[0] == pieces[1].gap[0]; }
      }
      ScanReadsAll(pieces[1..], end);
      ScanReaches(pieces[0].gap, pieces[0].written, rest);
    }
  }

  // The dates

  datatype Date = Date(year: nat, month: nat, day: nat)

  function DaysIn(month: nat, year: nat): nat {
    if month == 2 then (if year % 4 == 0 && (year % 100 != 0 || year % 400 == 0) then 29 else 28)
    else if month in {4, 6, 9, 11} then 30
    else 31
  }

  /** The calendar of Python's `date`. */
  predicate OnCalendar(d: Date) {
    1 <= d.year <= 9999 && 1 <= d.month <= 12 && 1 <= d.day <= DaysIn(d.month, d.year)
  }

  /** The months of a common year, and February's day more in every fourth year but the centuries not of 400. */
  lemma CalendarIs(d: Date)
    ensures
      var leap := (exists k: nat :: d.year == 4 * k)
                  && ((forall k: nat :: d.year != 100 * k) || exists k: nat :: d.year == 400 * k);
      OnCalendar(d)
      <==> 0 < d.year < 10_000 && 0 < d.month < 13 && 0 < d.day
           && (d.day <= [31, 28, 31, 30, 31, 30, 31, 31, 30, 31, 30, 31][d.month - 1]
               || (leap && d.month == 2 && d.day == 29))
  {
    Divides(d.year, 4);
    Divides(d.year, 100);
    Divides(d.year, 400);
  }

  lemma Divides(n: nat, step: nat)
    requires step > 0
    ensures n % step == 0 <==> exists k: nat :: n == step * k
  {
    assert n == step * (n / step) + n % step;
    if k: nat :| n == step * k {
      if n / step < k { NextMultiple(step, n / step, k); } else if k < n / step { NextMultiple(step, k, n / step); }
    }
  }

  lemma {:induction false} NextMultiple(step: nat, a: nat, b: nat)
    requires a < b
    ensures step * a + step <= step * b
    decreases b
  {
    assert step * b == step * (b - 1) + step;
    if a + 1 < b { NextMultiple(step, a, b - 1); }
  }

  function LowerOf(c: char): char { if 'A' <= c <= 'Z' then c + 32 as char else c }

  function Lower(s: string): string { seq(|s|, i requires 0 <= i < |s| => LowerOf(s[i])) }

  const ENGLISH := [
    "january", "february", "march", "april", "may", "june",
    "july", "august", "september", "october", "november", "december"]

  /** The place of a name among twelve, from one. */
  function MonthIn(names: seq<string>, name: string): (month: Option<nat>)
    ensures month.Some? ==> 1 <= month.value <= |names| && names[month.value - 1] == name
    ensures month.None? ==> name !in names
  {
    if names == [] then None
    else if names[|names| - 1] == name then Some(|names|)
    else
      assert names == names[..|names| - 1] + [names[|names| - 1]];
      MonthIn(names[..|names| - 1], name)
  }

  /** The date of one match; nothing for an unknown month or a day the calendar does not have. */
  function Value(w: Match): (date: Option<Date>)
    ensures date.Some? ==> OnCalendar(date.value)
  {
    var month := if w.Named? then MonthIn(ENGLISH, Lower(w.name)) else Some(Number(w.month));
    if month.None? then None
    else
      var date := Date(Number(w.year), month.value, Number(w.day));
      if OnCalendar(date) then Some(date) else None
  }

  /** What a reading makes of each item, leaving out what it makes nothing of. */
  function Collect<A, B>(items: seq<A>, read: A -> Option<B>): seq<B> {
    if items == [] then []
    else
      var last := read(items[|items| - 1]);
      Collect(items[..|items| - 1], read) + if last.Some? then [last.value] else []
  }

  lemma CollectEnd<A, B>(items: seq<A>, i: nat, read: A -> Option<B>)
    requires i < |items|
    ensures Collect(items[..i + 1], read)
            == Collect(items[..i], read) + if read(items[i]).Some? then [read(items[i]).value] else []
  {
    assert items[..i + 1][..i] == items[..i];
  }

  /** As many values as items, each read from its item. */
  lemma {:induction false} CollectAll<A, B>(items: seq<A>, values: seq<B>, read: A -> Option<B>)
    requires |items| == |values| && forall i :: 0 <= i < |items| ==> read(items[i]) == Some(values[i])
    ensures Collect(items, read) == values
  {
    if items != [] {
      var n := |items| - 1;
      CollectAll(items[..n], values[..n], read);
      assert values == values[..n] + [values[n]];
    }
  }

  function DatesOf(cell: string): seq<Date> { Collect(Matches(cell), Value) }

  /** `dates` */
  method Dates(cell: string) returns (found: seq<Date>)
    ensures found == DatesOf(cell)
  {
    var matches := Matches(cell);
    found := [];
    for i := 0 to |matches|
      invariant found == Collect(matches[..i], Value)
    {
      CollectEnd(matches, i, Value);
      var w := matches[i];
      var month: nat;
      if w.Named? {
        var known := MonthIn(ENGLISH, Lower(w.name));
        if known.None? { continue; }
        month := known.value;
      } else {
        month := Number(w.month);
      }
      var date := Date(Number(w.year), month, Number(w.day));
      if OnCalendar(date) { found := found + [date]; }
    }
    assert matches[..|matches|] == matches;
  }

  // What a person's record takes from a cell

  predicate Before(a: Date, b: Date) {
    a.year < b.year || (a.year == b.year && (a.month < b.month || (a.month == b.month && a.day <= b.day)))
  }

  /** Of two dates the one whose digits, year, month and day, are the lesser number comes before. */
  lemma BeforeIff(a: Date, b: Date)
    requires OnCalendar(a) && OnCalendar(b)
    ensures Before(a, b) <==> 10_000 * a.year + 100 * a.month + a.day <= 10_000 * b.year + 100 * b.month + b.day
  {
  }

  function Earliest(dates: seq<Date>): (first: Option<Date>)
    ensures first.None? <==> dates == []
    ensures first.Some? ==> first.value in dates && forall d :: d in dates ==> Before(first.value, d)
  {
    if dates == [] then None
    else
      var earlier := Earliest(dates[..|dates| - 1]);
      assert dates == dates[..|dates| - 1] + [dates[|dates| - 1]];
      if earlier.Some? && Before(earlier.value, dates[|dates| - 1]) then earlier else Some(dates[|dates| - 1])
  }

  function Latest(dates: seq<Date>): (last: Option<Date>)
    ensures last.None? <==> dates == []
    ensures last.Some? ==> last.value in dates && forall d :: d in dates ==> Before(d, last.value)
  {
    if dates == [] then None
    else
      var later := Latest(dates[..|dates| - 1]);
      assert dates == dates[..|dates| - 1] + [dates[|dates| - 1]];
      if later.Some? && Before(dates[|dates| - 1], later.value) then later else Some(dates[|dates| - 1])
  }

  datatype Details = Details(
    birth: Option<Date>, caseOpened: Option<Date>, sentenced: Option<Date>, included: Option<Date>)

  /** The four date columns of `details`. */
  function DetailsOf(birth: string, caseOpened: string, sentenced: string, included: string): Details {
    var born := DatesOf(birth);
    Details(if |born| == 1 then Some(born[0]) else None,
            Earliest(DatesOf(caseOpened)), Latest(DatesOf(sentenced)), Earliest(DatesOf(included)))
  }

  /** The columns are settled by which dates a cell holds, not by the order they are written in. */
  lemma OrderInTheCellIsNothing(dates: seq<Date>, others: seq<Date>)
    requires forall d :: d in dates <==> d in others
    ensures Earliest(dates) == Earliest(others) && Latest(dates) == Latest(others)
  {
    assert dates != [] ==> dates[0] in others;
    assert others != [] ==> others[0] in dates;
  }

  // What is written is read

  /** A date in one of the forms: the month by its English name in any case, or the number with or without a zero. */
  predicate Writes(w: Match, d: Date) {
    && OnCalendar(d)
    && Number(w.year) == d.year && Number(w.day) == d.day
    && if w.Named? then Lower(w.name) == ENGLISH[d.month - 1] else Number(w.month) == d.month
  }

  lemma {:induction false} MonthInDistinct(names: seq<string>, k: nat)
    requires k < |names| && forall i, j :: 0 <= i < j < |names| ==> names[i] != names[j]
    ensures MonthIn(names, names[k]) == Some(k + 1)
  {
    if k < |names| - 1 { MonthInDistinct(names[..|names| - 1], k); }
  }

  lemma WritesValue(w: Match, d: Date)
    requires Writes(w, d)
    ensures Value(w) == Some(d)
  {
    if w.Named? {
      assert forall i, j :: 0 <= i < j < |ENGLISH| ==> ENGLISH[i] != ENGLISH[j];
      MonthInDistinct(ENGLISH, d.month - 1);
    }
  }

  lemma {:induction false} WrittenAt(pieces: seq<Piece>)
    ensures |WrittenIn(pieces)| == |pieces|
    ensures forall i :: 0 <= i < |pieces| ==> WrittenIn(pieces)[i] == pieces[i].written
  {
    if pieces != [] { WrittenAt(pieces[1..]); }
  }

  /** Dates written among words, each in any of the forms, are read back as those dates, in that order. */
  lemma WrittenDatesAreRead(pieces: seq<Piece>, dates: seq<Date>, end: string)
    requires Apart(pieces, end)
    requires |pieces| == |dates| && forall i :: 0 <= i < |dates| ==> Writes(pieces[i].written, dates[i])
    ensures DatesOf(Cell(pieces, end)) == dates
  {
    ScanReadsAll(pieces, end);
    WrittenAt(pieces);
    forall i | 0 <= i < |dates|
      ensures Value(WrittenIn(pieces)[i]) == Some(dates[i])
    {
      WritesValue(pieces[i].written, dates[i]);
    }
    CollectAll(WrittenIn(pieces), dates, Value);
  }

  /** A cell that holds these dates, written among words in any of the forms. */
  ghost predicate Holds(cell: string, dates: seq<Date>) {
    exists pieces, end :: HoldsAs(cell, dates, pieces, end)
  }

  ghost predicate HoldsAs(cell: string, dates: seq<Date>, pieces: seq<Piece>, end: string) {
    && cell == Cell(pieces, end) && Apart(pieces, end) && |pieces| == |dates|
    && forall i :: 0 <= i < |dates| ==> Writes(pieces[i].written, dates[i])
  }

  lemma HeldDatesAreRead(cell: string, dates: seq<Date>)
    requires Holds(cell, dates)
    ensures DatesOf(cell) == dates
  {
    var pieces, end :| HoldsAs(cell, dates, pieces, end);
    WrittenDatesAreRead(pieces, dates, end);
  }

  /** The columns of cells that hold written dates: the one birth date, the first opening, the last sentence, the first listing. */
  lemma DetailsOfWrittenDates(
    birth: string, caseOpened: string, sentenced: string, included: string,
    born: seq<Date>, openings: seq<Date>, sentences: seq<Date>, listings: seq<Date>)
    requires Holds(birth, born) && Holds(caseOpened, openings) && Holds(sentenced, sentences) && Holds(included, listings)
    ensures DetailsOf(birth, caseOpened, sentenced, included)
            == Details(if |born| == 1 then Some(born[0]) else None, Earliest(openings), Latest(sentences), Earliest(listings))
  {
    HeldDatesAreRead(birth, born);
    HeldDatesAreRead(caseOpened, openings);
    HeldDatesAreRead(sentenced, sentences);
    HeldDatesAreRead(included, listings);
  }
}
