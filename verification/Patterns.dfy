/**
 Regular expressions of the plain kind the date readers use: one character class after
 another, each with its bounds. Taking the longest run of each in turn decides them without
 stepping back, as long as no class can begin what follows it.
 */
module Patterns {
  import opened Wrappers
  import opened Digits
  import opened Texts

  datatype Class = Letter | MonthLetter | Digit | Space | Only(c: char)

  predicate In(c: char, class_: Class) {
    match class_
    case Letter => 'a' <= c <= 'z' || 'A' <= c <= 'Z'
    case MonthLetter => 'a' <= c <= 'z' || 'A' <= c <= 'Z' || 'а' <= c <= 'я' || c == 'ё'
    case Digit => IsDigit(c)
    case Space => IsSpace(c)
    case Only(only) => c == only
  }

  predicate AllIn(s: string, class_: Class) { forall i :: 0 <= i < |s| ==> In(s[i], class_) }

  lemma DigitsAreIn(s: string)
    ensures AllIn(s, Digit) <==> AllDigits(s)
  {
    assert AllIn(s, Digit) ==> forall i :: 0 <= i < |s| ==> In(s[i], Digit);
  }

  /** `[class]{least,most}`; without `most`, `[class]{least,}`. */
  datatype Field = Field(class_: Class, least: nat, most: Option<nat>)

  type Pattern = seq<Field>

  // What a pattern means

  function Concat(parts: seq<string>): string {
    if parts == [] then "" else parts[0] + Concat(parts[1..])
  }

  predicate FitsField(part: string, f: Field) {
    AllIn(part, f.class_) && f.least <= |part| && (f.most.Some? ==> |part| <= f.most.value)
  }

  predicate Fits(parts: seq<string>, pattern: Pattern) {
    |parts| == |pattern| && forall i :: 0 <= i < |parts| ==> FitsField(parts[i], pattern[i])
  }

  // How it is matched

  /** How many characters of the class a text starts with. */
  function RunOf(s: string, class_: Class): (n: nat)
    ensures n <= |s| && AllIn(s[..n], class_)
    ensures n < |s| ==> !In(s[n], class_)
  {
    if s == [] || !In(s[0], class_) then 0
    else
      var n := RunOf(s[1..], class_);
      assert s[1..][..n] == s[1..n + 1];
      assert n + 1 < |s| ==> s[n + 1] == s[1..][n];
      1 + n
  }

  /** The longest a field can take. */
  function Lead(s: string, f: Field): (n: nat)
    ensures n <= |s| && AllIn(s[..n], f.class_) && (f.most.Some? ==> n <= f.most.value)
    ensures n < |s| ==> !In(s[n], f.class_) || f.most == Some(n)
  {
    var n := RunOf(s, f.class_);
    if f.most.Some? && f.most.value < n then f.most.value else n
  }

  function Take(s: string, pattern: Pattern): (parts: Option<seq<string>>)
    ensures parts.Some? ==> |parts.value| == |pattern|
    decreases |pattern|
  {
    if pattern == [] then Some([])
    else
      var f := pattern[0];
      var n := Lead(s, f);
      if n < f.least then None
      else
        var rest := Take(s[n..], pattern[1..]);
        if rest.None? then None else Some([s[..n]] + rest.value)
  }

  lemma {:induction false} TakenFits(s: string, pattern: Pattern)
    requires Take(s, pattern).Some?
    ensures
      var parts := Take(s, pattern).value;
      Fits(parts, pattern) && Concat(parts) <= s
    decreases |pattern|
  {
    if pattern != [] {
      var n := Lead(s, pattern[0]);
      TakenFits(s[n..], pattern[1..]);
      var rest := Take(s[n..], pattern[1..]).value;
      assert ([s[..n]] + rest)[1..] == rest;
      assert s == s[..n] + s[n..];
    }
  }

  /** A character a match of the pattern may begin with. */
  predicate Begins(c: char, pattern: Pattern) {
    pattern != [] && (In(c, pattern[0].class_) || (pattern[0].least == 0 && Begins(c, pattern[1..])))
  }

  /** No class can begin what follows it, and the last is not optional. */
  ghost predicate Sharp(pattern: Pattern) {
    pattern != [] ==>
      && (forall c :: In(c, pattern[0].class_) ==> !Begins(c, pattern[1..]))
      && (|pattern| == 1 ==> pattern[0].least > 0)
      && Sharp(pattern[1..])
  }

  ghost predicate Disjoint(a: Class, b: Class) { forall c :: In(c, a) ==> !In(c, b) }

  /** Sharpness read off the neighbours: a field, the next, and the one after an optional next. */
  lemma SharpFrom(pattern: Pattern, i: nat)
    requires i < |pattern| && Sharp(pattern[i + 1..])
    requires i + 1 == |pattern| ==> pattern[i].least > 0
    requires i + 1 < |pattern| ==> Disjoint(pattern[i].class_, pattern[i + 1].class_)
    requires i + 1 < |pattern| && pattern[i + 1].least == 0 ==>
               i + 2 < |pattern| && pattern[i + 2].least > 0 && Disjoint(pattern[i].class_, pattern[i + 2].class_)
    ensures Sharp(pattern[i..])
  {
    assert pattern[i..][1..] == pattern[i + 1..];
    if i + 2 < |pattern| { assert pattern[i + 1..][1..] == pattern[i + 2..]; }
  }

  /** The last run of a match is not cut short. */
  predicate Whole(parts: seq<string>, pattern: Pattern, rest: string)
    requires |parts| == |pattern|
  {
    parts != [] && rest != [] ==>
      var f := pattern[|pattern| - 1];
      f.most == Some(|parts[|parts| - 1]|) || !In(rest[0], f.class_)
  }

  lemma {:induction false} BeginsAsPattern(parts: seq<string>, pattern: Pattern)
    requires Fits(parts, pattern) && Concat(parts) != []
    ensures Begins(Concat(parts)[0], pattern)
  {
    if parts[0] == [] { BeginsAsPattern(parts[1..], pattern[1..]); }
  }

  lemma {:induction false} SharpIsNotEmpty(parts: seq<string>, pattern: Pattern)
    requires Fits(parts, pattern) && Sharp(pattern) && pattern != []
    ensures Concat(parts) != []
  {
    if |pattern| > 1 { SharpIsNotEmpty(parts[1..], pattern[1..]); }
  }

  lemma {:induction false} RunOfCovers(part: string, after: string, class_: Class)
    requires AllIn(part, class_)
    ensures RunOf(part + after, class_) == |part| + RunOf(after, class_)
  {
    var s := part + after;
    if part == [] {
      assert s == after;
    } else {
      RunOfCovers(part[1..], after, class_);
      assert s[1..] == part[1..] + after;
    }
  }

  lemma LeadTakes(part: string, after: string, f: Field)
    requires FitsField(part, f)
    requires after != [] ==> f.most == Some(|part|) || !In(after[0], f.class_)
    ensures Lead(part + after, f) == |part|
  {
    RunOfCovers(part, after, f.class_);
  }

  /** What fits a sharp pattern is found, part by part, with anything behind it. */
  lemma {:induction false} FittingIsTaken(parts: seq<string>, pattern: Pattern, rest: string)
    requires Fits(parts, pattern) && Sharp(pattern) && Whole(parts, pattern, rest)
    ensures Take(Concat(parts) + rest, pattern) == Some(parts)
  {
    if pattern != [] {
      var after := Concat(parts[1..]) + rest;
      assert Concat(parts) + rest == parts[0] + after;
      if |pattern| > 1 {
        SharpIsNotEmpty(parts[1..], pattern[1..]);
        BeginsAsPattern(parts[1..], pattern[1..]);
        assert after[0] == Concat(parts[1..])[0];
      } else {
        assert after == rest;
      }
      LeadTakes(parts[0], after, pattern[0]);
      FittingIsTaken(parts[1..], pattern[1..], rest);
      assert (parts[0] + after)[|parts[0]|..] == after;
      assert parts == [parts[0]] + parts[1..];
    }
  }

  /** The matcher is right: it answers with a split of the text's start exactly when the split fits and is not cut short. */
  lemma TakeIffFits(s: string, pattern: Pattern, parts: seq<string>)
    requires Sharp(pattern)
    ensures Take(s, pattern) == Some(parts)
            <==> Fits(parts, pattern) && Concat(parts) <= s && Whole(parts, pattern, s[|Concat(parts)|..])
  {
    if Take(s, pattern) == Some(parts) { TakenIsWhole(s, pattern); }
    if Fits(parts, pattern) && Concat(parts) <= s && Whole(parts, pattern, s[|Concat(parts)|..]) {
      var rest := s[|Concat(parts)|..];
      FittingIsTaken(parts, pattern, rest);
      assert s == Concat(parts) + rest;
    }
  }

  lemma {:induction false} TakenIsWhole(s: string, pattern: Pattern)
    requires Take(s, pattern).Some?
    ensures
      var parts := Take(s, pattern).value;
      Fits(parts, pattern) && Concat(parts) <= s && Whole(parts, pattern, s[|Concat(parts)|..])
    decreases |pattern|
  {
    TakenFits(s, pattern);
    if |pattern| == 1 {
      OnlyPart(s, pattern);
    } else if pattern != [] {
      var n := Lead(s, pattern[0]);
      TakenFits(s[n..], pattern[1..]);
      TakenIsWhole(s[n..], pattern[1..]);
      WholeAfter(s, n, Take(s[n..], pattern[1..]).value, pattern);
    }
  }

  lemma OnlyPart(s: string, pattern: Pattern)
    requires |pattern| == 1 && Take(s, pattern).Some?
    ensures
      var n := Lead(s, pattern[0]);
      Take(s, pattern).value == [s[..n]] && Concat([s[..n]]) == s[..n]
  {
    var n := Lead(s, pattern[0]);
    assert Take(s[n..], pattern[1..]) == Some([]);
  }

  lemma WholeAfter(s: string, n: nat, rest: seq<string>, pattern: Pattern)
    requires n <= |s| && |pattern| > 1 && |rest| == |pattern| - 1
    requires Concat(rest) <= s[n..] && Whole(rest, pattern[1..], s[n..][|Concat(rest)|..])
    ensures Whole([s[..n]] + rest, pattern, s[|Concat([s[..n]] + rest)|..])
  {
    var parts := [s[..n]] + rest;
    assert parts[1..] == rest;
    assert s[|Concat(parts)|..] == s[n..][|Concat(rest)|..];
    assert parts[|parts| - 1] == rest[|rest| - 1];
  }

  lemma PrefixSplits(a: string, next: string, s: string)
    requires a + next <= s
    ensures |a| <= |s| && s == a + s[|a|..] && next <= s[|a|..]
  {
    assert s == (a + next) + s[|a + next|..];
    assert s[|a|..] == next + s[|a + next|..];
  }

  /** What fits, before something its last class does not hold. */
  lemma TakenBefore(s: string, pattern: Pattern, parts: seq<string>, next: string)
    requires Sharp(pattern) && Fits(parts, pattern) && pattern != []
    requires Concat(parts) + next <= s && next != [] && !In(next[0], pattern[|pattern| - 1].class_)
    ensures Take(s, pattern) == Some(parts)
    ensures |Concat(parts)| <= |s| && next <= s[|Concat(parts)|..]
  {
    PrefixSplits(Concat(parts), next, s);
    var rest := s[|Concat(parts)|..];
    assert Whole(parts, pattern, rest) by { assert next[0] == rest[0]; }
    FittingIsTaken(parts, pattern, rest);
  }

  // A pattern for the whole text

  /** `^...$` */
  function FullMatch(s: string, pattern: Pattern): (parts: Option<seq<string>>)
    ensures parts.Some? ==> |parts.value| == |pattern|
  {
    var parts := Take(s, pattern);
    if parts.Some? && |Concat(parts.value)| == |s| then parts else None
  }

  lemma FullMatchIff(s: string, pattern: Pattern, parts: seq<string>)
    requires Sharp(pattern)
    ensures FullMatch(s, pattern) == Some(parts) <==> Fits(parts, pattern) && Concat(parts) == s
  {
    TakeIffFits(s, pattern, parts);
    if Fits(parts, pattern) && Concat(parts) == s { assert s[|Concat(parts)|..] == []; }
  }

  /** A character of no class of the pattern is in no match. */
  lemma {:induction false} NowhereIn(parts: seq<string>, pattern: Pattern, c: char)
    requires Fits(parts, pattern) && forall i :: 0 <= i < |pattern| ==> !In(c, pattern[i].class_)
    ensures c !in Concat(parts)
  {
    if parts != [] { NowhereIn(parts[1..], pattern[1..], c); }
  }

  lemma {:induction false} ConcatJoins(a: seq<string>, b: seq<string>)
    ensures Concat(a + b) == Concat(a) + Concat(b)
  {
    if a == [] {
      assert a + b == b;
    } else {
      assert (a + b)[1..] == a[1..] + b;
      ConcatJoins(a[1..], b);
    }
  }
}
