/** Python's `<=` on strings: by code point, a prefix first. */
module Texts {
  predicate LexLe(a: string, b: string) {
    a == [] || (b != [] && (a[0] < b[0] || (a[0] == b[0] && LexLe(a[1..], b[1..]))))
  }

  function LexMin(a: string, b: string): (m: string)
    ensures m == a || m == b
    ensures LexLe(m, a) && LexLe(m, b)
  {
    LexTotal(a, b);
    LexTotal(a, a);
    LexTotal(b, b);
    if LexLe(a, b) then a else b
  }

  lemma {:induction false} LexTotal(a: string, b: string)
    ensures LexLe(a, b) || LexLe(b, a)
  {
    if a != [] && b != [] { LexTotal(a[1..], b[1..]); }
  }

  lemma {:induction false} LexAntisymmetric(a: string, b: string)
    requires LexLe(a, b) && LexLe(b, a)
    ensures a == b
  {
    if a != [] && b != [] {
      LexAntisymmetric(a[1..], b[1..]);
      assert a == [a[0]] + a[1..] && b == [b[0]] + b[1..];
    }
  }

  lemma {:induction false} LexTransitive(a: string, b: string, c: string)
    requires LexLe(a, b) && LexLe(b, c)
    ensures LexLe(a, c)
  {
    if a != [] && b != [] && c != [] && a[0] == b[0] == c[0] {
      LexTransitive(a[1..], b[1..], c[1..]);
    }
  }

  /** The first difference decides. */
  lemma {:induction false} FirstDifference(p: string, c: char, s: string, d: char, t: string)
    requires c < d
    ensures LexLe(p + [c] + s, p + [d] + t) && !LexLe(p + [d] + t, p + [c] + s)
  {
    var a, b := p + [c] + s, p + [d] + t;
    if p != [] {
      FirstDifference(p[1..], c, s, d, t);
      assert a[1..] == p[1..] + [c] + s && b[1..] == p[1..] + [d] + t;
    }
  }

  /** A text comes before what continues it. */
  lemma {:induction false} ShorterFirst(p: string, s: string)
    ensures LexLe(p, p + s) && (s != [] ==> !LexLe(p + s, p))
  {
    if p != [] {
      ShorterFirst(p[1..], s);
      assert (p + s)[1..] == p[1..] + s;
    }
  }

  // Spaces

  /** `str.isspace` of one character, which is also what `strip` drops and `\s` matches. */
  predicate IsSpace(c: char) {
    '\t' <= c <= '\r' || '\U{001C}' <= c <= ' ' || '\U{2000}' <= c <= '\U{200A}'
    || c in {'\U{0085}', '\U{00A0}', '\U{1680}', '\U{2028}', '\U{2029}', '\U{202F}', '\U{205F}', '\U{3000}'}
  }

  function TrimStart(s: string, drop: char -> bool): string {
    if s != [] && drop(s[0]) then TrimStart(s[1..], drop) else s
  }

  function TrimEnd(s: string, drop: char -> bool): string {
    if s != [] && drop(s[|s| - 1]) then TrimEnd(s[..|s| - 1], drop) else s
  }

  function Trim(s: string, drop: char -> bool): string {
    TrimEnd(TrimStart(s, drop), drop)
  }

  /** What is trimmed is all of `drop`, and what is left neither starts nor ends with it. */
  lemma {:induction false} TrimmedEnd(s: string, drop: char -> bool)
    ensures TrimEnd(s, drop) <= s && forall i :: |TrimEnd(s, drop)| <= i < |s| ==> drop(s[i])
    ensures TrimEnd(s, drop) != [] ==> !drop(TrimEnd(s, drop)[|TrimEnd(s, drop)| - 1])
  {
    if s != [] && drop(s[|s| - 1]) { TrimmedEnd(s[..|s| - 1], drop); }
  }

  lemma {:induction false} TrimmedStart(s: string, drop: char -> bool)
    ensures |TrimStart(s, drop)| <= |s| && TrimStart(s, drop) == s[|s| - |TrimStart(s, drop)|..]
    ensures forall i :: 0 <= i < |s| - |TrimStart(s, drop)| ==> drop(s[i])
    ensures TrimStart(s, drop) != [] ==> !drop(TrimStart(s, drop)[0])
  {
    if s != [] && drop(s[0]) {
      TrimmedStart(s[1..], drop);
      assert forall i :: 1 <= i < |s| ==> s[i] == s[1..][i - 1];
    }
  }

  /** What `strip` leaves: all but what is dropped before it and after it. */
  lemma TrimmedIs(s: string, drop: char -> bool) returns (i: nat, j: nat)
    ensures i <= j <= |s| && Trim(s, drop) == s[i..j]
    ensures forall k :: 0 <= k < i || j <= k < |s| ==> drop(s[k])
    ensures i < j ==> !drop(s[i]) && !drop(s[j - 1])
  {
    var rest := TrimStart(s, drop);
    TrimmedStart(s, drop);
    TrimmedEnd(rest, drop);
    i := |s| - |rest|;
    j := i + |TrimEnd(rest, drop)|;
    forall k | j <= k < |s|
      ensures drop(s[k])
    {
      assert s[k] == rest[k - i];
    }
  }

  /** The spaces of a text an operator types, and none of what a name is made of. */
  lemma SpacesAre()
    ensures forall c :: c in " \t\n\r" ==> IsSpace(c)
    ensures forall c: char :: '!' <= c <= '~' || 'А' <= c <= 'я' ==> !IsSpace(c)
  {
  }
}
