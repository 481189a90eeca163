/**
 `Lane.env`: the limit a lane's child reads from its environment. The entry is appended to a
 text an operator may have written in any way the parser takes, so the promise is about the
 parser's answer, not about the text.
 */
module LaneEnv {
  import opened Wrappers
  import opened Texts

  type Limits = map<string, int>

  predicate IsComma(c: char) { c == ',' }

  /** `s.split(",")` */
  function Split(s: string): (items: seq<string>)
    ensures items != []
  {
    if s == [] then [""]
    else
      var rest := Split(s[1..]);
      if s[0] == ',' then [""] + rest else [[s[0]] + rest[0]] + rest[1..]
  }

  /** `item.partition("=")`: what stands before and after the first sign, if there is one. */
  function AtSign(s: string): Option<(string, string)> {
    if s == [] then None
    else if s[0] == '=' then Some(("", s[1..]))
    else match AtSign(s[1..])
      case None => None
      case Some(parts) => Some(([s[0]] + parts.0, parts.1))
  }

  /** What `int` and `str.lower` make of a text, which this model leaves open. */
  datatype Reader = Reader(int_: string -> Option<int>, lower: string -> string)

  /** One entry `host=limit` taken into the limits; nothing when the parser raises. */
  function TakeItem(reader: Reader, item: string, limits: Limits): Option<Limits> {
    var text := Trim(item, IsSpace);
    if text == [] then Some(limits)
    else match AtSign(text)
      case None => None
      case Some(parts) =>
        var host := reader.lower(Trim(parts.0, IsSpace));
        var limit := reader.int_(Trim(parts.1, IsSpace));
        if host == [] || limit.None? || limit.value < 1 then None else Some(limits[host := limit.value])
  }

  function TakeItems(reader: Reader, items: seq<string>, limits: Option<Limits>): Option<Limits> {
    if items == [] || limits.None? then limits
    else TakeItems(reader, items[1..], TakeItem(reader, items[0], limits.value))
  }

  /** `_domain_limits` */
  function DomainLimits(reader: Reader, raw: string): Option<Limits> {
    var text := Trim(raw, IsSpace);
    if text == [] then Some(map[]) else TakeItems(reader, Split(text), Some(map[]))
  }

  /** `Lane.env` of a shared lane. */
  function ChildEntry(raw: string, host: string): string {
    var current := Trim(Trim(raw, IsSpace), IsComma);
    var entry := host + "=1";
    if current != [] then current + "," + entry else entry
  }

  // What the parser makes of a text does not depend on spaces and commas around it

  function Taken(reader: Reader, s: string): Option<Limits> {
    TakeItems(reader, Split(s), Some(map[]))
  }

  lemma {:induction false} ItemsInTurn(reader: Reader, a: seq<string>, b: seq<string>, limits: Option<Limits>)
    ensures TakeItems(reader, a + b, limits) == TakeItems(reader, b, TakeItems(reader, a, limits))
  {
    if a == [] {
      assert a + b == b;
    } else if limits.Some? {
      assert (a + b)[1..] == a[1..] + b;
      ItemsInTurn(reader, a[1..], b, TakeItem(reader, a[0], limits.value));
    }
  }

  lemma {:induction false} SplitJoins(a: string, b: string)
    ensures Split(a + "," + b) == Split(a) + Split(b)
  {
    if a == [] {
      assert a + "," + b == "," + b;
    } else {
      assert (a + "," + b)[1..] == a[1..] + "," + b;
      SplitJoins(a[1..], b);
    }
  }

  lemma {:induction false} SplitEndsWith(a: string, c: char)
    requires c != ','
    ensures
      var items := Split(a);
      Split(a + [c]) == items[..|items| - 1] + [items[|items| - 1] + [c]]
  {
    var items, s := Split(a), a + [c];
    if a == [] {
      var none: string := "";
      assert s[1..] == none && Split(none) == [none] && items == [none];
      assert Split(s) == [[c] + none] + [none][1..];
      assert [c] + none == none + [c];
    } else {
      assert s[1..] == a[1..] + [c];
      SplitEndsWith(a[1..], c);
      var rest, more := Split(a[1..]), Split(s[1..]);
      assert |more| == |rest|;
      if a[0] != ',' {
        assert Split(s) == [[a[0]] + more[0]] + more[1..];
        if |rest| == 1 { assert [a[0]] + more[0] == items[0] + [c]; }
      }
    }
  }

  lemma {:induction false} TrimStartOfEnd(s: string, c: char, drop: char -> bool)
    requires drop(c)
    ensures TrimStart(s + [c], drop) == if TrimStart(s, drop) == [] then [] else TrimStart(s, drop) + [c]
  {
    if s == [] {
      assert s + [c] == [c];
      assert [c][1..] == [];
    } else if drop(s[0]) {
      assert (s + [c])[1..] == s[1..] + [c];
      TrimStartOfEnd(s[1..], c, drop);
    }
  }

  lemma TrimDropsEnd(s: string, c: char, drop: char -> bool)
    requires drop(c)
    ensures Trim(s + [c], drop) == Trim(s, drop)
  {
    TrimStartOfEnd(s, c, drop);
    var t := TrimStart(s, drop);
    if t != [] { assert (t + [c])[..|t|] == t; }
  }

  lemma TrimDropsStart(s: string, c: char, drop: char -> bool)
    requires drop(c)
    ensures Trim([c] + s, drop) == Trim(s, drop)
  {
    assert ([c] + s)[1..] == s;
  }

  /** One space or comma at the start changes nothing. */
  lemma StartDoesNotMatter(reader: Reader, c: char, s: string)
    requires IsSpace(c) || IsComma(c)
    ensures Taken(reader, [c] + s) == Taken(reader, s)
  {
    var items := Split(s);
    assert ([c] + s)[1..] == s;
    if c != ',' { TrimDropsStart(items[0], c, IsSpace); }
  }

  lemma EndDoesNotMatter(reader: Reader, c: char, s: string)
    requires IsSpace(c) || IsComma(c)
    ensures Taken(reader, s + [c]) == Taken(reader, s)
  {
    var items := Split(s);
    if c == ',' {
      assert s + [c] == s + "," + "";
      SplitJoins(s, "");
      ItemsInTurn(reader, items, [""], Some(map[]));
    } else {
      SplitEndsWith(s, c);
      var n := |items| - 1;
      TrimDropsEnd(items[n], c, IsSpace);
      ItemsInTurn(reader, items[..n], [items[n]], Some(map[]));
      ItemsInTurn(reader, items[..n], [items[n] + [c]], Some(map[]));
      assert items == items[..n] + [items[n]];
    }
  }

  lemma {:induction false} TrimStartDoesNotMatter(reader: Reader, s: string, drop: char -> bool)
    requires forall c :: drop(c) ==> IsSpace(c) || IsComma(c)
    ensures Taken(reader, TrimStart(s, drop)) == Taken(reader, s)
  {
    if s != [] && drop(s[0]) {
      assert s == [s[0]] + s[1..];
      StartDoesNotMatter(reader, s[0], s[1..]);
      TrimStartDoesNotMatter(reader, s[1..], drop);
    }
  }

  lemma {:induction false} TrimEndDoesNotMatter(reader: Reader, s: string, drop: char -> bool)
    requires forall c :: drop(c) ==> IsSpace(c) || IsComma(c)
    ensures Taken(reader, TrimEnd(s, drop)) == Taken(reader, s)
  {
    if s != [] && drop(s[|s| - 1]) {
      var n := |s| - 1;
      assert s == s[..n] + [s[n]];
      EndDoesNotMatter(reader, s[n], s[..n]);
      TrimEndDoesNotMatter(reader, s[..n], drop);
    }
  }

  lemma TrimDoesNotMatter(reader: Reader, s: string, drop: char -> bool)
    requires forall c :: drop(c) ==> IsSpace(c) || IsComma(c)
    ensures Taken(reader, Trim(s, drop)) == Taken(reader, s)
  {
    TrimStartDoesNotMatter(reader, s, drop);
    TrimEndDoesNotMatter(reader, TrimStart(s, drop), drop);
  }

  lemma LimitsAreTaken(reader: Reader, raw: string)
    ensures DomainLimits(reader, raw) == Taken(reader, raw)
  {
    TrimDoesNotMatter(reader, raw, IsSpace);
    NothingTaken(reader);
  }

  lemma NothingTaken(reader: Reader)
    ensures Taken(reader, "") == Some(map[])
  {
    var none: string, limits: Limits := "", map[];
    assert Split(none) == [none];
    assert TakeItem(reader, none, limits) == Some(limits);
    assert TakeItems(reader, [none], Some(limits)) == TakeItems(reader, [none][1..], Some(limits));
    assert [none][1..] == [];
  }

  // What the parser reads

  lemma {:induction false} NothingDropped(s: string, drop: char -> bool)
    requires s != [] && !drop(s[0]) && !drop(s[|s| - 1])
    ensures Trim(s, drop) == s
  {
  }

  /** `host=limit` sets the limit of the host, if the limit is a number of one or more; else the text is refused. */
  lemma EntryIs(reader: Reader, host: string, number: string, limits: Limits)
    requires host != [] && '=' !in host && !IsSpace(host[0]) && !IsSpace(host[|host| - 1])
    requires number != [] && !IsSpace(number[0]) && !IsSpace(number[|number| - 1])
    ensures
      var limit := reader.int_(number);
      TakeItem(reader, host + "=" + number, limits)
      == if reader.lower(host) != [] && limit.Some? && limit.value >= 1
         then Some(limits[reader.lower(host) := limit.value]) else None
  {
    var item := host + "=" + number;
    assert item[0] == host[0] && item[|item| - 1] == number[|number| - 1];
    NothingDropped(item, IsSpace);
    NothingDropped(host, IsSpace);
    NothingDropped(number, IsSpace);
    SignSplits(host, number);
  }

  /** A blank entry is passed over; any other without the sign is refused. */
  lemma NoSign(reader: Reader, item: string, limits: Limits)
    requires '=' !in item
    ensures TakeItem(reader, item, limits)
            == if forall i :: 0 <= i < |item| ==> IsSpace(item[i]) then Some(limits) else None
  {
    var i, j := TrimmedIs(item, IsSpace);
    var text := Trim(item, IsSpace);
    assert forall k :: 0 <= k < |text| ==> text[k] in item;
    NoSignFound(text);
    if text != [] { assert !IsSpace(item[i]); }
  }

  lemma {:induction false} NoSignFound(s: string)
    requires '=' !in s
    ensures AtSign(s) == None
  {
    if s != [] { NoSignFound(s[1..]); }
  }

  /** The entries are taken in turn, the last over those before it; one that is refused refuses the text. */
  lemma EntriesInTurn(reader: Reader, raw: string, last: string)
    requires ',' !in last
    ensures
      var before := DomainLimits(reader, raw);
      DomainLimits(reader, raw + "," + last) == if before.None? then None else TakeItem(reader, last, before.value)
  {
    LimitsAreTaken(reader, raw);
    LimitsAreTaken(reader, raw + "," + last);
    SplitJoins(raw, last);
    NoCommaOneItem(last);
    ItemsInTurn(reader, Split(raw), [last], Some(map[]));
    var before := Taken(reader, raw);
    if before.Some? { assert [last][1..] == [] && [last][0] == last; }
  }

  // The lane's entry

  /** A host as a URL gives it. */
  ghost predicate IsHost(reader: Reader, host: string) {
    && host != [] && !IsSpace(host[0]) && !IsSpace(host[|host| - 1])
    && ',' !in host && '=' !in host && reader.lower(host) != []
  }

  lemma {:induction false} NoCommaOneItem(s: string)
    requires ',' !in s
    ensures Split(s) == [s]
  {
    if s != [] {
      NoCommaOneItem(s[1..]);
      assert s == [s[0]] + s[1..];
    }
  }

  lemma {:induction false} SignSplits(a: string, b: string)
    requires '=' !in a
    ensures AtSign(a + "=" + b) == Some((a, b))
  {
    if a == [] {
      assert a + "=" + b == "=" + b;
    } else {
      assert (a + "=" + b)[1..] == a[1..] + "=" + b;
      SignSplits(a[1..], b);
      assert a == [a[0]] + a[1..];
    }
  }

  lemma EntryIsTaken(reader: Reader, host: string, limits: Limits)
    requires IsHost(reader, host) && reader.int_("1") == Some(1)
    ensures Split(host + "=1") == [host + "=1"]
    ensures TakeItem(reader, host + "=1", limits) == Some(limits[reader.lower(host) := 1])
  {
    NoCommaOneItem(host + "=1");
    assert host + "=1" == host + "=" + "1";
    SignSplits(host, "1");
  }

  /**
   The child of a shared lane reads the limits its parent read, with one request for its own host
   in place of whatever stood there.
   */
  lemma ChildReadsOneRequest(reader: Reader, raw: string, host: string, limits: Limits)
    requires IsHost(reader, host) && reader.int_("1") == Some(1)
    requires DomainLimits(reader, raw) == Some(limits)
    ensures DomainLimits(reader, ChildEntry(raw, host)) == Some(limits[reader.lower(host) := 1])
  {
    var spaced := Trim(raw, IsSpace);
    var current := Trim(spaced, IsComma);
    LimitsAreTaken(reader, raw);
    TrimDoesNotMatter(reader, raw, IsSpace);
    TrimDoesNotMatter(reader, spaced, IsComma);
    LimitsAreTaken(reader, ChildEntry(raw, host));
    if current != [] {
      EntryAfter(reader, current, host, limits);
    } else {
      NothingTaken(reader);
      OneEntry(reader, host, limits);
    }
  }

  lemma OneEntry(reader: Reader, host: string, limits: Limits)
    requires IsHost(reader, host) && reader.int_("1") == Some(1)
    ensures TakeItems(reader, Split(host + "=1"), Some(limits)) == Some(limits[reader.lower(host) := 1])
  {
    EntryIsTaken(reader, host, limits);
    var entry := host + "=1";
    assert [entry][1..] == [] && [entry][0] == entry;
  }

  lemma EntryAfter(reader: Reader, current: string, host: string, limits: Limits)
    requires IsHost(reader, host) && reader.int_("1") == Some(1)
    requires Taken(reader, current) == Some(limits)
    ensures Taken(reader, current + "," + (host + "=1")) == Some(limits[reader.lower(host) := 1])
  {
    SplitJoins(current, host + "=1");
    ItemsInTurn(reader, Split(current), Split(host + "=1"), Some(map[]));
    OneEntry(reader, host, limits);
  }
}
