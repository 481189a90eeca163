/** The night's cycle: waiting for the loads, the deadline of a step, and the log it leaves. */
module Cycle {
  import opened Wrappers
  import opened Texts

  // Waiting for the loads

  const WAIT_LIMIT: real := 7200.0
  const POLL: real := 30.0
  const MOST_SLEEPS: nat := 240

  datatype Wait = Proceed | StillRunning | NothingLoaded

  /**
   What the poller meets: whether a load is active at its k-th look, the clock just after that
   look, and whether a load ended recently.
   */
  datatype Night = Night(start: real, active: nat -> bool, clock: nat -> real, loadedRecently: bool) {
    /** A sleep takes its thirty seconds, and everything else only adds to it. */
    ghost predicate Valid() {
      && clock(0) >= start
      && forall k: nat :: clock(k + 1) >= clock(k) + POLL
    }

    predicate Waits(k: nat) { active(k) && clock(k) < start + WAIT_LIMIT }

    /** The first look, if any, at which the poller stops waiting. */
    ghost predicate StopsAt(k: nat) {
      !Waits(k) && forall j: nat :: j < k ==> Waits(j)
    }
  }

  /**
   The cycle starts only after a look that found no load active, every look before it having
   found one within the limit, and only when a load ended recently. It stops within 240 sleeps.
   */
  method WaitForLoad(night: Night) returns (wait: Wait, sleeps: nat)
    requires night.Valid()
    ensures night.StopsAt(sleeps) && sleeps <= 240
    ensures forall k: nat :: k < sleeps ==> night.active(k) && night.clock(k) < night.start + 7200.0
    ensures wait.StillRunning? ==> night.clock(sleeps) >= night.start + 7200.0
    ensures forall k: nat :: night.StopsAt(k) ==> k == sleeps
    ensures wait == if night.active(sleeps) then StillRunning
                    else if night.loadedRecently then Proceed else NothingLoaded
  {
    sleeps := 0;
    while night.active(sleeps)
      invariant night.clock(sleeps) >= night.start + POLL * sleeps as real
      invariant sleeps <= MOST_SLEEPS
      invariant forall j: nat :: j < sleeps ==> night.Waits(j)
      invariant forall j: nat :: j < sleeps ==> night.active(j) && night.clock(j) < night.start + WAIT_LIMIT
      decreases MOST_SLEEPS - sleeps
    {
      if night.clock(sleeps) >= night.start + WAIT_LIMIT { return StillRunning, sleeps; }
      assert night.clock(sleeps + 1) >= night.clock(sleeps) + POLL;
      sleeps := sleeps + 1;
    }
    wait := if night.loadedRecently then Proceed else NothingLoaded;
  }

  // The part of a log that is new

  const ANCHOR: nat := 200

  function Tail(s: string): string {
    if |s| <= ANCHOR then s else s[|s| - ANCHOR..]
  }

  /** `text.find(part)` */
  function Find(text: string, part: string): (at: Option<nat>)
    ensures at.Some? ==> at.value + |part| <= |text| && text[at.value..at.value + |part|] == part
    decreases |text|
  {
    if |part| <= |text| && text[..|part|] == part then Some(0)
    else if text == [] then None
    else match Find(text[1..], part)
      case None => None
      case Some(i) =>
        assert text[1 + i..1 + i + |part|] == text[1..][i..i + |part|];
        Some(i + 1)
  }

  predicate OccursAt(text: string, part: string, at: nat) {
    at + |part| <= |text| && text[at..at + |part|] == part
  }

  lemma {:induction false} FindIsFirst(text: string, part: string, at: nat)
    requires OccursAt(text, part, at)
    ensures Find(text, part).Some? && Find(text, part).value <= at
    decreases |text|
  {
    if at > 0 {
      assert text[1..][at - 1..at - 1 + |part|] == text[at..at + |part|];
      FindIsFirst(text[1..], part, at - 1);
    }
  }

  function NewPart(previous: string, current: string): string {
    if previous == [] || previous <= current then current[|previous|..]
    else match Find(current, Tail(previous))
      case None => current
      case Some(at) => current[at + |Tail(previous)|..]
  }

  predicate EndsWith(text: string, end: string) { |end| <= |text| && text[|text| - |end|..] == end }

  /** The last two hundred characters of a text, or all of it. */
  lemma TailIsEnd(s: string)
    ensures EndsWith(s, Tail(s)) && |Tail(s)| == if |s| <= 200 then |s| else 200
  {
  }

  lemma FirstPlaceSplits(text: string, part: string, at: nat)
    requires OccursAt(text, part, at) && forall i: nat :: i < at ==> !OccursAt(text, part, i)
    ensures Find(text, part) == Some(at) && text == text[..at] + part + text[at + |part|..]
  {
    FindIsFirst(text, part, at);
    var found := Find(text, part).value;
    assert OccursAt(text, part, found);
    assert text[at..at + |part|] == part;
  }

  /**
   The piece is always an end of the current text: what follows the whole previous text where the
   current reads on from it, else what follows the first place of the previous one's last two hundred
   characters, else all of it.
   */
  lemma NewPartIs(previous: string, current: string)
    ensures
      var piece := NewPart(previous, current);
      && EndsWith(current, piece)
      && (previous <= current ==> current == previous + piece)
      && (!(previous <= current) && (forall at: nat :: !OccursAt(current, Tail(previous), at)) ==> piece == current)
      && (!(previous <= current) ==>
            forall at: nat :: OccursAt(current, Tail(previous), at) && (forall i: nat :: i < at ==> !OccursAt(current, Tail(previous), i))
              ==> current == current[..at] + Tail(previous) + piece)
  {
    var anchor, piece := Tail(previous), NewPart(previous, current);
    FindIffOccurs(current, anchor);
    if !(previous <= current) {
      forall at: nat | OccursAt(current, anchor, at) && forall i: nat :: i < at ==> !OccursAt(current, anchor, i)
        ensures current == current[..at] + anchor + piece
      {
        FirstPlaceSplits(current, anchor, at);
      }
    }
  }

  function Joined(pieces: seq<string>): string {
    if pieces == [] then [] else Joined(pieces[..|pieces| - 1]) + pieces[|pieces| - 1]
  }

  /** What is logged of the texts of one stream, each handed over in turn. */
  function Pieces(texts: seq<string>): seq<string> {
    if texts == [] then []
    else if |texts| == 1 then [NewPart([], texts[0])]
    else Pieces(texts[..|texts| - 1]) + [NewPart(texts[|texts| - 2], texts[|texts| - 1])]
  }

  ghost predicate Grows(texts: seq<string>) {
    forall i :: 0 <= i < |texts| - 1 ==> texts[i] <= texts[i + 1]
  }

  /** While the output only grows, the pieces make up the text, each part of it once. */
  lemma {:induction false} GrowingOutputIsLoggedOnce(texts: seq<string>)
    requires texts != [] && Grows(texts)
    ensures Joined(Pieces(texts)) == texts[|texts| - 1]
  {
    var n := |texts| - 1;
    if n == 0 {
      assert [NewPart([], texts[0])][..0] == [];
    } else {
      var before := Pieces(texts[..n]);
      GrowingOutputIsLoggedOnce(texts[..n]);
      assert texts[n - 1] <= texts[n];
      assert (before + [NewPart(texts[n - 1], texts[n])])[..|before|] == before;
    }
  }

  /** The tail has slid: `gone` characters fell off its start, `added` came at its end. */
  ghost predicate Slid(previous: string, current: string, gone: nat, added: string) {
    0 < gone <= |previous| && current == previous[gone..] + added
  }

  /**
   A slid tail that still holds the anchor gives up all the new text, after what of the old the
   anchor's first place lets in again.
   */
  lemma SlidTailGivesAllNewText(previous: string, current: string, gone: nat, added: string)
    requires Slid(previous, current, gone, added) && |previous| - gone >= |Tail(previous)|
    requires !(previous <= current)
    ensures
      var piece := NewPart(previous, current);
      |added| <= |piece| && piece[|piece| - |added|..] == added
  {
    var anchor := Tail(previous);
    var at := |previous| - gone - |anchor|;
    assert current[at..at + |anchor|] == previous[gone..][at..at + |anchor|];
    assert previous[gone..][at..at + |anchor|] == previous[|previous| - |anchor|..];
    FindIsFirst(current, anchor, at);
    var found := Find(current, anchor).value;
    var piece := current[found + |anchor|..];
    assert piece[|piece| - |added|..] == current[|current| - |added|..];
  }

  /** It gives the new text and nothing else exactly when the anchor stands nowhere earlier in the tail. */
  lemma SlidTailGivesOnlyNewTextIff(previous: string, current: string, gone: nat, added: string)
    requires Slid(previous, current, gone, added) && |previous| - gone >= |Tail(previous)|
    requires !(previous <= current)
    ensures NewPart(previous, current) == added
            <==> forall i: nat :: i < |previous| - gone - |Tail(previous)| ==> !OccursAt(current, Tail(previous), i)
  {
    var anchor := Tail(previous);
    var at := |previous| - gone - |anchor|;
    SlidTailGivesAllNewText(previous, current, gone, added);
    assert current[at..at + |anchor|] == previous[gone..][at..at + |anchor|];
    assert previous[gone..][at..at + |anchor|] == previous[|previous| - |anchor|..];
    FindIsFirst(current, anchor, at);
    var found := Find(current, anchor).value;
    assert OccursAt(current, anchor, found);
    assert |NewPart(previous, current)| == |current| - found - |anchor|;
    if i: nat :| i < at && OccursAt(current, anchor, i) { FindIsFirst(current, anchor, i); }
    if found == at { assert current[at + |anchor|..] == added; }
  }

  /**
   But a slid tail that reads on from the whole of the previous one is taken for growth: as many
   characters of the new text as fell off the start are never logged.
   */
  lemma RepetitiveSlideLosesText(previous: string, current: string, gone: nat, added: string)
    requires Slid(previous, current, gone, added) && previous <= current
    ensures |added| >= gone && NewPart(previous, current) == added[gone..]
  {
    assert current[|previous|..] == added[gone..];
  }

  lemma AnchorInNewTextLoses(previous: string, current: string, gone: nat, added: string)
    requires Slid(previous, current, gone, added) && |previous| - gone < |Tail(previous)|
    requires !(previous <= current) && Find(current, Tail(previous)).Some?
    ensures |NewPart(previous, current)| < |added|
  {
  }

  lemma NoAnchorGivesAll(previous: string, current: string, gone: nat, added: string)
    requires Slid(previous, current, gone, added) && !(previous <= current) && Find(current, Tail(previous)).None?
    ensures EndsWith(NewPart(previous, current), added)
  {
    assert current[|previous| - gone..] == added;
  }

  lemma FindIffOccurs(text: string, part: string)
    ensures Find(text, part).Some? <==> exists at: nat :: OccursAt(text, part, at)
  {
    if at: nat :| OccursAt(text, part, at) { FindIsFirst(text, part, at); }
    var found := Find(text, part);
    if found.Some? { assert OccursAt(text, part, found.value); }
  }

  /**
   What a slid tail adds reaches the log, all of it, exactly when the tail does not read on from the
   whole of the previous one, and either still holds the anchor or shows it nowhere in the new text.
   */
  lemma SlidTailLosesNothingIff(previous: string, current: string, gone: nat, added: string)
    requires Slid(previous, current, gone, added)
    ensures EndsWith(NewPart(previous, current), added)
            <==> !(previous <= current)
                 && (|previous| - gone >= |Tail(previous)| || !exists at: nat :: OccursAt(current, Tail(previous), at))
  {
    FindIffOccurs(current, Tail(previous));
    if previous <= current {
      RepetitiveSlideLosesText(previous, current, gone, added);
    } else if |previous| - gone >= |Tail(previous)| {
      SlidTailGivesAllNewText(previous, current, gone, added);
    } else if Find(current, Tail(previous)).Some? {
      AnchorInNewTextLoses(previous, current, gone, added);
    } else {
      NoAnchorGivesAll(previous, current, gone, added);
    }
  }

  /** What the registry keeps of an output. */
  const OUTPUT_LIMIT: nat := 20_000

  function Repeated(line: string, n: nat): (text: string)
    ensures |text| == n * |line|
  {
    if n == 0 then "" else line + Repeated(line, n - 1)
  }

  lemma {:induction false} RepeatsTurn(line: string, n: nat)
    ensures Repeated(line, n) + line == line + Repeated(line, n)
  {
    if n > 0 {
      RepeatsTurn(line, n - 1);
      assert Repeated(line, n) + line == line + (Repeated(line, n - 1) + line);
    }
  }

  /** A tail full of one line that is written once more: the line is not logged. */
  lemma RepeatedLineIsNotLogged(line: string, n: nat)
    requires line != [] && n > 0
    ensures
      var tail := Repeated(line, n);
      Slid(tail, tail, |line|, line) && NewPart(tail, tail) == ""
  {
    var tail := Repeated(line, n);
    RepeatsTurn(line, n - 1);
    assert tail[|line|..] == Repeated(line, n - 1);
    RepetitiveSlideLosesText(tail, tail, |line|, line);
  }

  /** A full tail: 2500 lines of eight characters. */
  lemma RepetitiveSlideExample()
    ensures
      var tail := Repeated("waiting\n", 2500);
      |tail| == OUTPUT_LIMIT && Slid(tail, tail, 8, "waiting\n") && NewPart(tail, tail) == ""
  {
    RepeatedLineIsNotLogged("waiting\n", 2500);
  }

  // What reaches the log

  /** A piece as it is logged: without its trailing spaces, and not at all when nothing is left. */
  function Shown(piece: string): seq<string> {
    var text := TrimEnd(piece, IsSpace);
    if text == [] then [] else [text]
  }

  lemma ShownIs(piece: string)
    ensures Shown(piece) == [] <==> forall i :: 0 <= i < |piece| ==> IsSpace(piece[i])
    ensures Shown(piece) != [] ==>
              exists n: nat :: 0 < n <= |piece| && Shown(piece) == [piece[..n]] && !IsSpace(piece[n - 1])
                               && forall i :: n <= i < |piece| ==> IsSpace(piece[i])
  {
    TrimmedEnd(piece, IsSpace);
    var n := |TrimEnd(piece, IsSpace)|;
    assert TrimEnd(piece, IsSpace) == piece[..n];
    if n > 0 { assert !IsSpace(piece[n - 1]); }
  }

  /** The pieces of one stream as they are logged. */
  function Logged(pieces: seq<string>): seq<string> {
    if pieces == [] then [] else Logged(pieces[..|pieces| - 1]) + Shown(pieces[|pieces| - 1])
  }

  /** What of a text is not space. */
  function Solid(s: string): string {
    if s == [] then [] else (if IsSpace(s[0]) then [] else [s[0]]) + Solid(s[1..])
  }

  lemma {:induction false} SolidJoins(a: string, b: string)
    ensures Solid(a + b) == Solid(a) + Solid(b)
  {
    if a == [] {
      assert a + b == b;
    } else {
      assert (a + b)[1..] == a[1..] + b;
      SolidJoins(a[1..], b);
    }
  }

  lemma SolidOfOne(c: char)
    ensures Solid([c]) == if IsSpace(c) then [] else [c]
  {
    assert [c][1..] == [];
  }

  lemma {:induction false} TrimmedIsSolid(s: string)
    ensures Solid(TrimEnd(s, IsSpace)) == Solid(s)
  {
    if s != [] && IsSpace(s[|s| - 1]) {
      var n := |s| - 1;
      TrimmedIsSolid(s[..n]);
      SolidJoins(s[..n], [s[n]]);
      assert s == s[..n] + [s[n]];
    }
  }

  lemma JoinedEnd(pieces: seq<string>, last: string)
    ensures Joined(pieces + [last]) == Joined(pieces) + last
  {
    assert (pieces + [last])[..|pieces|] == pieces;
  }

  lemma ShownIsSolid(before: seq<string>, piece: string)
    ensures Solid(Joined(before + Shown(piece))) == Solid(Joined(before)) + Solid(piece)
  {
    var text := TrimEnd(piece, IsSpace);
    TrimmedIsSolid(piece);
    if text == [] {
      assert before + Shown(piece) == before;
    } else {
      JoinedEnd(before, text);
      SolidJoins(Joined(before), text);
    }
  }

  lemma {:induction false} LoggedIsSolid(pieces: seq<string>)
    ensures Solid(Joined(Logged(pieces))) == Solid(Joined(pieces))
  {
    if pieces != [] {
      var n := |pieces| - 1;
      LoggedIsSolid(pieces[..n]);
      ShownIsSolid(Logged(pieces[..n]), pieces[n]);
      SolidJoins(Joined(pieces[..n]), pieces[n]);
    }
  }

  /** While the output only grows, the log has all of it but spaces, each character once and in order. */
  lemma OnlySpacesAreNotLogged(texts: seq<string>)
    requires texts != [] && Grows(texts)
    ensures Solid(Joined(Logged(Pieces(texts)))) == Solid(texts[|texts| - 1])
  {
    LoggedIsSolid(Pieces(texts));
    GrowingOutputIsLoggedOnce(texts);
  }

  // The deadline of a step

  datatype Output = Output(out: string, err: string)

  /** One heartbeat: what the process has written so far, the clock, and what the registry answers. */
  datatype Beat = Beat(output: Output, now: real, goOn: bool)

  datatype Stream = Out | Err

  datatype Line = Text(stream: Stream, text: string) | Exit(code: int)

  const TIMEOUT_EXIT := 124

  predicate InTime(beats: seq<Beat>, deadline: real) {
    forall i :: 0 <= i < |beats| ==> beats[i].now < deadline
  }

  lemma InTimeMore(beats: seq<Beat>, deadline: real, i: nat)
    requires i < |beats|
    ensures InTime(beats[..i + 1], deadline) <==> InTime(beats[..i], deadline) && beats[i].now < deadline
  {
    var more := beats[..i + 1];
    assert more == beats[..i] + [beats[i]];
    if InTime(more, deadline) {
      assert forall j :: 0 <= j < i ==> beats[..i][j] == more[j];
      assert more[i] == beats[i];
    }
  }

  function OutputOf(output: Output, stream: Stream): string { if stream.Out? then output.out else output.err }

  function LinesOf(stream: Stream, piece: string): seq<Line> {
    var shown := Shown(piece);
    seq(|shown|, i requires 0 <= i < |shown| => Text(stream, shown[i]))
  }

  /** What a look at both streams logs, the output before the errors. */
  function LookLines(seen: Output, now: Output): seq<Line> {
    LinesOf(Out, NewPart(seen.out, now.out)) + LinesOf(Err, NewPart(seen.err, now.err))
  }

  /** Each stream's line carries its own new text, and the output's comes first. */
  lemma LookLinesAre(seen: Output, now: Output)
    ensures
      var lines, out, err := LookLines(seen, now), Shown(NewPart(seen.out, now.out)), Shown(NewPart(seen.err, now.err));
      lines == if out == [] && err == [] then []
               else if err == [] then [Text(Out, out[0])]
               else if out == [] then [Text(Err, err[0])]
               else [Text(Out, out[0]), Text(Err, err[0])]
  {
  }

  function Seen(outputs: seq<Output>): Output { if outputs == [] then Output("", "") else outputs[|outputs| - 1] }

  function LogOf(outputs: seq<Output>): seq<Line> {
    if outputs == [] then []
    else
      var before := outputs[..|outputs| - 1];
      LogOf(before) + LookLines(Seen(before), outputs[|outputs| - 1])
  }

  lemma LogOfNext(outputs: seq<Output>, i: nat)
    requires i < |outputs|
    ensures LogOf(outputs[..i + 1]) == LogOf(outputs[..i]) + LookLines(Seen(outputs[..i]), outputs[i])
  {
    assert outputs[..i + 1][..i] == outputs[..i];
  }

  /** The log only grows: a later look is logged after all that was logged before. */
  lemma {:induction false} LogGrows(outputs: seq<Output>, i: nat)
    requires i <= |outputs|
    ensures LogOf(outputs[..i]) <= LogOf(outputs)
    decreases |outputs| - i
  {
    if i < |outputs| {
      LogOfNext(outputs, i);
      LogGrows(outputs, i + 1);
    } else {
      assert outputs[..i] == outputs;
    }
  }

  function OutputsOf(beats: seq<Beat>): (outputs: seq<Output>)
    ensures |outputs| == |beats| && forall i :: 0 <= i < |beats| ==> outputs[i] == beats[i].output
  {
    seq(|beats|, i requires 0 <= i < |beats| => beats[i].output)
  }

  /** The `seen` texts, look by look. */
  method LogOutputs(outputs: seq<Output>) returns (log: seq<Line>)
    ensures log == LogOf(outputs)
  {
    var seen := Output("", "");
    log := [];
    for i := 0 to |outputs|
      invariant log == LogOf(outputs[..i]) && seen == Seen(outputs[..i])
    {
      LogOfNext(outputs, i);
      log := log + LookLines(seen, outputs[i]);
      seen := outputs[i];
    }
    assert outputs[..|outputs|] == outputs;
  }

  /**
   A step under a deadline. From the first beat past it every answer is «stop», whatever the
   registry says; the step then ends with a failure, whatever the process exited with. `last`: all
   the process wrote; `notice`: what the step adds to the errors when it is late.
   */
  method RunStep(beats: seq<Beat>, deadline: real, exit: int, last: Output, notice: string)
    returns (answers: seq<bool>, log: seq<Line>, code: int)
    ensures |answers| == |beats|
    ensures forall i :: 0 <= i < |beats| ==> answers[i] == (beats[i].goOn && InTime(beats[..i + 1], deadline))
    ensures code == 0 <==> exit == 0 && forall k :: 0 <= k < |beats| ==> beats[k].now < deadline
    ensures exit != 0 ==> code == exit
    ensures code != exit ==> code == 124
    ensures
      var final := if InTime(beats, deadline) then last else Output(last.out, last.err + notice);
      log == LogOf(OutputsOf(beats) + [final]) + [Exit(code)]
  {
    var expired := false;
    answers := [];
    for i := 0 to |beats|
      invariant |answers| == i
      invariant expired == !InTime(beats[..i], deadline)
      invariant forall k :: 0 <= k < i ==> answers[k] == (beats[k].goOn && InTime(beats[..k + 1], deadline))
    {
      InTimeMore(beats, deadline, i);
      if beats[i].now >= deadline { expired := true; }
      answers := answers + [beats[i].goOn && !expired];
    }
    assert beats[..|beats|] == beats;
    code := if expired && exit == 0 then TIMEOUT_EXIT else exit;
    log := LogOutputs(OutputsOf(beats) + [if expired then Output(last.out, last.err + notice) else last]);
    log := log + [Exit(code)];
  }

  // Each stream in the log

  function TextsOf(outputs: seq<Output>, stream: Stream): (texts: seq<string>)
    ensures |texts| == |outputs|
  {
    seq(|outputs|, i requires 0 <= i < |outputs| => OutputOf(outputs[i], stream))
  }

  function OfStream(log: seq<Line>, stream: Stream): seq<string> {
    if log == [] then []
    else
      var last := log[|log| - 1];
      OfStream(log[..|log| - 1], stream) + if last.Text? && last.stream == stream then [last.text] else []
  }

  lemma {:induction false} OfStreamJoins(a: seq<Line>, b: seq<Line>, stream: Stream)
    ensures OfStream(a + b, stream) == OfStream(a, stream) + OfStream(b, stream)
  {
    if b == [] {
      assert a + b == a;
    } else {
      assert (a + b)[..|a + b| - 1] == a + b[..|b| - 1];
      OfStreamJoins(a, b[..|b| - 1], stream);
    }
  }

  lemma OfLines(from: Stream, piece: string, stream: Stream)
    ensures OfStream(LinesOf(from, piece), stream) == if from == stream then Shown(piece) else []
  {
    var lines := LinesOf(from, piece);
    if Shown(piece) != [] {
      assert lines == [Text(from, Shown(piece)[0])];
      assert OfStream([], stream) == [] && lines[..0] == [];
    }
  }

  lemma LoggedEnd(pieces: seq<string>, piece: string)
    ensures Logged(pieces + [piece]) == Logged(pieces) + Shown(piece)
  {
    assert (pieces + [piece])[..|pieces|] == pieces;
  }

  function LastOf(texts: seq<string>): string { if texts == [] then [] else texts[|texts| - 1] }

  lemma PiecesNext(texts: seq<string>, next: string)
    ensures Pieces(texts + [next]) == Pieces(texts) + [NewPart(LastOf(texts), next)]
  {
    if texts == [] {
      assert texts + [next] == [next];
    } else {
      assert (texts + [next])[..|texts|] == texts;
    }
  }

  lemma LoggedNext(texts: seq<string>, next: string)
    ensures Logged(Pieces(texts + [next])) == Logged(Pieces(texts)) + Shown(NewPart(LastOf(texts), next))
  {
    PiecesNext(texts, next);
    LoggedEnd(Pieces(texts), NewPart(LastOf(texts), next));
  }

  lemma OfLook(seen: Output, now: Output, stream: Stream)
    ensures OfStream(LookLines(seen, now), stream) == Shown(NewPart(OutputOf(seen, stream), OutputOf(now, stream)))
  {
    OfStreamJoins(LinesOf(Out, NewPart(seen.out, now.out)), LinesOf(Err, NewPart(seen.err, now.err)), stream);
    OfLines(Out, NewPart(seen.out, now.out), stream);
    OfLines(Err, NewPart(seen.err, now.err), stream);
  }

  lemma StreamNext(outputs: seq<Output>, stream: Stream)
    requires outputs != []
    ensures
      var before, last := outputs[..|outputs| - 1], outputs[|outputs| - 1];
      && TextsOf(outputs, stream) == TextsOf(before, stream) + [OutputOf(last, stream)]
      && OutputOf(Seen(before), stream) == LastOf(TextsOf(before, stream))
  {
  }

  lemma LogNext(outputs: seq<Output>, stream: Stream)
    requires outputs != []
    ensures
      var before, last := outputs[..|outputs| - 1], outputs[|outputs| - 1];
      OfStream(LogOf(outputs), stream)
      == OfStream(LogOf(before), stream) + Shown(NewPart(OutputOf(Seen(before), stream), OutputOf(last, stream)))
  {
    var before, last := outputs[..|outputs| - 1], outputs[|outputs| - 1];
    OfStreamJoins(LogOf(before), LookLines(Seen(before), last), stream);
    OfLook(Seen(before), last, stream);
  }

  /** The log holds of each stream what is logged of its texts alone: neither stream hides anything of the other. */
  lemma {:induction false} StreamsStayApart(outputs: seq<Output>, stream: Stream)
    ensures OfStream(LogOf(outputs), stream) == Logged(Pieces(TextsOf(outputs, stream)))
  {
    if outputs != [] {
      var before, last := outputs[..|outputs| - 1], outputs[|outputs| - 1];
      StreamsStayApart(before, stream);
      StreamNext(outputs, stream);
      LogNext(outputs, stream);
      LoggedNext(TextsOf(before, stream), OutputOf(last, stream));
    }
  }
}
