/**
 `run_chunks`: work over ids in chunks, in this process or in many, whatever order the
 chunks end in; and the extraction totals merged from it.
 */
module Batches {
  import opened Wrappers
  import opened Sorting

  const CHUNK_SIZE: nat := 25

  function Chunks(ids: seq<int>): (chunks: seq<seq<int>>)
    ensures forall i :: 0 <= i < |chunks| ==> 0 < |chunks[i]| <= CHUNK_SIZE
    decreases |ids|
  {
    if ids == [] then []
    else if |ids| <= CHUNK_SIZE then [ids]
    else [ids[..CHUNK_SIZE]] + Chunks(ids[CHUNK_SIZE..])
  }

  function Flatten(chunks: seq<seq<int>>): seq<int> {
    if chunks == [] then [] else chunks[0] + Flatten(chunks[1..])
  }

  /** The chunks concatenate back to the ids. */
  lemma {:induction false} ChunksHoldAll(ids: seq<int>)
    ensures Flatten(Chunks(ids)) == ids
    decreases |ids|
  {
    if ids != [] {
      if |ids| <= CHUNK_SIZE {
        assert Flatten([ids]) == ids + Flatten([ids][1..]);
      } else {
        var rest := Chunks(ids[CHUNK_SIZE..]);
        ChunksHoldAll(ids[CHUNK_SIZE..]);
        assert ([ids[..CHUNK_SIZE]] + rest)[1..] == rest;
      }
    }
  }

  /** Every chunk but the last is full. */
  lemma {:induction false} ChunksAreFull(ids: seq<int>)
    ensures forall i :: 0 <= i < |Chunks(ids)| - 1 ==> |Chunks(ids)[i]| == 25
    ensures |Chunks(ids)| == (|ids| + 24) / 25
    decreases |ids|
  {
    if |ids| > CHUNK_SIZE { ChunksAreFull(ids[CHUNK_SIZE..]); }
  }

  // Adding up in any order

  ghost predicate AddsUp<T(!new)>(plus: (T, T) -> T, zero: T) {
    && (forall a, b :: plus(a, b) == plus(b, a))
    && (forall a, b, c :: plus(plus(a, b), c) == plus(a, plus(b, c)))
    && (forall a :: plus(zero, a) == a)
  }

  ghost function Total<T>(order: seq<nat>, part: nat -> T, plus: (T, T) -> T, zero: T): T {
    if order == [] then zero
    else plus(Total(order[..|order| - 1], part, plus, zero), part(order[|order| - 1]))
  }

  lemma {:induction false} TotalWithout<T(!new)>(
    order: seq<nat>, k: nat, part: nat -> T, plus: (T, T) -> T, zero: T)
    requires AddsUp(plus, zero) && k < |order|
    ensures Total(order, part, plus, zero)
            == plus(Total(order[..k] + order[k + 1..], part, plus, zero), part(order[k]))
  {
    var n := |order| - 1;
    var fewer := order[..k] + order[k + 1..];
    if k == n {
      assert fewer == order[..n];
    } else {
      var a := Total(order[..k] + order[k + 1..n], part, plus, zero);
      assert fewer[..n - 1] == order[..k] + order[k + 1..n] && fewer[n - 1] == order[n];
      assert order[..n][..k] + order[..n][k + 1..] == order[..k] + order[k + 1..n];
      TotalWithout(order[..n], k, part, plus, zero);
      calc {
        Total(order, part, plus, zero);
        plus(plus(a, part(order[k])), part(order[n]));
        plus(a, plus(part(order[k]), part(order[n])));
        plus(a, plus(part(order[n]), part(order[k])));
        plus(plus(a, part(order[n])), part(order[k]));
      }
    }
  }

  /** A total does not depend on the order it is added up in. */
  lemma {:induction false} TotalInAnyOrder<T(!new)>(
    a: seq<nat>, b: seq<nat>, part: nat -> T, plus: (T, T) -> T, zero: T)
    requires AddsUp(plus, zero) && multiset(a) == multiset(b)
    ensures Total(a, part, plus, zero) == Total(b, part, plus, zero)
    decreases |a|
  {
    if a == [] {
      assert |multiset(b)| == |b|;
    } else {
      var n := |a| - 1;
      var last := a[n];
      assert last in multiset(b);
      var k :| 0 <= k < |b| && b[k] == last;
      assert a == a[..n] + [last];
      assert b == b[..k] + [last] + b[k + 1..];
      assert multiset(a[..n]) == multiset(a) - multiset{last};
      assert multiset(b[..k] + b[k + 1..]) == multiset(b) - multiset{last};
      TotalInAnyOrder(a[..n], b[..k] + b[k + 1..], part, plus, zero);
      TotalWithout(b, k, part, plus, zero);
    }
  }

  function Indices(n: nat): seq<nat> { seq(n, i requires 0 <= i < n => i) }

  /** An order the chunks may end in: each once. */
  ghost predicate IsOrder(order: seq<nat>, n: nat) {
    && multiset(order) == multiset(Indices(n))
    && forall i :: 0 <= i < |order| ==> order[i] < n
  }

  function PlusBag(a: multiset<int>, b: multiset<int>): multiset<int> { a + b }

  lemma BagsAddUp()
    ensures AddsUp(PlusBag, multiset{})
  {
    forall a, b
      ensures PlusBag(a, b) == PlusBag(b, a)
    {
      assert a + b == b + a;
    }
    forall a, b, c
      ensures PlusBag(PlusBag(a, b), c) == PlusBag(a, PlusBag(b, c))
    {
      assert (a + b) + c == a + (b + c);
    }
    forall a
      ensures PlusBag(multiset{}, a) == a
    {
      assert multiset{} + a == a;
    }
  }

  ghost function Bags(chunks: seq<seq<int>>, keep: seq<int> -> bool): nat -> multiset<int> {
    (i: nat) => if i < |chunks| && keep(chunks[i]) then multiset(chunks[i]) else multiset{}
  }

  ghost function BagTotal(order: seq<nat>, chunks: seq<seq<int>>, keep: seq<int> -> bool): multiset<int> {
    Total(order, Bags(chunks, keep), PlusBag, multiset{})
  }

  /** The ids of the chunks that `keep`, counted in the order of the ids. */
  ghost function IdsOf(chunks: seq<seq<int>>, keep: seq<int> -> bool): multiset<int> {
    if chunks == [] then multiset{}
    else (if keep(chunks[0]) then multiset(chunks[0]) else multiset{}) + IdsOf(chunks[1..], keep)
  }

  lemma {:induction false} IdsOfEnd(chunks: seq<seq<int>>, last: seq<int>, keep: seq<int> -> bool)
    ensures IdsOf(chunks + [last], keep) == IdsOf(chunks, keep) + if keep(last) then multiset(last) else multiset{}
  {
    if chunks == [] {
      assert (chunks + [last])[1..] == [];
    } else {
      assert (chunks + [last])[1..] == chunks[1..] + [last];
      IdsOfEnd(chunks[1..], last, keep);
    }
  }

  lemma {:induction false} BagTotalIsIds(chunks: seq<seq<int>>, n: nat, keep: seq<int> -> bool)
    requires n <= |chunks|
    ensures BagTotal(Indices(n), chunks, keep) == IdsOf(chunks[..n], keep)
  {
    if n > 0 {
      assert Indices(n)[..n - 1] == Indices(n - 1);
      assert chunks[..n] == chunks[..n - 1] + [chunks[n - 1]];
      BagTotalIsIds(chunks, n - 1, keep);
      IdsOfEnd(chunks[..n - 1], chunks[n - 1], keep);
    }
  }

  lemma BagTotalInAnyOrder(order: seq<nat>, chunks: seq<seq<int>>, keep: seq<int> -> bool)
    requires IsOrder(order, |chunks|)
    ensures BagTotal(order, chunks, keep) == IdsOf(chunks, keep)
  {
    BagsAddUp();
    TotalInAnyOrder(order, Indices(|chunks|), Bags(chunks, keep), PlusBag, multiset{});
    BagTotalIsIds(chunks, |chunks|, keep);
    assert chunks[..|chunks|] == chunks;
  }

  lemma {:induction false} FailedAndDoneAreAll(chunks: seq<seq<int>>, keep: seq<int> -> bool, drop: seq<int> -> bool)
    requires forall c :: keep(c) <==> !drop(c)
    ensures IdsOf(chunks, keep) + IdsOf(chunks, drop) == multiset(Flatten(chunks))
  {
    if chunks != [] { FailedAndDoneAreAll(chunks[1..], keep, drop); }
  }

  // The runner

  datatype Run<R> =
    | Ran(results: seq<R>)
    | WorkerError(failedIds: seq<int>)
    | Raised

  function Fails<R>(work: seq<int> -> Option<R>): seq<int> -> bool {
    (chunk: seq<int>) => work(chunk).None?
  }

  /** What the chunks that end well give, in the order they end. */
  ghost function Given<R>(order: seq<nat>, chunks: seq<seq<int>>, work: seq<int> -> Option<R>): seq<R>
    requires forall i :: 0 <= i < |order| ==> order[i] < |chunks|
  {
    if order == [] then []
    else
      var last := work(chunks[order[|order| - 1]]);
      Given(order[..|order| - 1], chunks, work) + if last.Some? then [last.value] else []
  }

  /** When all end well, the results are those of the chunks, in the order the chunks end. */
  lemma {:induction false} GivenInOrder<R>(order: seq<nat>, chunks: seq<seq<int>>, work: seq<int> -> Option<R>)
    requires forall i :: 0 <= i < |order| ==> order[i] < |chunks| && work(chunks[order[i]]).Some?
    ensures
      var given := Given(order, chunks, work);
      |given| == |order| && forall i :: 0 <= i < |order| ==> Some(given[i]) == work(chunks[order[i]])
  {
    if order != [] {
      var n := |order| - 1;
      GivenInOrder(order[..n], chunks, work);
      assert forall i :: 0 <= i < n ==> order[..n][i] == order[i];
    }
  }

  function Sum(s: seq<nat>): nat {
    if s == [] then 0 else Sum(s[..|s| - 1]) + s[|s| - 1]
  }

  ghost predicate AllDone<R>(chunks: seq<seq<int>>, work: seq<int> -> Option<R>) {
    forall i :: 0 <= i < |chunks| ==> work(chunks[i]).Some?
  }

  /** In this process: the chunks in turn, each reported once done; the first that raises ends the run, unreported. */
  method RunHere<R>(ids: seq<int>, work: seq<int> -> Option<R>) returns (run: Run<R>, progress: seq<nat>)
    ensures AllDone(Chunks(ids), work) ==> run == Ran(Given(Indices(|Chunks(ids)|), Chunks(ids), work)) && Sum(progress) == |ids|
    ensures !AllDone(Chunks(ids), work) ==> run == Raised
    ensures |progress| <= |Chunks(ids)| && forall i :: 0 <= i < |progress| ==> progress[i] == |Chunks(ids)[i]|
    ensures forall i :: 0 <= i < |progress| ==> work(Chunks(ids)[i]).Some?
    ensures run == Raised ==> |progress| < |Chunks(ids)| && work(Chunks(ids)[|progress|]).None?
  {
    var chunks := Chunks(ids);
    var results: seq<R> := [];
    progress := [];
    ChunksHoldAll(ids);
    for i := 0 to |chunks|
      invariant |progress| == i && forall j :: 0 <= j < i ==> progress[j] == |chunks[j]|
      invariant forall j :: 0 <= j < i ==> work(chunks[j]).Some?
      invariant results == Given(Indices(i), chunks, work)
      invariant Sum(progress) + |Flatten(chunks[i..])| == |ids|
    {
      var result := work(chunks[i]);
      if result.None? { return Raised, progress; }
      assert Indices(i + 1)[..i] == Indices(i);
      assert chunks[i..][1..] == chunks[i + 1..];
      results := results + [result.value];
      var before := progress;
      progress := before + [|chunks[i]|];
      assert progress[..|progress| - 1] == before;
    }
    run := Ran(results);
  }

  // What the loop over the finished chunks has by some point, in the order they end

  ghost function FailedIn<R>(order: seq<nat>, chunks: seq<seq<int>>, work: seq<int> -> Option<R>): seq<int>
    requires forall i :: 0 <= i < |order| ==> order[i] < |chunks|
  {
    if order == [] then []
    else
      var chunk := chunks[order[|order| - 1]];
      FailedIn(order[..|order| - 1], chunks, work) + if work(chunk).None? then chunk else []
  }

  ghost predicate SomeFailed<R>(order: seq<nat>, chunks: seq<seq<int>>, work: seq<int> -> Option<R>)
    requires forall i :: 0 <= i < |order| ==> order[i] < |chunks|
  {
    exists j :: 0 <= j < |order| && work(chunks[order[j]]).None?
  }

  ghost function Lengths(order: seq<nat>, chunks: seq<seq<int>>): nat
    requires forall i :: 0 <= i < |order| ==> order[i] < |chunks|
  {
    if order == [] then 0 else Lengths(order[..|order| - 1], chunks) + |chunks[order[|order| - 1]]|
  }

  lemma {:induction false} FailedInIsBag<R>(order: seq<nat>, chunks: seq<seq<int>>, work: seq<int> -> Option<R>)
    requires forall i :: 0 <= i < |order| ==> order[i] < |chunks|
    ensures multiset(FailedIn(order, chunks, work)) == BagTotal(order, chunks, Fails(work))
  {
    if order != [] { FailedInIsBag(order[..|order| - 1], chunks, work); }
  }

  lemma {:induction false} LengthsAreBag(order: seq<nat>, chunks: seq<seq<int>>, everything: seq<int> -> bool)
    requires forall i :: 0 <= i < |order| ==> order[i] < |chunks|
    requires forall c :: everything(c)
    ensures Lengths(order, chunks) == |BagTotal(order, chunks, everything)|
  {
    if order != [] {
      var n := |order| - 1;
      LengthsAreBag(order[..n], chunks, everything);
      assert |multiset(chunks[order[n]])| == |chunks[order[n]]|;
    }
  }

  lemma OneMoreChunk<R>(order: seq<nat>, chunks: seq<seq<int>>, work: seq<int> -> Option<R>, i: nat)
    requires forall i :: 0 <= i < |order| ==> order[i] < |chunks|
    requires i < |order|
    ensures order[..i + 1][..i] == order[..i] && order[..i + 1][i] == order[i]
    ensures SomeFailed(order[..i + 1], chunks, work) <==>
            SomeFailed(order[..i], chunks, work) || work(chunks[order[i]]).None?
  {
    if SomeFailed(order[..i], chunks, work) {
      var j :| 0 <= j < i && work(chunks[order[..i][j]]).None?;
      assert order[..i + 1][j] == order[j];
    }
    if work(chunks[order[i]]).None? { assert order[..i + 1][i] == order[i]; }
  }

  /** In worker processes: every chunk is awaited, in whatever order they end. */
  method RunInWorkers<R>(ids: seq<int>, work: seq<int> -> Option<R>, order: seq<nat>)
    returns (run: Run<R>, progress: seq<nat>)
    requires IsOrder(order, |Chunks(ids)|)
    ensures AllDone(Chunks(ids), work) ==> run == Ran(Given(order, Chunks(ids), work))
    ensures !AllDone(Chunks(ids), work) ==> run.WorkerError?
    ensures run.WorkerError? ==>
              && multiset(run.failedIds) == IdsOf(Chunks(ids), Fails(work))
              && Ordered(run.failedIds, (a: int, b: int) => a <= b)
    ensures Sum(progress) == |ids|
    ensures |progress| == |order| && forall i :: 0 <= i < |order| ==> progress[i] == |Chunks(ids)[order[i]]|
  {
    var chunks := Chunks(ids);
    var results: seq<R> := [];
    var failed: seq<int> := [];
    var anyFailed := false;
    progress := [];
    for i := 0 to |order|
      invariant results == Given(order[..i], chunks, work)
      invariant failed == FailedIn(order[..i], chunks, work)
      invariant anyFailed == SomeFailed(order[..i], chunks, work)
      invariant |progress| == i && forall j :: 0 <= j < i ==> progress[j] == |chunks[order[j]]|
      invariant Sum(progress) == Lengths(order[..i], chunks)
    {
      var chunk := chunks[order[i]];
      var result := work(chunk);
      OneMoreChunk(order, chunks, work, i);
      if result.Some? {
        results := results + [result.value];
      } else {
        failed := failed + chunk;
        anyFailed := true;
      }
      var before := progress;
      progress := before + [|chunk|];
      assert progress[..|progress| - 1] == before;
    }
    assert order[..|order|] == order;
    EveryChunkEnds(order, chunks, work);
    LengthsInAnyOrder(ids, order);
    if anyFailed {
      FailedInAnyOrder(ids, work, order);
      SortIsOrdered(failed, (a: int, b: int) => a <= b);
      run := WorkerError(SortIds(failed));
    } else {
      run := Ran(results);
    }
  }

  lemma LengthsInAnyOrder(ids: seq<int>, order: seq<nat>)
    requires IsOrder(order, |Chunks(ids)|)
    ensures Lengths(order, Chunks(ids)) == |ids|
  {
    var everything: seq<int> -> bool := c => true;
    LengthsAreBag(order, Chunks(ids), everything);
    BagTotalInAnyOrder(order, Chunks(ids), everything);
    WholeBag(ids, everything);
  }

  lemma FailedInAnyOrder<R>(ids: seq<int>, work: seq<int> -> Option<R>, order: seq<nat>)
    requires IsOrder(order, |Chunks(ids)|)
    ensures multiset(FailedIn(order, Chunks(ids), work)) == IdsOf(Chunks(ids), Fails(work))
  {
    FailedInIsBag(order, Chunks(ids), work);
    BagTotalInAnyOrder(order, Chunks(ids), Fails(work));
  }

  lemma WholeBag(ids: seq<int>, everything: seq<int> -> bool)
    requires forall c :: everything(c)
    ensures |IdsOf(Chunks(ids), everything)| == |ids|
  {
    AllOf(Chunks(ids), everything);
    ChunksHoldAll(ids);
    assert |multiset(ids)| == |ids|;
  }

  lemma {:induction false} AllOf(chunks: seq<seq<int>>, everything: seq<int> -> bool)
    requires forall c :: everything(c)
    ensures IdsOf(chunks, everything) == multiset(Flatten(chunks))
  {
    if chunks != [] { AllOf(chunks[1..], everything); }
  }

  lemma EveryChunkEnds<R>(order: seq<nat>, chunks: seq<seq<int>>, work: seq<int> -> Option<R>)
    requires IsOrder(order, |chunks|)
    ensures AllDone(chunks, work) <==> !SomeFailed(order, chunks, work)
  {
    if !AllDone(chunks, work) {
      var i: nat :| i < |chunks| && work(chunks[i]).None?;
      assert Indices(|chunks|)[i] == i;
      assert i in multiset(order);
      var j :| 0 <= j < |order| && order[j] == i;
      assert work(chunks[order[j]]).None?;
    }
  }

  /** The error names exactly the chunks that failed: the ids it names and the ids of the others are all the ids. */
  lemma ErrorNamesWhatIsLeft<R>(ids: seq<int>, work: seq<int> -> Option<R>)
    ensures IdsOf(Chunks(ids), Fails(work)) + IdsOf(Chunks(ids), (c: seq<int>) => work(c).Some?) == multiset(ids)
  {
    FailedAndDoneAreAll(Chunks(ids), Fails(work), (c: seq<int>) => work(c).Some?);
    ChunksHoldAll(ids);
  }

  /** `worker_count`, with `cores` the machine's cap; none for an argument the source refuses. */
  function WorkerCount(workers: int, items: nat, cores: nat): (count: Option<nat>)
    ensures count.None? <==> workers < 1
    ensures count.Some? ==> 1 <= count.value <= workers && (cores >= 1 ==> count.value <= cores)
    ensures count.Some? && items >= 1 ==> count.value <= items
    ensures count.Some? ==> count.value in {1, workers, items, cores}
    ensures count == Some(1) ==> workers == 1 || items <= 1 || cores <= 1
  {
    if workers < 1 then None
    else
      var least := if workers < items then workers else items;
      var capped := if least < cores then least else cores;
      Some(if capped < 1 then 1 else capped)
  }
}
