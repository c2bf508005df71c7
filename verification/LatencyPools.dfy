/** Latency tests by a pool of workers that share one cursor into the list of names. */
module LatencyPools {
  import opened Bytes

  /** The measured delay; `None` for a failed test. */
  type Delay = Option<nat>

  /** A worker tests a list index, or has returned. `log` records the finished tests in their order. */
  datatype Pool = Pool(cursor: nat, workers: seq<Option<nat>>, log: seq<(nat, Delay)>, results: map<string, Delay>)

  /** `Array.from({ length: Math.min(concurrency, n) })`: a negative length makes an empty array. */
  function WorkerCount(n: nat, concurrency: int): nat {
    if concurrency < 0 then 0 else Min(concurrency, n)
  }

  /** Every worker claims an index before it first awaits. */
  function Begin(n: nat, concurrency: int): Pool {
    var m := WorkerCount(n, concurrency);
    Pool(m, seq(m, i => Some(i)), [], map[])
  }

  predicate Working(p: Pool, w: nat) {
    w < |p.workers| && p.workers[w].Some?
  }

  predicate InRange(p: Pool, n: nat) {
    forall w :: 0 <= w < |p.workers| && p.workers[w].Some? ==> p.workers[w].value < n
  }

  /** What a worker does between two awaits: it stores its delay and claims the next index, or returns. */
  function Next(p: Pool, list: seq<string>, w: nat, delay: Delay): Pool
    requires Working(p, w) && InRange(p, |list|)
  {
    var index := p.workers[w].value;
    Pool(p.cursor + 1,
         p.workers[w := if p.cursor < |list| then Some(p.cursor) else None],
         p.log + [(index, delay)],
         p.results[list[index] := delay])
  }

  function Busy(workers: seq<Option<nat>>): nat {
    if workers == [] then 0 else (if workers[0].Some? then 1 else 0) + Busy(workers[1..])
  }

  predicate Tested(p: Pool, i: nat) {
    exists k :: 0 <= k < |p.log| && p.log[k].0 == i
  }

  predicate Claimed(p: Pool, i: nat) {
    exists w :: 0 <= w < |p.workers| && p.workers[w] == Some(i)
  }

  /** Claims are disjoint from each other and from finished tests, and no index is tested twice. */
  predicate Disjoint(p: Pool) {
    ClaimsDiffer(p.workers) && TestsDiffer(p.log) && Apart(p.workers, p.log)
  }

  predicate ClaimsDiffer(workers: seq<Option<nat>>) {
    forall v, w :: 0 <= v < w < |workers| && workers[v].Some? ==> workers[v] != workers[w]
  }

  predicate TestsDiffer(log: seq<(nat, Delay)>) {
    forall j, k :: 0 <= j < k < |log| ==> log[j].0 != log[k].0
  }

  predicate Apart(workers: seq<Option<nat>>, log: seq<(nat, Delay)>) {
    forall w, k :: 0 <= w < |workers| && 0 <= k < |log| ==> workers[w] != Some(log[k].0)
  }

  /** The result of a name is that of the test of it that finished last. */
  predicate LatestHolds(p: Pool, list: seq<string>, name: string, k: nat) {
    && k < |p.log| && p.log[k].0 < |list| && list[p.log[k].0] == name
    && name in p.results && p.results[name] == p.log[k].1
    && forall j :: k < j < |p.log| && p.log[j].0 < |list| ==> list[p.log[j].0] != name
  }

  ghost predicate Inv(p: Pool, list: seq<string>) {
    && InRange(p, |list|)
    && (forall k :: 0 <= k < |p.log| ==> p.log[k].0 < |list|)
    && Disjoint(p)
    && (forall i: nat :: i < |list| ==> (i < p.cursor <==> Tested(p, i) || Claimed(p, i)))
    && (forall w :: 0 <= w < |p.workers| && p.workers[w].None? ==> p.cursor >= |list|)
    && |p.log| + Busy(p.workers) == Min(p.cursor, |list|)
    && (forall name :: name in p.results ==> exists k: nat :: LatestHolds(p, list, name, k))
    && (forall k :: 0 <= k < |p.log| ==> list[p.log[k].0] in p.results)
  }

  lemma {:induction false} BusyAll(workers: seq<Option<nat>>)
    requires forall w :: 0 <= w < |workers| ==> workers[w].Some?
    ensures Busy(workers) == |workers|
  {
    if workers != [] {
      BusyAll(workers[1..]);
    }
  }

  lemma {:induction false} BusyUpdate(workers: seq<Option<nat>>, w: nat, v: Option<nat>)
    requires w < |workers| && workers[w].Some?
    ensures Busy(workers[w := v]) == Busy(workers) - if v.Some? then 0 else 1
  {
    if w > 0 {
      assert workers[w := v][1..] == workers[1..][w - 1 := v];
      BusyUpdate(workers[1..], w - 1, v);
    } else {
      assert workers[w := v][1..] == workers[1..];
    }
  }

  lemma {:induction false} NobodyBusyIff(workers: seq<Option<nat>>)
    ensures Busy(workers) == 0 <==> forall w :: 0 <= w < |workers| ==> workers[w].None?
  {
    if workers != [] {
      NobodyBusyIff(workers[1..]);
      assert forall w :: 0 < w < |workers| ==> workers[w] == workers[1..][w - 1];
      assert forall w :: 0 <= w < |workers| - 1 ==> workers[1..][w] == workers[w + 1];
    }
  }

  lemma BeginHolds(list: seq<string>, concurrency: int)
    ensures Inv(Begin(|list|, concurrency), list)
  {
    var p := Begin(|list|, concurrency);
    BusyAll(p.workers);
    forall i: nat | i < p.cursor
      ensures Claimed(p, i)
    {
      assert p.workers[i] == Some(i);
    }
  }

  lemma CoverageKept(p: Pool, list: seq<string>, w: nat, delay: Delay, i: nat)
    requires Inv(p, list) && Working(p, w) && i < |list|
    ensures var q := Next(p, list, w, delay); i < q.cursor <==> Tested(q, i) || Claimed(q, i)
  {
    var q := Next(p, list, w, delay);
    if Tested(p, i) {
      var k :| 0 <= k < |p.log| && p.log[k].0 == i;
      assert q.log[k].0 == i;
    } else if p.workers[w] == Some(i) {
      assert q.log[|p.log|].0 == i;
    } else if Claimed(p, i) {
      var v :| 0 <= v < |p.workers| && p.workers[v] == Some(i);
      assert q.workers[v] == Some(i);
    } else if i == p.cursor {
      assert q.workers[w] == Some(i);
    }
  }

  lemma ClaimMoves(workers: seq<Option<nat>>, w: nat, claim: Option<nat>)
    requires ClaimsDiffer(workers) && w < |workers| && (claim.Some? ==> claim !in workers)
    ensures ClaimsDiffer(workers[w := claim])
  {
    var moved := workers[w := claim];
    forall u, v | 0 <= u < v < |moved| && moved[u].Some?
      ensures moved[u] != moved[v]
    {
      assert workers[u] in workers && workers[v] in workers;
    }
  }

  lemma ClaimIsTested(workers: seq<Option<nat>>, log: seq<(nat, Delay)>, w: nat, claim: Option<nat>, delay: Delay)
    requires ClaimsDiffer(workers) && TestsDiffer(log) && Apart(workers, log) && w < |workers| && workers[w].Some?
    requires claim.Some? ==> claim !in workers && forall k :: 0 <= k < |log| ==> log[k].0 != claim.value
    ensures var more := log + [(workers[w].value, delay)]; TestsDiffer(more) && Apart(workers[w := claim], more)
  {
    var moved, more := workers[w := claim], log + [(workers[w].value, delay)];
    forall v, k | 0 <= v < |moved| && 0 <= k < |more|
      ensures moved[v] != Some(more[k].0)
    {
      assert workers[v] in workers && workers[w] in workers;
    }
  }

  lemma DisjointKept(p: Pool, list: seq<string>, w: nat, delay: Delay)
    requires Inv(p, list) && Working(p, w)
    ensures Disjoint(Next(p, list, w, delay))
  {
    var claim := if p.cursor < |list| then Some(p.cursor) else None;
    assert p.cursor < |list| ==> !Tested(p, p.cursor) && !Claimed(p, p.cursor);
    ClaimMoves(p.workers, w, claim);
    ClaimIsTested(p.workers, p.log, w, claim, delay);
  }

  lemma LatestKept(p: Pool, list: seq<string>, w: nat, delay: Delay, name: string)
    requires Inv(p, list) && Working(p, w) && name in Next(p, list, w, delay).results
    ensures exists k: nat :: LatestHolds(Next(p, list, w, delay), list, name, k)
  {
    var q := Next(p, list, w, delay);
    if list[p.workers[w].value] == name {
      assert LatestHolds(q, list, name, |p.log|);
    } else {
      var k: nat :| LatestHolds(p, list, name, k);
      assert LatestHolds(q, list, name, k);
    }
  }

  lemma NextKeeps(p: Pool, list: seq<string>, w: nat, delay: Delay)
    requires Inv(p, list) && Working(p, w)
    ensures Inv(Next(p, list, w, delay), list)
  {
    DisjointKept(p, list, w, delay);
    BusyUpdate(p.workers, w, if p.cursor < |list| then Some(p.cursor) else None);
    forall i: nat | i < |list|
      ensures var q := Next(p, list, w, delay); i < q.cursor <==> Tested(q, i) || Claimed(q, i)
    {
      CoverageKept(p, list, w, delay, i);
    }
    forall name | name in Next(p, list, w, delay).results
      ensures exists k: nat :: LatestHolds(Next(p, list, w, delay), list, name, k)
    {
      LatestKept(p, list, w, delay, name);
    }
  }

  /** A schedule says whose test ends next, and with what; ends of tests nobody runs do not happen. */
  function Run(p: Pool, list: seq<string>, schedule: seq<(nat, Delay)>): Pool
    decreases |schedule|
  {
    if schedule == [] then p
    else if Working(p, schedule[0].0) && InRange(p, |list|) then Run(Next(p, list, schedule[0].0, schedule[0].1), list, schedule[1..])
    else Run(p, list, schedule[1..])
  }

  lemma {:induction false} RunKeeps(p: Pool, list: seq<string>, schedule: seq<(nat, Delay)>)
    requires Inv(p, list)
    ensures Inv(Run(p, list, schedule), list) && |Run(p, list, schedule).workers| == |p.workers|
    decreases |schedule|
  {
    if schedule != [] {
      if Working(p, schedule[0].0) {
        NextKeeps(p, list, schedule[0].0, schedule[0].1);
        RunKeeps(Next(p, list, schedule[0].0, schedule[0].1), list, schedule[1..]);
      } else {
        RunKeeps(p, list, schedule[1..]);
      }
    }
  }

  /** All workers have returned: `Promise.all` resolves. */
  predicate Finished(p: Pool) {
    forall w :: 0 <= w < |p.workers| ==> p.workers[w].None?
  }

  predicate TestedOnce(p: Pool, i: nat) {
    exists k :: 0 <= k < |p.log| && p.log[k].0 == i && forall j :: 0 <= j < |p.log| && j != k ==> p.log[j].0 != i
  }

  /** Whatever the interleaving: the pool has finished exactly when as many tests have ended as there are names (or
      there is no worker); then every index was tested once, and the results are those of the listed names. */
  lemma EveryScheduleTestsAll(list: seq<string>, concurrency: int, schedule: seq<(nat, Delay)>)
    ensures var p := Run(Begin(|list|, concurrency), list, schedule);
            && |p.log| <= |list|
            && (Finished(p) <==> concurrency <= 0 || |p.log| == |list|)
            && (Finished(p) && concurrency > 0 ==>
                  (forall i: nat :: i < |list| ==> TestedOnce(p, i)) && (forall name :: name in p.results <==> name in list))
  {
    var start := Begin(|list|, concurrency);
    BeginHolds(list, concurrency);
    RunKeeps(start, list, schedule);
    var p := Run(start, list, schedule);
    NobodyBusyIff(p.workers);
    if Finished(p) && concurrency > 0 {
      FinishedTestsAll(p, list);
    }
    if concurrency > 0 && |list| > 0 && Finished(p) {
      assert p.workers[0].None?;
    }
  }

  /** And every pool can be finished, whatever the delays, by as many ends of tests as there are names. */
  lemma SomeScheduleFinishes(list: seq<string>, concurrency: int, delays: nat -> Delay) returns (schedule: seq<(nat, Delay)>)
    requires concurrency > 0
    ensures Finished(Run(Begin(|list|, concurrency), list, schedule)) && |schedule| == |list|
    ensures forall i :: 0 <= i < |schedule| ==> schedule[i].1 == delays(i)
  {
    var start := Begin(|list|, concurrency);
    BeginHolds(list, concurrency);
    schedule := RestFinishes(start, list, delays);
  }

  lemma {:induction false} RestFinishes(p: Pool, list: seq<string>, delays: nat -> Delay) returns (schedule: seq<(nat, Delay)>)
    requires Inv(p, list) && (|p.workers| > 0 || list == [])
    ensures Finished(Run(p, list, schedule)) && |schedule| == |list| - |p.log|
    ensures forall i :: 0 <= i < |schedule| ==> schedule[i].1 == delays(|p.log| + i)
    decreases |list| - |p.log|
  {
    NobodyBusyIff(p.workers);
    if Finished(p) {
      schedule := [];
      assert list != [] ==> p.workers[0].None?;
    } else {
      var w: nat :| w < |p.workers| && p.workers[w].Some?;
      var end := (w, delays(|p.log|));
      NextKeeps(p, list, w, end.1);
      var more := RestFinishes(Next(p, list, w, end.1), list, delays);
      schedule := [end] + more;
      assert schedule[1..] == more;
    }
  }

  lemma FinishedTestsAll(p: Pool, list: seq<string>)
    requires Inv(p, list) && Finished(p) && (|p.workers| > 0 || list == [])
    ensures forall i: nat :: i < |list| ==> TestedOnce(p, i)
    ensures forall name :: name in p.results <==> name in list
  {
    if list != [] {
      assert p.workers[0].None?;
    }
    forall i: nat | i < |list|
      ensures TestedOnce(p, i) && list[i] in p.results
    {
      assert Tested(p, i);
      var k :| 0 <= k < |p.log| && p.log[k].0 == i;
      assert forall j :: 0 <= j < |p.log| && j != k ==> p.log[j].0 != i;
    }
    forall name | name in p.results
      ensures name in list
    {
      var k: nat :| LatestHolds(p, list, name, k);
      assert list[p.log[k].0] == name;
    }
  }

  /** So the result has exactly the listed names as keys if and only if some worker is allowed or nothing is listed. */
  lemma AllNamesIff(list: seq<string>, concurrency: int, schedule: seq<(nat, Delay)>)
    requires Finished(Run(Begin(|list|, concurrency), list, schedule))
    ensures (forall name :: name in Run(Begin(|list|, concurrency), list, schedule).results <==> name in list)
            <==> concurrency > 0 || list == []
  {
    EveryScheduleTestsAll(list, concurrency, schedule);
    if concurrency <= 0 {
      NoWorkerNoResult(Begin(|list|, concurrency), list, schedule);
      assert list != [] ==> list[0] in list;
    }
  }

  lemma {:induction false} NoWorkerNoResult(p: Pool, list: seq<string>, schedule: seq<(nat, Delay)>)
    requires p.workers == []
    ensures Run(p, list, schedule) == p
    decreases |schedule|
  {
    if schedule != [] {
      NoWorkerNoResult(p, list, schedule[1..]);
    }
  }

  // ---- the call -----------------------------------------------------------------------------------

  class Call {
    const list: seq<string>
    var cursor: nat
    var workers: seq<Option<nat>>
    var results: map<string, Delay>
    var latencies: map<string, Delay>
    ghost var log: seq<(nat, Delay)>

    ghost function Now(): Pool
      reads this
    {
      Pool(cursor, workers, log, results)
    }

    constructor (list: seq<string>, concurrency: int, latencies: map<string, Delay>)
      ensures this.list == list && this.latencies == latencies
      ensures Now() == Begin(|list|, concurrency)
    {
      this.list, this.latencies := list, latencies;
      cursor, workers, results, log := 0, [], map[], [];
      new;
      var m := WorkerCount(|list|, concurrency);
      for k := 0 to m
        invariant cursor == k && workers == seq(k, i => Some(i)) && results == map[] && log == []
        invariant this.list == list && this.latencies == latencies
      {
        var index := cursor;
        cursor := cursor + 1;
        workers := workers + [if index >= |list| then None else Some(index)];
      }
    }

    /** A worker's test has ended. */
    method Return(w: nat, delay: Delay)
      requires Working(Now(), w) && InRange(Now(), |list|)
      modifies this
      ensures Now() == Next(old(Now()), list, w, delay)
      ensures latencies == old(latencies)[list[old(workers)[w].value] := delay]
    {
      var name := list[workers[w].value];
      results := results[name := delay];
      latencies := latencies[name := results[name]];
      log := log + [(workers[w].value, delay)];
      var index := cursor;
      cursor := cursor + 1;
      workers := workers[w := if index >= |list| then None else Some(index)];
    }
  }
}
