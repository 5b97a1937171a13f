/** The two phases of the IPv6 benchmark: probing the scanned addresses, then, with
  * batches, timing the reachable ones a batch at a time.
  */
module Ipv6Bench {
  import opened Bits
  import opened Words
  import opened Limbs
  import opened Scan

  /** Adds the step in place, limb by limb. `carry` follows the C expression, whose
    * comparison with the largest unsigned long never holds.
    */
  method AddStep(daddr: array<u32>, delta: array<u32>)
    requires daddr.Length == delta.Length == 4 && daddr != delta
    modifies daddr
    ensures daddr[..] == Shift(old(daddr[..]), delta[..])
  {
    ghost var a := daddr[..];
    var carry := 0;
    for j := 0 to 4
      invariant carry == 0
      invariant forall k :: 0 <= k < 4 - j ==> daddr[k] == a[k]
      invariant forall k :: 4 - j <= k < 4 ==> daddr[k] == (a[k] + delta[k]) % BASE
    {
      carry := if daddr[3 - j] + delta[3 - j] + carry > WORD64 - 1 then 1 else 0;
      daddr[3 - j] := (daddr[3 - j] + delta[3 - j] + carry) % BASE;
    }
  }

  lemma ShiftCons(a: seq<u32>, off: seq<nat>)
    requires |a| == |off| > 0
    ensures Shift(a, off) == [(a[0] + off[0]) % BASE] + Shift(a[1..], off[1..])
  {}

  lemma OffsetsCons(step: seq<u32>, rnd: u64)
    requires step != []
    ensures var (off, r) := Offsets(step[1..], rnd);
      Offsets(step, rnd) == ([And(step[0], Lcg(r))] + off, Lcg(r))
  {}

  method Copy(daddr: array<u32>, s: Address)
    requires daddr.Length == 4
    modifies daddr
    ensures daddr[..] == s
  {
    for k := 0 to 4
      invariant forall i :: 0 <= i < k ==> daddr[i] == s[i]
    {
      daddr[k] := s[k];
    }
  }

  lemma NoOffsets(step: seq<u32>, a: seq<u32>, rnd: u64)
    requires step == [] && a == []
    ensures Offsets(step, rnd) == ([], rnd) && Shift(a, []) == []
  {}

  /** Restarts near the beginning of the range, with a pseudo-random part of the step
    * in each limb.
    */
  method Restart(daddr: array<u32>, delta: array<u32>, s: Address, rnd: u64) returns (rnd': u64)
    requires daddr.Length == delta.Length == 4 && daddr != delta
    modifies daddr
    ensures var (off, r) := Offsets(delta[..], rnd); daddr[..] == Shift(s, off) && rnd' == r
    ensures rnd' == Drawn(rnd, 4) && exists off :: Masked(off, delta[..], rnd) && daddr[..] == Shift(s, off)
  {
    hide And, Lcg, Shift, Offsets, Masked, Drawn;
    Copy(daddr, s);
    rnd' := rnd;
    var carry := 0;
    NoOffsets(delta[4..], s[4..], rnd);
    for j := 0 to 4
      invariant carry == 0 && daddr[..4 - j] == s[..4 - j]
      invariant Offsets(delta[4 - j..], rnd).1 == rnd'
      invariant daddr[4 - j..] == Shift(s[4 - j..], Offsets(delta[4 - j..], rnd).0)
    {
      assert delta[3 - j..][1..] == delta[4 - j..] && s[3 - j..][1..] == s[4 - j..];
      OffsetsCons(delta[3 - j..], rnd);
      ShiftCons(s[3 - j..], Offsets(delta[3 - j..], rnd).0);
      var add: nat := delta[3 - j];
      rnd' := Lcg(rnd');
      add := And(add, rnd');
      assert daddr[3 - j] == daddr[..4 - j][3 - j] == s[3 - j];
      carry := if daddr[3 - j] + add + carry > WORD64 - 1 then 1 else 0;
      daddr[3 - j] := (daddr[3 - j] + add + carry) % BASE;
      assert daddr[3 - j..] == [daddr[3 - j]] + daddr[4 - j..];
    }
    assert delta[0..] == delta[..] && s[0..] == s && daddr[0..] == daddr[..];
    OffsetsMasked(delta[..], rnd);
  }

  /** Moves to the next address to probe. */
  method Advance(daddr: array<u32>, delta: array<u32>, s: Address, e: Address, rnd: u64) returns (rnd': u64)
    requires daddr.Length == delta.Length == 4 && daddr != delta
    modifies daddr
    ensures Lap(daddr[..], rnd') == Next(Lap(old(daddr[..]), rnd), s, e, delta[..])
  {
    hide Leq, Shift, Offsets;
    AddStep(daddr, delta);
    rnd' := rnd;
    if !Leq(daddr[..], e) {
      rnd' := Restart(daddr, delta, s, rnd);
    }
  }

  /** The address of probe number `k`. */
  function Probed(k: nat, scan: bool, s: Address, e: Address, step: Address): Address {
    if scan then Position(k, s, e, step).addr else s
  }

  /** The addresses of the reachable ones among the first `k` probes. */
  function Reached(k: nat, scan: bool, s: Address, e: Address, step: Address, lookup: nat -> Lookup): (r: seq<Address>)
    ensures |r| <= k
  {
    if k == 0 then []
    else
      Reached(k - 1, scan, s, e, step, lookup)
      + if lookup(k - 1).unreachable then [] else [Probed(k, scan, s, e, step)]
  }

  /** The durations of the reachable ones among the first `k` probes. */
  function Timed(k: nat, lookup: nat -> Lookup): (r: seq<u64>)
    ensures |r| <= k
  {
    if k == 0 then []
    else Timed(k - 1, lookup) + if lookup(k - 1).unreachable then [] else [lookup(k - 1).cycles]
  }

  /** Moves to the next address when scanning. */
  method NextProbe(daddr: array<u32>, delta: array<u32>, scan: bool, s: Address, e: Address, k: nat, rnd: u64)
    returns (rnd': u64)
    requires daddr.Length == delta.Length == 4 && daddr != delta
    requires if scan then Lap(daddr[..], rnd) == Position(k, s, e, delta[..]) else daddr[..] == s
    modifies daddr
    ensures daddr[..] == Probed(k + 1, scan, s, e, delta[..])
    ensures scan ==> Lap(daddr[..], rnd') == Position(k + 1, s, e, delta[..])
  {
    hide Next;
    rnd' := rnd;
    if scan {
      rnd' := Advance(daddr, delta, s, e, rnd);
    }
  }

  ghost function Found(k: nat, lookup: nat -> Lookup): (t: set<nat>) {
    set i: nat | i < k && !lookup(i).unreachable
  }

  /** The addresses of the probes in `idx`; lookup number `i` is that of probe `i + 1`. */
  ghost predicate ProbesOf(idx: seq<nat>, r: seq<Address>, scan: bool, s: Address, e: Address, step: Address) {
    |r| == |idx| && forall j :: 0 <= j < |idx| ==> r[j] == Probed(idx[j] + 1, scan, s, e, step)
  }

  lemma FoundNext(k: nat, lookup: nat -> Lookup, idx: seq<nat>)
    requires Lists(idx, Found(k, lookup))
    ensures Lists(if lookup(k).unreachable then idx else idx + [k], Found(k + 1, lookup))
  {
    hide Lists;
    ListsOneMore(idx, Found(k, lookup), k);
    assert Found(k + 1, lookup) == if lookup(k).unreachable then Found(k, lookup) else Found(k, lookup) + {k};
  }

  lemma FoundNone(lookup: nat -> Lookup)
    ensures Lists([], Found(0, lookup))
  {
    ListsNone();
    assert Found(0, lookup) == {};
  }

  /** One more lookup: nothing is kept, or its duration and its address are. */
  lemma OneMoreLookup(k: nat, lookup: nat -> Lookup, idx: seq<nat>, scan: bool, s: Address, e: Address, step: Address)
    ensures DurationsOf(idx, Timed(k, lookup), lookup) ==>
      DurationsOf(if lookup(k).unreachable then idx else idx + [k], Timed(k + 1, lookup), lookup)
    ensures ProbesOf(idx, Reached(k, scan, s, e, step, lookup), scan, s, e, step) ==>
      ProbesOf(if lookup(k).unreachable then idx else idx + [k], Reached(k + 1, scan, s, e, step, lookup),
               scan, s, e, step)
  {
    hide Probed;
  }

  lemma NoLookup(lookup: nat -> Lookup, scan: bool, s: Address, e: Address, step: Address)
    ensures DurationsOf([], Timed(0, lookup), lookup)
    ensures ProbesOf([], Reached(0, scan, s, e, step, lookup), scan, s, e, step)
  {}

  /** The durations kept are those of exactly the lookups that find a route, in order. */
  lemma {:induction false} TimedAre(k: nat, lookup: nat -> Lookup)
    ensures exists idx: seq<nat> :: Lists(idx, Found(k, lookup)) && DurationsOf(idx, Timed(k, lookup), lookup)
  {
    hide Lists, Found, DurationsOf, ProbesOf, Timed;
    var zero: Address := [0, 0, 0, 0];
    FoundNone(lookup);
    NoLookup(lookup, false, zero, zero, zero);
    if k > 0 {
      TimedAre(k - 1, lookup);
      var idx: seq<nat> :| Lists(idx, Found(k - 1, lookup)) && DurationsOf(idx, Timed(k - 1, lookup), lookup);
      FoundNext(k - 1, lookup, idx);
      OneMoreLookup(k - 1, lookup, idx, false, zero, zero, zero);
    }
  }

  /** The addresses kept are those probed by exactly the lookups that find a route, in
    * order.
    */
  lemma {:induction false} ReachedAre(k: nat, scan: bool, s: Address, e: Address, step: Address, lookup: nat -> Lookup)
    ensures exists idx: seq<nat> ::
      Lists(idx, Found(k, lookup)) && ProbesOf(idx, Reached(k, scan, s, e, step, lookup), scan, s, e, step)
  {
    hide Lists, Found, DurationsOf, ProbesOf, Reached;
    FoundNone(lookup);
    NoLookup(lookup, scan, s, e, step);
    if k > 0 {
      ReachedAre(k - 1, scan, s, e, step, lookup);
      var idx: seq<nat> :|
        Lists(idx, Found(k - 1, lookup)) && ProbesOf(idx, Reached(k - 1, scan, s, e, step, lookup), scan, s, e, step);
      FoundNext(k - 1, lookup, idx);
      OneMoreLookup(k - 1, lookup, idx, scan, s, e, step);
    }
  }

  /** What the first `k` probes leave: with batches the reachable addresses, without them
    * the durations and their sum in 64 bits.
    */
  ghost predicate Gathered(k: nat, batch: u64, scan: bool, s: Address, e: Address, step: Address, lookup: nat -> Lookup,
                           addrs: seq<Address>, results: seq<u64>, average: u64)
  {
    if batch > 1 then addrs == Reached(k, scan, s, e, step, lookup) && average == 0
    else results == Timed(k, lookup) && average == Sum(results) % WORD64
  }

  lemma GatheredNone(batch: u64, scan: bool, s: Address, e: Address, step: Address, lookup: nat -> Lookup)
    ensures Gathered(0, batch, scan, s, e, step, lookup, [], [], 0)
  {
    SumNone([]);
  }

  lemma GatheredNext(k: nat, batch: u64, scan: bool, s: Address, e: Address, step: Address, lookup: nat -> Lookup,
                     addrs: seq<Address>, results: seq<u64>, average: u64, addrs': seq<Address>, results': seq<u64>)
    requires Gathered(k, batch, scan, s, e, step, lookup, addrs, results, average)
    requires lookup(k).unreachable ==> addrs' == addrs && results' == results
    requires !lookup(k).unreachable && batch > 1 ==> addrs' == addrs + [Probed(k + 1, scan, s, e, step)]
    requires !lookup(k).unreachable && batch <= 1 ==> results' == results + [lookup(k).cycles]
    ensures var average' := if lookup(k).unreachable || batch > 1 then average
                            else (average + lookup(k).cycles) % WORD64;
      Gathered(k + 1, batch, scan, s, e, step, lookup, addrs', results', average')
  {
    hide Probed, Sum;
    SumOneMore(results, lookup(k).cycles);
  }

  lemma StaysAt(k: nat, scan: bool, s: Address, e: Address, step: Address)
    ensures !scan ==> Probed(k, scan, s, e, step) == s
  {}

  /** The probing loop. With batches it collects reachable addresses, without it
    * records durations. It makes `probes` lookups.
    */
  method Probe(s: Address, e: Address, scan: bool, loopCount: u64, maxLoopCount: u64, batch: u64,
               lookup: nat -> Lookup, delta: array<u32>,
               addrs: array<Address>, results: array<u64>)
    returns (total: nat, average: u64, probes: nat)
    requires loopCount > 0 && delta.Length == 4
    requires addrs.Length == results.Length == loopCount
    modifies addrs, results
    ensures total <= loopCount && probes <= maxLoopCount
    ensures probes == maxLoopCount || total == loopCount
    ensures Gathered(probes, batch, scan, s, e, old(delta[..]), lookup, addrs[..total], results[..total], average)
  {
    hide Next, Gathered, Probed, Position;
    ghost var step: Address := delta[..];
    var daddr := new u32[4](i requires 0 <= i < 4 => s[i]);
    assert daddr[..] == s && addrs[..0] == [] && results[..0] == [];
    StartsAt(s, e, step);
    GatheredNone(batch, scan, s, e, step, lookup);
    var rnd: u64 := 0;
    total, average, probes := 0, 0, 0;
    while probes < maxLoopCount && total < loopCount
      invariant total <= probes <= maxLoopCount && total <= loopCount
      invariant delta[..] == step && fresh(daddr)
      invariant if scan then Lap(daddr[..], rnd) == Position(probes, s, e, step) else daddr[..] == s
      invariant Gathered(probes, batch, scan, s, e, step, lookup, addrs[..total], results[..total], average)
    {
      ghost var a, r, was := addrs[..total], results[..total], average;
      rnd := NextProbe(daddr, delta, scan, s, e, probes, rnd);
      StaysAt(probes + 1, scan, s, e, step);
      var outcome := lookup(probes);
      probes := probes + 1;
      if !outcome.unreachable {
        if batch > 1 {
          addrs[total] := daddr[..];
          assert addrs[..total + 1] == addrs[..total] + [addrs[total]];
        } else {
          results[total] := outcome.cycles;
          assert results[..total + 1] == results[..total] + [outcome.cycles];
          average := (average + outcome.cycles) % WORD64;
        }
        total := total + 1;
      }
      GatheredNext(probes - 1, batch, scan, s, e, step, lookup, a, r, was, addrs[..total], results[..total]);
    }
  }

  // ----- Batches ----------------------------------------------------------------

  /** What is recorded for each batch timed. */
  function PerFlow(timed: seq<seq<Address>>, batch: u64, elapsed: (nat, seq<Address>) -> u64): (r: seq<u64>)
    requires batch > 0
    ensures |r| == |timed|
  {
    if timed == [] then []
    else
      var last := |timed| - 1;
      PerFlow(timed[..last], batch, elapsed) + [Quot(elapsed(last, timed[last]), batch)]
  }

  lemma PerFlowOneMore(timed: seq<seq<Address>>, x: seq<Address>, batch: u64, elapsed: (nat, seq<Address>) -> u64)
    requires batch > 0
    ensures PerFlow(timed + [x], batch, elapsed) ==
      PerFlow(timed, batch, elapsed) + [Quot(elapsed(|timed|, x), batch)]
  {
    assert (timed + [x])[..|timed|] == timed;
  }

  /** Each result is the duration of its batch, divided by the number of flows. */
  lemma {:induction false} PerFlowAt(timed: seq<seq<Address>>, batch: u64, elapsed: (nat, seq<Address>) -> u64, k: nat)
    requires batch > 0 && k < |timed|
    ensures PerFlow(timed, batch, elapsed)[k] == elapsed(k, timed[k]) / batch
  {
    if k < |timed| - 1 {
      PerFlowAt(timed[..|timed| - 1], batch, elapsed, k);
    }
  }

  lemma NoBatch(batch: u64, elapsed: (nat, seq<Address>) -> u64)
    requires batch > 0
    ensures PerFlow([], batch, elapsed) == [] && Flatten<Address>([]) == []
  {}

  method FillBatch(addrs: array<Address>, i: nat, batched: array<Address>)
    requires i + batched.Length <= addrs.Length && batched != addrs
    modifies batched
    ensures batched[..] == addrs[i..i + batched.Length]
  {
    for j := 0 to batched.Length
      invariant batched[..j] == addrs[i..i + j]
    {
      batched[j] := addrs[i + j];
      assert batched[..j + 1] == batched[..j] + [batched[j]];
    }
    assert batched[..batched.Length] == batched[..];
  }

  /** The batches timed so far: they hold `flows` in order, a batch each, and `results` is
    * what they record.
    */
  ghost predicate TimedBatches(timed: seq<seq<Address>>, flows: seq<Address>, batch: u64,
                               elapsed: (nat, seq<Address>) -> u64, results: seq<u64>, average: u64)
    requires batch > 0
  {
    && (forall k :: 0 <= k < |timed| ==> |timed[k]| == batch)
    && Flatten(timed) == flows
    && results == PerFlow(timed, batch, elapsed)
    && average == Sum(results) % WORD64
  }

  lemma NoneTimed(batch: u64, elapsed: (nat, seq<Address>) -> u64)
    requires batch > 0
    ensures TimedBatches([], [], batch, elapsed, [], 0)
  {
    NoBatch(batch, elapsed);
    SumNone([]);
  }

  lemma OneMoreTimed(timed: seq<seq<Address>>, flows: seq<Address>, batch: u64,
                     elapsed: (nat, seq<Address>) -> u64, results: seq<u64>, average: u64, x: seq<Address>)
    requires batch > 0 && |x| == batch && TimedBatches(timed, flows, batch, elapsed, results, average)
    ensures var cycles := Quot(elapsed(|timed|, x), batch);
      TimedBatches(timed + [x], flows + x, batch, elapsed, results + [cycles], (average + cycles) % WORD64)
  {
    hide Sum, PerFlow, Flatten, Quot;
    SumOneMore(results, Quot(elapsed(|timed|, x), batch));
    FlattenOneMore(timed, x);
    PerFlowOneMore(timed, x, batch, elapsed);
  }

  /** Times the collected addresses a batch at a time. Every address is timed at most
    * once and in order; fewer than a batch are left over. `timed` records the flows of
    * each timed batch.
    */
  method TimeBatches(addrs: array<Address>, total: nat, batch: u64,
                     elapsed: (nat, seq<Address>) -> u64, results: array<u64>)
    returns (n: nat, average: u64, ghost timed: seq<seq<Address>>)
    requires batch > 0 && total <= addrs.Length == results.Length
    modifies results
    ensures n == |timed| && n * batch <= total < n * batch + batch
    ensures n <= results.Length && TimedBatches(timed, addrs[..n * batch], batch, elapsed, results[..n], average)
  {
    hide TimedBatches, Quot;
    var batched := new Address[batch];
    n, average, timed := 0, 0, [];
    NoneTimed(batch, elapsed);
    assert addrs[..0] == [] && results[..0] == [];
    var i := 0;
    while i + batch <= total
      invariant i == n * batch <= total && n == |timed| <= i
      invariant fresh(batched)
      invariant TimedBatches(timed, addrs[..i], batch, elapsed, results[..n], average)
    {
      FillBatch(addrs, i, batched);
      OneMoreTimed(timed, addrs[..i], batch, elapsed, results[..n], average, batched[..]);
      assert addrs[..i + batch] == addrs[..i] + batched[..];
      var cycles := Quot(elapsed(n, batched[..]), batch);
      results[n] := cycles;
      assert results[..n + 1] == results[..n] + [cycles];
      timed := timed + [batched[..]];
      average := (average + cycles) % WORD64;
      Distribute(n, 1, batch);
      n, i := n + 1, i + batch;
    }
  }

  ghost predicate IsProbe(a: Address, j: nat, scan: bool, s: Address, e: Address, step: Address) {
    && a == Probed(j, scan, s, e, step)
    && (Value(s) <= Value(a) <==> !scan || Up(s, Displacement(j, s, e, step)))
  }

  /** Where an address kept comes from, and exactly when it is not below the start. */
  ghost predicate Located(a: Address, k: nat, scan: bool, s: Address, e: Address, step: Address) {
    exists j :: 0 < j <= k && IsProbe(a, j, scan, s, e, step)
  }

  /** Addresses among the first `k` probes: for a range in order they are at most its end,
    * and without a scan they are the start.
    */
  ghost predicate Bounded(addrs: seq<Address>, k: nat, scan: bool, s: Address, e: Address, step: Address) {
    forall i :: 0 <= i < |addrs| ==>
      && (Value(s) <= Value(e) ==> Value(addrs[i]) <= Value(e))
      && (!scan ==> addrs[i] == s)
      && Located(addrs[i], k, scan, s, e, step)
  }

  lemma BoundedNone(k: nat, scan: bool, s: Address, e: Address, step: Address)
    ensures Bounded([], k, scan, s, e, step)
  {}

  lemma BoundedPrefix(addrs: seq<Address>, k: nat, scan: bool, s: Address, e: Address, step: Address, l: nat)
    requires l <= |addrs| && Bounded(addrs, k, scan, s, e, step)
    ensures Bounded(addrs[..l], k, scan, s, e, step)
  {}

  lemma ProbedWithinRange(k: nat, scan: bool, s: Address, e: Address, n: u64)
    requires n > 0
    ensures var a := Probed(k, scan, s, e, Moves(s, e, n));
      && (Value(s) <= Value(e) ==> Value(a) <= Value(e))
      && (!scan ==> a == s)
      && IsProbe(a, k, scan, s, e, Moves(s, e, n))
  {
    hide Value, Leq, Subtract, Step, Position, Displacement, Up;
    AboveStart(k, s, e, Moves(s, e, n));
    if Value(s) <= Value(e) {
      LeqIsNumeric(s, e);
      if s != e {
        NeverPastEnd(k, s, e, n);
      } else {
        OneAddress(k, s, n);
      }
    }
  }

  /** Whatever the lookups answer, no address kept is past the end of a range in order;
    * it is not below the start exactly when its displacement goes up.
    */
  lemma {:induction false} ReachedWithinRange(k: nat, scan: bool, s: Address, e: Address, n: u64, lookup: nat -> Lookup)
    requires n > 0
    ensures Bounded(Reached(k, scan, s, e, Moves(s, e, n), lookup), k, scan, s, e, Moves(s, e, n))
  {
    hide Value, Moves, Probed, IsProbe;
    if k > 0 {
      ReachedWithinRange(k - 1, scan, s, e, n, lookup);
      ProbedWithinRange(k, scan, s, e, n);
    }
  }

  /** Both phases, on any range. `results[..total]` is what the statistics are computed
    * from, `mean` is the average that is printed, and `scan` tells whether the range is
    * scanned.
    */
  method DoBench(s: Address, e: Address, stale: bool, loopCount: u64, maxLoopCount: u64, batch: u64,
                 lookup: nat -> Lookup, elapsed: (nat, seq<Address>) -> u64)
    returns (results: array<u64>, total: nat, mean: nat, probes: nat, scan: bool, ghost timed: seq<seq<Address>>)
    requires loopCount > 0 && batch > 0
    ensures results.Length == loopCount && total <= loopCount && probes <= maxLoopCount
    ensures mean == Mean(results[..total])
    ensures scan <==> Value(s) < Value(e) || stale
    ensures batch == 1 ==> results[..total] == Timed(probes, lookup)
    ensures batch > 1 ==> results[..total] == PerFlow(timed, batch, elapsed)
    ensures batch > 1 ==> var reached := Reached(probes, scan, s, e, Moves(s, e, loopCount), lookup);
      Flatten(timed) <= reached && |reached| - |Flatten(timed)| < batch
    ensures batch > 1 ==> forall k :: 0 <= k < |timed| ==> |timed[k]| == batch
    ensures Bounded(Flatten(timed), probes, scan, s, e, Moves(s, e, loopCount))
  {
    hide Bounded, Sum, Mean, PerFlow, Flatten, Reached, Moves, Value, Timed;
    results := new u64[loopCount];
    var addrs := new Address[loopCount];
    var delta;
    delta, scan := PrepareScan(s, e, loopCount, stale);
    var average;
    total, average, probes := Probe(s, e, scan, loopCount, maxLoopCount, batch, lookup, delta, addrs, results);
    timed := [];
    NoBatch(batch, elapsed);
    BoundedNone(probes, scan, s, e, Moves(s, e, loopCount));
    if batch > 1 {
      ReachedWithinRange(probes, scan, s, e, loopCount, lookup);
      ghost var kept := addrs[..total];
      total, average, timed := TimeBatches(addrs, total, batch, elapsed, results);
      assert Flatten(timed) == kept[..total * batch];
      BoundedPrefix(kept, probes, scan, s, e, Moves(s, e, loopCount), total * batch);
    }
    MeanIs(results[..total], average);
    mean := if total > 0 then average / total else 0;
  }
}
