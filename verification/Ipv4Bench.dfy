/** The measuring loop of the IPv4 benchmark: which addresses are looked up, and how
  * lookups are grouped in batches.
  */
module Ipv4Bench {
  import opened Words
  import opened Wrappers
  import opened Stats
  import opened Display

  // ----- Addresses --------------------------------------------------------------

  /** Reads the range. The guard of the swap compares an unsigned difference with 0, so a
    * range is never turned round: it is scanned as it is given, when it is in order.
    * `stale` is the value that `scan` has before it is given one.
    */
  method ReadRange(s: u32, e: u32, stale: bool) returns (start: u32, end: u32, scan: bool, delta: u32)
    ensures start == s && end == e
    ensures scan <==> s < e || stale
    ensures delta == if s < e then e - s else 0
  {
    start, end := s, e;
    if (end - start) % BASE < 0 {
      start, end := end, start;
    }
    scan, delta := stale, 0;
    if start < end {
      scan, delta := true, end - start;
    }
  }

  /** Destination number `i` of a scan of [s, e). */
  function Daddr(i: u64, s: u32, e: u32, count: u64): nat
    requires s < e && count > 0
  {
    var delta := e - s;
    if delta < count then s + Rem(i, delta) else s + Quot(delta, count) * i
  }

  lemma QuotPositive(x: u64, n: u64)
    requires 0 < n <= x
    ensures Quot(x, n) > 0
  {
    QuotientAtLeast(x, n, 1);
  }

  lemma Spread(q: nat, i: nat, k: nat)
    requires i < k
    ensures q * i + q <= q * k
  {
    Distribute(i, 1, q);
    Multiply(q, i + 1, k);
  }

  /** Multiples of the spacing stay below the length of the range, and differ. */
  lemma Spacing(delta: u64, count: u64, i: nat, k: nat)
    requires 0 < count <= delta && i < count && k < count
    ensures var q := Quot(delta, count);
      0 <= q * i < delta && (q * i == q * k <==> i == k)
  {
    hide Quot, Rem;
    var q := Quot(delta, count);
    QuotRem(delta, count);
    QuotPositive(delta, count);
    Spread(q, i, count);
    if i < k {
      Spread(q, i, k);
    } else if k < i {
      Spread(q, k, i);
    }
  }

  /** Every destination lies in the range, so 32 bits hold it. Two lookups share a
    * destination exactly when the range is shorter than the number of lookups and they
    * are a whole number of laps apart.
    */
  lemma Destinations(i: u64, k: u64, s: u32, e: u32, count: u64)
    requires s < e && i < count && k < count
    ensures s <= Daddr(i, s, e, count) < e
    ensures Daddr(i, s, e, count) == Daddr(k, s, e, count) <==>
      i == k || (e - s < count && Rem(i, e - s) == Rem(k, e - s))
  {
    hide Quot, Rem;
    if e - s >= count {
      Spacing(e - s, count, i, k);
    }
  }

  /** A range at least as long as the number of lookups is sampled evenly: neighbouring
    * destinations are as far apart as that number of lookups allows.
    */
  lemma EvenlySpread(i: u64, s: u32, e: u32, count: u64)
    requires s < e && e - s >= count && i + 1 < count
    ensures Daddr(0, s, e, count) == s
    ensures var gap := Daddr(i + 1, s, e, count) - Daddr(i, s, e, count);
      gap > 0 && gap * count <= e - s < (gap + 1) * count
  {
    hide Quot, Rem;
    var q := Quot(e - s, count);
    QuotRem(e - s, count);
    QuotPositive(e - s, count);
    Distribute(i, 1, q);
    Distribute(q, 1, count);
  }

  lemma NextRem(i: u64, n: u64)
    requires n > 0 && i + 1 < WORD64
    ensures Rem(i + 1, n) == if Rem(i, n) + 1 == n then 0 else Rem(i, n) + 1
  {
    hide Quot, Rem;
    QuotRem(i, n);
    if Rem(i, n) + 1 == n {
      Distribute(Quot(i, n), 1, n);
      QuotientIs(i + 1, n, Quot(i, n) + 1, 0);
    } else {
      QuotientIs(i + 1, n, Quot(i, n), Rem(i, n) + 1);
    }
  }

  /** A shorter range is gone through address by address, again and again. */
  lemma LapAfterLap(i: u64, s: u32, e: u32, count: u64)
    requires s < e && e - s < count && i + 1 < count
    ensures Daddr(0, s, e, count) == s
    ensures Daddr(i + 1, s, e, count) ==
      if Daddr(i, s, e, count) + 1 == e then s else Daddr(i, s, e, count) + 1
  {
    hide Rem, Quot;
    NextRem(i, e - s);
    QuotientIs(0, e - s, 0, 0);
  }

  predicate Loopback(a: nat) {
    a / 0x100_0000 == 127
  }

  /** The destinations of the first `k` turns; a scan skips loopback addresses. */
  function Flows(k: u64, s: u32, e: u32, count: u64): (f: seq<nat>)
    requires count > 0
    ensures |f| <= k
  {
    if k == 0 then []
    else if s >= e then Flows(k - 1, s, e, count) + [s]
    else
      var a := Daddr(k - 1, s, e, count);
      Flows(k - 1, s, e, count) + if Loopback(a) then [] else [a]
  }

  /** The turns that send a lookup: all of them without a scan, in a scan those whose
    * destination is outside 127.0.0.0/8.
    */
  ghost predicate Sends(i: u64, s: u32, e: u32, count: u64)
    requires count > 0
  {
    s >= e || !(0x7f00_0000 <= Daddr(i, s, e, count) < 0x8000_0000)
  }

  lemma LoopbackIs(a: nat)
    ensures Loopback(a) <==> 0x7f00_0000 <= a < 0x8000_0000
  {}

  ghost function Sending(k: u64, s: u32, e: u32, count: u64): (t: set<nat>)
    requires count > 0
  {
    set i: nat | i < k && Sends(i, s, e, count)
  }

  /** The flows are the destinations of the turns in `idx`. */
  ghost predicate Destined(idx: seq<nat>, f: seq<nat>, k: u64, s: u32, e: u32, count: u64)
    requires count > 0
  {
    |f| == |idx| && forall j :: 0 <= j < |idx| ==> idx[j] < k && f[j] == if s < e then Daddr(idx[j], s, e, count) else s
  }

  /** The flows are the destinations of exactly the turns that send, in order. */
  lemma {:induction false} FlowsAre(k: u64, s: u32, e: u32, count: u64)
    requires count > 0
    ensures exists idx: seq<nat> ::
      Lists(idx, Sending(k, s, e, count)) && Destined(idx, Flows(k, s, e, count), k, s, e, count)
  {
    hide Lists, Daddr;
    if k == 0 {
      ListsNone();
      assert Sending(k, s, e, count) == {};
      assert Destined([], Flows(k, s, e, count), k, s, e, count);
    } else {
      FlowsAre(k - 1, s, e, count);
      var idx: seq<nat> :| Lists(idx, Sending(k - 1, s, e, count)) &&
        Destined(idx, Flows(k - 1, s, e, count), k - 1, s, e, count);
      ListsOneMore(idx, Sending(k - 1, s, e, count), k - 1);
      if s < e {
        LoopbackIs(Daddr(k - 1, s, e, count));
      }
      if Sends(k - 1, s, e, count) {
        assert Sending(k, s, e, count) == Sending(k - 1, s, e, count) + {k - 1};
        assert Destined(idx + [k - 1], Flows(k, s, e, count), k, s, e, count);
      } else {
        assert Sending(k, s, e, count) == Sending(k - 1, s, e, count);
        assert Destined(idx, Flows(k, s, e, count), k, s, e, count);
      }
    }
  }

  // ----- Batches ----------------------------------------------------------------

  /** Some flow of batch number `b` is unreachable. */
  predicate Bad(b: nat, batch: nat, unreachable: (nat, nat) -> bool) {
    exists j :: 0 <= j < batch && unreachable(b, j)
  }

  /** What the first `n` batches record: the mean duration of each batch without an
    * unreachable flow.
    */
  function Recorded(n: nat, batch: u64, unreachable: (nat, nat) -> bool, elapsed: nat -> u64): (r: seq<u64>)
    requires batch > 0
    ensures |r| <= n
  {
    if n == 0 then []
    else
      Recorded(n - 1, batch, unreachable, elapsed)
      + if Bad(n - 1, batch, unreachable) then [] else [Quot(elapsed(n - 1), batch)]
  }

  /** Every flow of batch number `b` has a route. */
  ghost predicate AllFound(b: nat, batch: nat, unreachable: (nat, nat) -> bool) {
    forall j :: 0 <= j < batch ==> !unreachable(b, j)
  }

  ghost function Good(n: nat, batch: nat, unreachable: (nat, nat) -> bool): (t: set<nat>) {
    set b: nat | b < n && AllFound(b, batch, unreachable)
  }

  /** The results are the mean durations of the batches in `idx`. */
  ghost predicate MeansOf(idx: seq<nat>, r: seq<u64>, batch: u64, elapsed: nat -> u64)
    requires batch > 0
  {
    |r| == |idx| && forall j :: 0 <= j < |idx| ==> r[j] == elapsed(idx[j]) / batch
  }

  /** What is recorded are the mean durations of exactly the batches all of whose lookups
    * found a route, in order.
    */
  lemma {:induction false} RecordedAre(n: nat, batch: u64, unreachable: (nat, nat) -> bool, elapsed: nat -> u64)
    requires batch > 0
    ensures exists idx: seq<nat> ::
      Lists(idx, Good(n, batch, unreachable)) && MeansOf(idx, Recorded(n, batch, unreachable, elapsed), batch, elapsed)
  {
    hide Lists;
    if n == 0 {
      ListsNone();
      assert Good(n, batch, unreachable) == {};
      assert MeansOf([], Recorded(n, batch, unreachable, elapsed), batch, elapsed);
    } else {
      RecordedAre(n - 1, batch, unreachable, elapsed);
      var idx: seq<nat> :| Lists(idx, Good(n - 1, batch, unreachable)) &&
        MeansOf(idx, Recorded(n - 1, batch, unreachable, elapsed), batch, elapsed);
      ListsOneMore(idx, Good(n - 1, batch, unreachable), n - 1);
      if Bad(n - 1, batch, unreachable) {
        assert Good(n, batch, unreachable) == Good(n - 1, batch, unreachable);
        assert MeansOf(idx, Recorded(n, batch, unreachable, elapsed), batch, elapsed);
      } else {
        assert Good(n, batch, unreachable) == Good(n - 1, batch, unreachable) + {n - 1};
        assert MeansOf(idx + [n - 1], Recorded(n, batch, unreachable, elapsed), batch, elapsed);
      }
    }
  }

  /** Looks up a full batch and searches the answers for an unreachable one. */
  method LookUp(b: nat, batch: u64, unreachable: (nat, nat) -> bool) returns (err: bool)
    ensures err <==> Bad(b, batch, unreachable)
  {
    var answers := new bool[batch];
    for j := 0 to batch
      invariant forall k :: 0 <= k < j ==> answers[k] == unreachable(b, k)
    {
      answers[j] := unreachable(b, j);
    }
    err := false;
    for j := 0 to batch
      invariant !err && forall k :: 0 <= k < j ==> !unreachable(b, k)
    {
      if answers[j] {
        return true;
      }
    }
  }

  /** After `i` turns: the flows so far are the full batches followed by the pending
    * flows, in order.
    */
  ghost predicate Kept(i: u64, s: u32, e: u32, count: u64, batch: u64, batches: seq<seq<nat>>, pending: seq<nat>)
    requires count > 0
  {
    && (forall b :: 0 <= b < |batches| ==> |batches[b]| == batch)
    && Flatten(batches) + pending == Flows(i, s, e, count)
    && |batches| * batch + |pending| == |Flows(i, s, e, count)|
  }

  lemma KeptNone(s: u32, e: u32, count: u64, batch: u64)
    requires count > 0
    ensures Kept(0, s, e, count, batch, [], [])
  {}

  lemma KeptTurn(i: u64, s: u32, e: u32, count: u64, batch: u64, batches: seq<seq<nat>>, pending: seq<nat>, a: nat)
    requires count > 0 && i < count && Kept(i, s, e, count, batch, batches, pending)
    requires a == if s < e then Daddr(i, s, e, count) else s
    ensures if s < e && Loopback(a) then Kept(i + 1, s, e, count, batch, batches, pending)
            else Kept(i + 1, s, e, count, batch, batches, pending + [a])
  {
    hide Daddr;
    assert Flatten(batches) + (pending + [a]) == Flatten(batches) + pending + [a];
  }

  /** A full batch is flushed; its result has a place in the results. */
  lemma KeptFlush(i: u64, s: u32, e: u32, count: u64, batch: u64, batches: seq<seq<nat>>, pending: seq<nat>)
    requires batch > 0 && count > 0 && i <= count
    requires Kept(i, s, e, count, batch, batches, pending) && |pending| == batch
    ensures Kept(i, s, e, count, batch, batches + [pending], [])
    ensures |batches| < Quot(count, batch)
  {
    FlattenOneMore(batches, pending);
    assert Flatten(batches + [pending]) + [] == Flatten(batches) + pending;
    Distribute(|batches|, 1, batch);
    QuotientAtLeast(count, batch, |batches| + 1);
  }

  lemma RecordedNone(batch: u64, unreachable: (nat, nat) -> bool, elapsed: nat -> u64)
    requires batch > 0
    ensures Recorded(0, batch, unreachable, elapsed) == []
  {}

  lemma RecordedOneMore(n: nat, batch: u64, unreachable: (nat, nat) -> bool, elapsed: nat -> u64)
    requires batch > 0
    ensures Recorded(n + 1, batch, unreachable, elapsed) == Recorded(n, batch, unreachable, elapsed)
      + if Bad(n, batch, unreachable) then [] else [Quot(elapsed(n), batch)]
  {}

  /** The loop with batches. Flows are conserved: `batches` holds them in order, `batch`
    * at a time, and fewer than `batch` are left over. The results are those of the
    * batches without an unreachable flow.
    */
  method RunBatches(s: u32, e: u32, count: u64, batch: u64,
                    unreachable: (nat, nat) -> bool, elapsed: nat -> u64, results: array<u64>)
    returns (total: nat, left: seq<nat>, ghost batches: seq<seq<nat>>)
    requires batch > 1 && count > 0 && results.Length == Quot(count, batch) + 1
    modifies results
    ensures total <= |batches| <= Quot(count, batch) && |left| < batch
    ensures Kept(count, s, e, count, batch, batches, left)
    ensures results[..total] == Recorded(|batches|, batch, unreachable, elapsed)
  {
    hide Recorded, Kept, Bad, Daddr, Loopback, Quot;
    var batched := new nat[batch];
    var i: u64, j, flushed := 0, 0, 0;
    total, batches := 0, [];
    KeptNone(s, e, count, batch);
    RecordedNone(batch, unreachable, elapsed);
    assert batched[..0] == [];
    while i < count
      invariant i <= count && j < batch && fresh(batched)
      invariant total <= flushed == |batches| <= Quot(count, batch)
      invariant Kept(i, s, e, count, batch, batches, batched[..j])
      invariant results[..total] == Recorded(flushed, batch, unreachable, elapsed)
    {
      var daddr: nat := if s < e then Daddr(i, s, e, count) else s;
      KeptTurn(i, s, e, count, batch, batches, batched[..j], daddr);
      i := i + 1;
      if s < e && Loopback(daddr) {
        continue;
      }
      batched[j] := daddr;
      j := j + 1;
      assert batched[..j] == batched[..j - 1] + [daddr];
      if j != batch {
        continue;
      }
      assert batched[..j] == batched[..];
      KeptFlush(i, s, e, count, batch, batches, batched[..]);
      RecordedOneMore(flushed, batch, unreachable, elapsed);
      var err := LookUp(flushed, batch, unreachable);
      batches := batches + [batched[..]];
      if !err {
        results[total] := Quot(elapsed(flushed), batch);
        assert results[..total + 1] == results[..total] + [results[total]];
        total := total + 1;
      }
      flushed, j := flushed + 1, 0;
      assert batched[..0] == [];
    }
    left := batched[..j];
  }

  // ----- No batches -------------------------------------------------------------

  /** The durations recorded in the first `k` turns: a turn records nothing when it
    * skips a loopback address or the destination is unreachable.
    */
  function Measured(k: u64, s: u32, e: u32, count: u64, lookup: nat -> Lookup): (r: seq<u64>)
    requires count > 0
    ensures |r| <= |Flows(k, s, e, count)|
  {
    if k == 0 then []
    else
      Measured(k - 1, s, e, count, lookup)
      + if (s < e && Loopback(Daddr(k - 1, s, e, count))) || lookup(k - 1).unreachable then []
        else [lookup(k - 1).cycles]
  }

  ghost function Answered(k: u64, s: u32, e: u32, count: u64, lookup: nat -> Lookup): (t: set<nat>)
    requires count > 0
  {
    set i: nat | i < k && Sends(i, s, e, count) && !lookup(i).unreachable
  }

  lemma AnsweredNext(k: u64, s: u32, e: u32, count: u64, lookup: nat -> Lookup, idx: seq<nat>)
    requires count > 0 && k + 1 < WORD64 && Lists(idx, Answered(k, s, e, count, lookup))
    ensures Lists(if Sends(k, s, e, count) && !lookup(k).unreachable then idx + [k] else idx,
                  Answered(k + 1, s, e, count, lookup))
  {
    hide Lists, Sends;
    ListsOneMore(idx, Answered(k, s, e, count, lookup), k);
    var before := Answered(k, s, e, count, lookup);
    assert Answered(k + 1, s, e, count, lookup) ==
      if Sends(k, s, e, count) && !lookup(k).unreachable then before + {k} else before;
  }

  lemma MeasuredNext(k: u64, s: u32, e: u32, count: u64, lookup: nat -> Lookup, idx: seq<nat>)
    requires count > 0 && k + 1 < WORD64 && DurationsOf(idx, Measured(k, s, e, count, lookup), lookup)
    ensures DurationsOf(if Sends(k, s, e, count) && !lookup(k).unreachable then idx + [k] else idx,
                        Measured(k + 1, s, e, count, lookup), lookup)
  {
    hide Daddr, Loopback;
    if s < e {
      LoopbackIs(Daddr(k, s, e, count));
    }
  }

  lemma NoTurns(s: u32, e: u32, count: u64, lookup: nat -> Lookup)
    requires count > 0
    ensures Lists([], Answered(0, s, e, count, lookup))
    ensures DurationsOf([], Measured(0, s, e, count, lookup), lookup)
  {
    ListsNone();
    assert Answered(0, s, e, count, lookup) == {};
  }

  /** What is recorded are the durations of exactly the turns that send a lookup and find
    * a route, in order.
    */
  lemma {:induction false} MeasuredAre(k: u64, s: u32, e: u32, count: u64, lookup: nat -> Lookup)
    requires count > 0
    ensures exists idx: seq<nat> ::
      Lists(idx, Answered(k, s, e, count, lookup)) && DurationsOf(idx, Measured(k, s, e, count, lookup), lookup)
  {
    hide Lists, Answered, DurationsOf, Measured, Sends;
    NoTurns(s, e, count, lookup);
    if k > 0 {
      MeasuredAre(k - 1, s, e, count, lookup);
      var idx: seq<nat> :| Lists(idx, Answered(k - 1, s, e, count, lookup)) &&
        DurationsOf(idx, Measured(k - 1, s, e, count, lookup), lookup);
      AnsweredNext(k - 1, s, e, count, lookup, idx);
      MeasuredNext(k - 1, s, e, count, lookup, idx);
    }
  }

  /** The loop with a batch of 1. */
  method RunSingles(s: u32, e: u32, count: u64, lookup: nat -> Lookup, results: array<u64>)
    returns (total: nat)
    requires count > 0 && results.Length == count + 1
    modifies results
    ensures total <= count && total <= |Flows(count, s, e, count)|
    ensures results[..total] == Measured(count, s, e, count, lookup)
  {
    hide Daddr, Loopback;
    total := 0;
    for i := 0 to count
      invariant total <= i && results[..total] == Measured(i, s, e, count, lookup)
    {
      if s < e {
        var daddr := Daddr(i, s, e, count);
        if Loopback(daddr) {
          continue;
        }
      }
      var outcome := lookup(i);
      if outcome.unreachable {
        continue;
      }
      results[total] := outcome.cycles;
      assert results[..total + 1] == results[..total] + [outcome.cycles];
      total := total + 1;
    }
  }

  // ----- The benchmark ----------------------------------------------------------

  /** What is reported on the recorded samples. */
  ghost predicate Reported(samples: seq<u64>, r: Report, full: nat -> bool) {
    && Sorted(SortedCopy(samples))
    && (samples == [] ==> r == NoMatch)
    && (0 < |samples| < 20 ==> r == OutOfBounds)
    && (20 <= |samples| && 95 * |samples| < BASE ==> Faithful(SortedCopy(samples), r, full))
  }

  lemma QuotientByOne(x: u64)
    ensures Quot(x, 1) == x
  {}

  /** The whole benchmark, for a results array that could be allocated: what the loops
    * record is what is reported on. None stands for the remainder by a null length, which
    * happens exactly when `scan` is used without a value on a range that is not in order.
    */
  method DoBench(s: u32, e: u32, stale: bool, count: u64, batch: u64, lookup: nat -> Lookup,
                 unreachable: (nat, nat) -> bool, elapsed: nat -> u64, full: nat -> bool, ghost room: nat)
    returns (r: Option<Report>, ghost samples: seq<u64>, ghost batches: seq<seq<nat>>, ghost left: seq<nat>)
    requires count > 0 && batch > 0 && Quot(count, batch) + 1 < BASE && full(room)
    ensures r.None? <==> stale && s >= e
    ensures r.Some? ==> Reported(samples, r.value, full)
    ensures r.Some? && batch == 1 ==> samples == Measured(count, s, e, count, lookup)
    ensures r.Some? && batch > 1 ==>
      && samples == Recorded(|batches|, batch, unreachable, elapsed)
      && Kept(count, s, e, count, batch, batches, left) && |left| < batch
  {
    hide Recorded, Kept, Measured, Flows, Quot, SortedCopy, Faithful;
    samples, batches, left := [], [], [];
    var start, end, scan, delta := ReadRange(s, e, stale);
    var results := new u64[Quot(count, batch) + 1];
    if scan && delta == 0 {
      return None, samples, batches, left;
    }
    var total;
    if batch <= 1 {
      QuotientByOne(count);
      total := RunSingles(start, end, count, lookup, results);
    } else {
      var pending;
      total, pending, batches := RunBatches(start, end, count, batch, unreachable, elapsed, results);
      left := pending;
    }
    samples := results[..total];
    SortedCopySorted(samples);
    var report := DisplayStatistics(results, total, full, room);
    r := Some(report);
  }
}
