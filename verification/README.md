# Network lab tools: a verified model

This project models five programs of the repository and proves properties of the models with Dafny:

- the IPv6 route-lookup benchmark (`lab-routes-ipv6/2026/kbench_mod.c`): the walk that measures the depth of the routing tree (`FibWalk.dfy`), the multi-limb address arithmetic (`Limbs.dfy`), the address scan (`Scan.dfy`), the probing loop and the batches (`Ipv6Bench.dfy`);
- the IPv4 route-lookup benchmark (`lab-routes-ipv4/kbench_mod.c`): destinations and batches (`Ipv4Bench.dfy`), statistics (`Stats.dfy`), the histogram (`Histogram.dfy`), and the whole report (`Display.dfy`);
- the ExaBGP health checker (`lab-exabgp/healthcheck.py`, `HealthCheck.dfy`);
- the launch of a containerlab sandbox, a handshake of processes over two pipes (`clab-gnmi/setup.py`, `Handshake.dfy`);
- the bridge between IOU instances and VDE switches (`lab-iou/iou2vde.py`, `IouWire.dfy`).

`Words.dfy`, `Bits.dfy` and `Wrappers.dfy` hold machine words, arithmetic and bitwise facts, and option types. `dafny verify dfyconfig.toml` checks everything.

Machine widths are explicit: 32- and 64-bit words are subset types or written-out remainders. Kernel calls, clocks and lookups are function parameters, so every theorem holds for all their outcomes. Most files use `hide`, well over a hundred times in all, to keep the bodies of functions away from the solver where a proof does not need them; it removes facts and adds none.

## What the proofs found

- **The scan is bounded above, not below.** A limb that borrows stores the wrong (negated) limb, so the step is not always the range divided by the sample count: from `::ffff:ffff` to `::1:0:5` 2^32 - 6 is stored for 6. Still, for every range in order no address past its end is ever probed, with any sample count and any pseudo-random restart. The start is no such bound: that same range with one sample is probed below its start, and of the 5000 probes from `2001:db8:8000::` to `2001:db9:8000::` the second half is. The exact condition is proved for every position of every run, and a range whose step moves the top limb, like the default one, is probed inside for its whole first lap.
- **The scan is not linear.** The header comment (lab-routes-ipv6/2026/kbench_mod.c:4-5) calls the range a linear space. With 64-bit `unsigned long` the carry of lines 305-307 is never set, and the default scan leaves the linear space at its second step. The exact condition is proved, and so is the exact condition under which two probes are of the same address; the range from `::` to `0:2::` with four probes repeats two addresses.
- **Restarts are less random than meant.** The generator is a bijection, but its two low bits have period four and a restart draws four values. The two low bits of every offset are therefore the same at every restart, and a range whose step is forced to 1 always restarts at its second address.
- **`scan` may be used without a value.** It is only ever set to true (lab-routes-ipv6/2026/kbench_mod.c:269, lab-routes-ipv4/kbench_mod.c:269), for ranges in order with more than one address. For any other range the models take its stale value as a parameter: the IPv6 module stays at the start when it is false, and otherwise moves by a difference with its bytes reversed; the IPv4 module takes a remainder by zero exactly when the stale value is true. The swap of lab-routes-ipv4/kbench_mod.c:236-237 compares an unsigned difference with zero and never happens, so a reversed range stays reversed (`Ipv4Bench.ReadRange`).
- **Fewer than 20 samples.** The 95th percentile then reads past the samples; the adjusted second index is computed and not used.
- **Histogram unit.** It is a power of ten exactly when the raw bucket width is below 2^35. Among the widths a histogram can have it is negative exactly from 2^42 up to 2^45 and from 2^52 up to 2^55; the buckets collapse to width 1 and the bound of 31 rows is lost exactly there.
- **Histogram rows.** A row whose end does not fit 64 bits loses the samples in it. The histogram is right exactly when the first row and the rows of all samples up to the 95th percentile that the buffer still holds end below 2^64.
- **Average depth.** It is ten times the mean exactly when ten times the total depth fits 64 bits.
- **Repeated addresses.** The health checker raises the metric per listed address; a peer holds that of the last listing.
- **Unconfigured session.** The child does not look at what its read returned. The session is entered without a complete configuration exactly when the parent dies before pasta is through.

## Model

| member | source | states |
|---|---|---|
| FibWalk.CollectDepth | lab-routes-ipv6/2026/kbench_mod.c:129-207 | on every well-formed tree the stackless walk terminates, counts exactly the route-carrying nodes with `depth` equal to their distance from the root, and reports the maximum depth over the tree and its wrapped mean; for fewer than 2^32 routes ten times the mean, rounded down, exactly when ten times the total depth fits 64 bits |
| FibWalk.TotalsAreRecursive | lab-routes-ipv6/2026/kbench_mod.c:171-175 | count, total depth and maximum depth of the walk are the recursive sums and maximum over the tree |
| FibWalk.CountedExactlyOnce | lab-routes-ipv6/2026/kbench_mod.c:171-178 | no node is counted twice, and the counted nodes are exactly those with a leaf and the route flag |
| FibWalk.CountedAtTrueDepth | lab-routes-ipv6/2026/kbench_mod.c:153-186 | the depth recorded for a node is the length of every path of turns from the root to it |
| FibWalk.EveryNodeIsReached | lab-routes-ipv6/2026/kbench_mod.c:153-169 | every node of the tree is reached by some path of turns |
| FibWalk.GoUp | lab-routes-ipv6/2026/kbench_mod.c:180-202 | going up from any inner position reaches the parent, recognises the side it came from, keeps the log and strictly shortens the remaining walk |
| FibWalk.ReportIsExact | lab-routes-ipv6/2026/kbench_mod.c:206 | for fewer than 2^32 routes: the report is ten times the recursive depth sum over the route count exactly when the product fits 64 bits, never more than ten times the deepest route, and it fits for depths up to 128 |
| Limbs.LeqIsNumeric | lab-routes-ipv6/2026/kbench_mod.c:312-318 | the nested limb comparison is the order of the 128-bit numbers |
| Limbs.CarryIsOrder | lab-routes-ipv6/2026/kbench_mod.c:251-264 | the final carry is 0 exactly when start is at most end |
| Limbs.NullDifference | lab-routes-ipv6/2026/kbench_mod.c:264-266 | the stored difference is null exactly when start equals end, borrowing limbs included |
| Limbs.DifferenceExact | lab-routes-ipv6/2026/kbench_mod.c:251-263 | the stored difference is end minus start exactly when every borrowing limb is its own negation modulo 2^32 |
| Scan.DifferenceWrong | lab-routes-ipv6/2026/kbench_mod.c:251-263 | a range in order whose stored difference is not end minus start |
| Limbs.DivisionExact | lab-routes-ipv6/2026/kbench_mod.c:270-275 | limb division gives the 128-bit quotient and remainder exactly when no remainder outgrows 32 bits on the way |
| Limbs.DivisionWrong | lab-routes-ipv6/2026/kbench_mod.c:270-275 | a dividend and divisor whose limb division gives a wrong quotient |
| Limbs.FitsIsPrefixes | lab-routes-ipv6/2026/kbench_mod.c:270-275 | that no remainder outgrows 32 bits, in terms of the input: two prefixes of the dividend modulo the divisor are below 2^32 |
| Limbs.StepExact | lab-routes-ipv6/2026/kbench_mod.c:251-275 | end to end for every loop count: with all borrowing limbs self-negating, end minus start is quotient times loop count plus remainder exactly when no remainder is shifted out; up to 2^32 loops, exactly when the borrowing limbs are self-negating |
| Scan.ComputeDelta | lab-routes-ipv6/2026/kbench_mod.c:251-263 | the in-place subtraction loop computes the specified limbs and carry |
| Scan.DivideInPlace | lab-routes-ipv6/2026/kbench_mod.c:270-275 | the in-place division loop computes the specified quotient |
| Scan.PrepareScan | lab-routes-ipv6/2026/kbench_mod.c:251-281 | the scan is switched on exactly for ranges with start below end as numbers, or when it was on already; the step is the divided difference, forced to 1 when null, and the byte-reversed difference for any other range |
| Scan.SwabBytes | lab-routes-ipv6/2026/kbench_mod.c:268-309 | a step that is not converted is read with its four bytes reversed |
| Scan.MoveStaysBelow | lab-routes-ipv6/2026/kbench_mod.c:303-333 | moving start limb by limb, without carries, by at most loop count times the step never passes end, for every range in order |
| Scan.RestartStaysBelow | lab-routes-ipv6/2026/kbench_mod.c:319-333 | every restart lands at or below end, for all pseudo-random offsets and when the step is forced to 1 |
| Scan.OffsetsMasked | lab-routes-ipv6/2026/kbench_mod.c:324-326 | the offsets of a restart, bit by bit, from the step and the values drawn |
| Scan.LcgInverse | lab-routes-ipv6/2026/kbench_mod.c:117-120 | the generator can be computed back, so no two values have the same successor |
| Scan.GeneratorGoesOn | lab-routes-ipv6/2026/kbench_mod.c:223-325 | at every step of a run the generator stands at four draws for each restart so far |
| Scan.RestartLowBits | lab-routes-ipv6/2026/kbench_mod.c:324-326 | the two low bits of the offset of limb i are, at every restart, those of the step that are set in i |
| Scan.ForcedRestart | lab-routes-ipv6/2026/kbench_mod.c:276-333 | with the step forced to 1 every restart is at the second address of the range |
| Scan.NeverPastEnd | lab-routes-ipv6/2026/kbench_mod.c:299-336 | every address of the run is at most end, after any number of steps and restarts, for every range in order and loop count |
| Scan.MoveStaysAbove | lab-routes-ipv6/2026/kbench_mod.c:303-333 | a limb-wise move, of a step or of a restart, does not lead below the start exactly when the first limb it changes does not overflow |
| Scan.AboveStart | lab-routes-ipv6/2026/kbench_mod.c:299-336 | every position of every run, through all restarts, is at least the start exactly when that holds of the offsets of the last restart plus the steps since |
| Scan.FirstLapAbove | lab-routes-ipv6/2026/kbench_mod.c:299-318 | before any restart, exactly when it holds of k times the step |
| Scan.FirstLapInside | lab-routes-ipv6/2026/kbench_mod.c:264-318 | when the step moves the top limb, the first loop count probes are between start and end |
| Scan.ProbeBelowStart | lab-routes-ipv6/2026/kbench_mod.c:251-311 | a range in order whose first probe is below its start |
| Scan.HalfBelowStart | lab-routes-ipv6/2026/kbench_mod.c:251-311 | a range and loop count of 5000 where exactly the probes after the 2500th are below the start, without a restart |
| Scan.FirstLap | lab-routes-ipv6/2026/kbench_mod.c:264-318 | the restart branch is taken within the first loop count steps exactly when the range lies in the last limb, has fewer than loop count steps of one, and does not end at the top of that limb |
| Scan.ShortRestarts | lab-routes-ipv6/2026/kbench_mod.c:264-318 | a range of two addresses restarts within two probes |
| Scan.OneAddress | lab-routes-ipv6/2026/kbench_mod.c:264-318 | a scan of a range of one address, switched on by a stale value, stays there |
| Scan.Along | lab-routes-ipv6/2026/kbench_mod.c:303-311 | until the first restart the address is start plus k times the step in each limb, modulo 2^32 |
| Scan.LinearExactly | lab-routes-ipv6/2026/kbench_mod.c:304-311 | k steps advance the 128-bit address by k times the step exactly when no limb overflows |
| Scan.SameProbe | lab-routes-ipv6/2026/kbench_mod.c:299-318 | before any restart, two probes are of the same address exactly when in each limb the steps between them add up to a multiple of 2^32 |
| Scan.ProbesRepeat | lab-routes-ipv6/2026/kbench_mod.c:299-318 | a range and loop count whose first and third, and second and fourth, probes are of the same address |
| Scan.DefaultScanIsNotLinear | lab-routes-ipv6/2026/kbench_mod.c:43-45 | the default range and loop count leave the linear space at the second step, without a restart |
| Ipv6Bench.AddStep | lab-routes-ipv6/2026/kbench_mod.c:304-311 | the in-place step adds each limb modulo 2^32 and its carry stays 0 |
| Ipv6Bench.Restart | lab-routes-ipv6/2026/kbench_mod.c:319-333 | the in-place restart adds to start, in each limb, an offset each bit of which is set exactly when it is set in the step and in the value drawn for that limb; four values are drawn, the last limb first |
| Bits.AndBits | lab-routes-ipv6/2026/kbench_mod.c:326 | bit k of the mask of two numbers is set exactly when it is set in both |
| Ipv6Bench.Probe | lab-routes-ipv6/2026/kbench_mod.c:298-371 | the loop keeps exactly the reachable probes, scanned or not, stops at the loop count or the maximum, and accumulates their durations |
| Ipv6Bench.TimedAre | lab-routes-ipv6/2026/kbench_mod.c:359-370 | the durations kept are those of exactly the lookups that find a route, in order |
| Ipv6Bench.ReachedAre | lab-routes-ipv6/2026/kbench_mod.c:349-357 | the addresses kept are those probed by exactly the lookups that find a route, in order |
| Ipv6Bench.TimeBatches | lab-routes-ipv6/2026/kbench_mod.c:372-390 | batches cover the collected addresses in order, each once, with fewer than a batch left over; each result is the batch time per flow |
| Ipv6Bench.PerFlowAt | lab-routes-ipv6/2026/kbench_mod.c:379-387 | result k is the duration of batch k divided by the number of flows |
| Ipv6Bench.ReachedWithinRange | lab-routes-ipv6/2026/kbench_mod.c:299-357 | whatever lookups answer, every address kept for timing is at most the end of a range in order, and is the start without a scan; it is some probe, not below the start exactly when the displacement of that probe goes up |
| Ipv6Bench.DoBench | lab-routes-ipv6/2026/kbench_mod.c:219-404 | both phases together on any range: results, batches of exactly the batch length that conserve the collected addresses, bounds of timed addresses on both sides, and the printed mean |
| Ipv4Bench.Destinations | lab-routes-ipv4/kbench_mod.c:268-296 | destinations stay in the half-open range; two lookups share one exactly when the range is short and they are whole laps apart |
| Ipv4Bench.EvenlySpread | lab-routes-ipv4/kbench_mod.c:293-296 | a range at least as long as the number of lookups is sampled from its start at equal gaps, the largest that the number of lookups allows |
| Ipv4Bench.LapAfterLap | lab-routes-ipv4/kbench_mod.c:293-294 | a shorter range is looked up from its start address by address and starts again at its end |
| Ipv4Bench.FlowsAre | lab-routes-ipv4/kbench_mod.c:290-303 | the flows are the destinations of exactly the turns outside 127.0.0.0/8, in order |
| Ipv4Bench.ReadRange | lab-routes-ipv4/kbench_mod.c:236-271 | the range is never turned round; the scan is on exactly for a range in order or with a stale value, and its length is null otherwise |
| Ipv4Bench.RunBatches | lab-routes-ipv4/kbench_mod.c:290-364 | flows are conserved in full batches plus fewer than a batch left; the results array is never overrun; results are those of the batches without an unreachable flow |
| Ipv4Bench.RecordedAre | lab-routes-ipv4/kbench_mod.c:345-361 | what is recorded are the durations per flow of exactly the batches without an unreachable flow, in order |
| Ipv4Bench.RunSingles | lab-routes-ipv4/kbench_mod.c:290-337 | without batches exactly the reachable destinations that are not loopback are recorded, in order, within the results array |
| Ipv4Bench.MeasuredAre | lab-routes-ipv4/kbench_mod.c:290-337 | what is recorded are the durations of exactly the turns that send a lookup and find a route, in order |
| Ipv4Bench.KeptFlush | lab-routes-ipv4/kbench_mod.c:342-362 | flushing a full batch keeps the flows in order and always finds room in the results |
| Ipv4Bench.LookUp | lab-routes-ipv4/kbench_mod.c:345-355 | a batch is found bad exactly when one of its lookups is unreachable |
| Ipv4Bench.DoBench | lab-routes-ipv4/kbench_mod.c:219-370 | from the range and the lookups to the report: the samples reported on are exactly those the loops record, flows are conserved, and the remainder by zero happens exactly with a stale scan of a range not in order |
| Stats.ReadsInBounds | lab-routes-ipv4/kbench_mod.c:91-104 | the percentile reads inside the samples exactly when count times (100 - p) is at least 100 |
| Stats.TwentySamples | lab-routes-ipv4/kbench_mod.c:154-156 | the 95th percentile is in bounds exactly from 20 samples on |
| Stats.BetweenNeighbours | lab-routes-ipv4/kbench_mod.c:95-103 | a percentile lies between its two samples exactly when their sum fits 64 bits |
| Stats.MedianWraps | lab-routes-ipv4/kbench_mod.c:95-103 | samples whose median is below all of them |
| Stats.PercentileMonotone | lab-routes-ipv4/kbench_mod.c:91-104 | percentiles are monotone in p and lie between the extreme samples |
| Stats.PercentileRank | lab-routes-ipv4/kbench_mod.c:91-104 | when its sum fits, more than p percent of the samples are at most the percentile and fewer than p percent and one sample are below it |
| Stats.Mad | lab-routes-ipv4/kbench_mod.c:106-123 | the loop, the sort and the read compute the median of the sorted deviations of the first count samples |
| Stats.DeviationIs | lab-routes-ipv4/kbench_mod.c:113-118 | a deviation is at most m exactly when the sample is between the centre minus m and the centre plus m |
| Stats.HalfWithin | lab-routes-ipv4/kbench_mod.c:106-123 | at least half of the samples are between the centre minus and plus the deviation, for any centre, exactly when the two middle deviations add up in 64 bits; then at most half, rounded up, lie closer |
| Stats.HalfMissed | lab-routes-ipv4/kbench_mod.c:106-123 | samples none of which lies within the deviation |
| Stats.Average | lab-routes-ipv4/kbench_mod.c:125-141 | the overflow-free mean is the exact sum divided by the count, rounded down, with every intermediate a 64-bit word |
| Stats.MeansAgree | lab-routes-ipv6/2026/kbench_mod.c:404 | accumulating in 64 bits first gives the same mean exactly when the sum fits |
| Histogram.UnitExact | lab-routes-ipv4/kbench_mod.c:172-180 | the rounding unit is the intended power of ten exactly for raw widths below 2^35 |
| Histogram.UnitTable | lab-routes-ipv4/kbench_mod.c:172-180 | the rounding unit of every raw width below 2^35, by its nine thresholds |
| Histogram.UnitFitsWidth | lab-routes-ipv4/kbench_mod.c:172-180 | there it is at most a third and more than a 54th of the raw width |
| Histogram.Rounded | lab-routes-ipv4/kbench_mod.c:181-183 | the first row starts at the last multiple of the unit up to the smallest sample, and the width is the last one up to the raw width, or 1 |
| Histogram.RowsBound | lab-routes-ipv4/kbench_mod.c:172-183 | fewer than 31 bucket widths from the first row to the 95th percentile exactly when the raw width is outside the ranges whose rounding unit turns negative; rounding then keeps more than half of the raw width; at least 15 widths for samples not closer than that |
| Histogram.PowerNegative | lab-routes-ipv4/kbench_mod.c:174-180 | for every 64-bit raw width, the rounding unit is negative exactly from 2^42 to 2^45, from 2^52 to 2^55 and from 2^62 on, and is never null |
| Histogram.BucketsCollapse | lab-routes-ipv4/kbench_mod.c:172-183 | buckets have width 1 although the raw width is more exactly where the unit is negative |
| Histogram.Bar | lab-routes-ipv4/kbench_mod.c:199-207 | dark cells, light cells and padding always fill the width |
| Histogram.CellsAre | lab-routes-ipv4/kbench_mod.c:199-206 | the cells of n samples of a total are n times 50 over the total, rounded down |
| Histogram.CountInIs | lab-routes-ipv4/kbench_mod.c:192-196 | the count of a row is the number of samples in its interval |
| Histogram.PrintRows | lab-routes-ipv4/kbench_mod.c:191-214 | the loop terminates; each row counts exactly the samples of its interval, with dark cells for these and light cells up to all samples so far, rows are contiguous and counts add up to the samples consumed exactly when the ends of the rows fit 64 bits; what stopped it is known |
| Histogram.LastEndFits | lab-routes-ipv4/kbench_mod.c:191-214 | all ends fit when the row of the 95th percentile ends below 2^64 |
| Histogram.EndsMayWrap | lab-routes-ipv4/kbench_mod.c:191-214 | samples of 2^64 - 1: the end of the first row wraps, and a histogram whose first row counts none of them is not right |
| Histogram.Covered | lab-routes-ipv4/kbench_mod.c:191-214 | in a finished histogram, unless the buffer is full, every sample up to the 95th percentile falls in exactly one row |
| Display.DisplayStatistics | lab-routes-ipv4/kbench_mod.c:143-217 | from the first total of unsorted samples to the report: no match, out-of-bounds percentile, or exact extremes and mean, each percentile between its neighbours and in order exactly as far as its sum fits, deviation covering half exactly when its sum fits, rows right exactly when their ends fit, and at most 31 of them unless the unit is negative |
| Display.ModerateReport | lab-routes-ipv4/kbench_mod.c:143-217 | for samples below 2^63 the whole report is right without conditions |
| HealthCheck.Checker.Step | lab-exabgp/healthcheck.py:312-351 | one pass of the state machine; commands run exactly when the state changes |
| HealthCheck.Checker.OneRound | lab-exabgp/healthcheck.py:308-355 | after any history the state is the closed form of it, commands ran once per transition, stable states are announced |
| HealthCheck.Checker.Loop | lab-exabgp/healthcheck.py:307-360 | the loop over any history of rounds ends in the closed form of it, with its transitions executed and its stable states announced |
| HealthCheck.Checker.Exabgp | lab-exabgp/healthcheck.py:268-282 | an up, down or disabled service announces every address in order with its own metric of the options, raised by the increase each time; other states announce nothing |
| HealthCheck.NextIsClosedForm | lab-exabgp/healthcheck.py:284-351 | stepping keeps the state equal to the closed form of the history, and the counter equal to the streak |
| HealthCheck.StateIsHistory | lab-exabgp/healthcheck.py:307-351 | which histories lead to each of the six states, without the machine: runs of successes or failures at the end that reach their threshold or not, a disabled round, or the round after one |
| HealthCheck.StreakIsRun | lab-exabgp/healthcheck.py:327-351 | the streak of the closed form is the longest constant run at the end of the history |
| HealthCheck.FlapBudget | lab-exabgp/healthcheck.py:307-351 | entries into UP and DOWN, weighted by their thresholds, plus the checks under way, are at most the rounds |
| HealthCheck.PeerView | lab-exabgp/healthcheck.py:268-282 | after every round the peer holds exactly the announcements of the last stable state, or nothing before the first |
| HealthCheck.LastStableIs | lab-exabgp/healthcheck.py:268-282 | the last stable state is the state after some round with no announced state after it |
| HealthCheck.PeerMetric | lab-exabgp/healthcheck.py:273-281 | the metric held for an address is the up, down or disabled metric of the options by the last stable state, raised by its last listing; it is that of the i-th listing exactly when nothing is added or the address is not listed later |
| HealthCheck.ListedTwice | lab-exabgp/healthcheck.py:273-281 | a configuration whose peer does not hold the metric first announced for an address |
| HealthCheck.TransitionsAlternate | lab-exabgp/healthcheck.py:284-305 | consecutive transitions differ and the last one is the current state |
| HealthCheck.TransitionsAre | lab-exabgp/healthcheck.py:284-351 | the transitions are the new states of exactly the rounds that change the state, in order |
| Handshake.EnteredAfterSetup | clab-gnmi/setup.py:345-401 | in every interleaving, with deaths anywhere, the session is entered after an in-order prefix of unshare, uid map, gid map and pasta; complete if the byte was read; incomplete exactly when the parent died before pasta was through, and then after end of file |
| Handshake.PastaOrEarlyDeath | clab-gnmi/setup.py:353-385 | along every run the progress of the parent tells whether pasta is through, and an ended parent had it through unless it died early |
| Handshake.SomeoneActs | clab-gnmi/setup.py:353-396 | no deadlock: some process can act exactly until everything is over |
| Handshake.RunsEnd | clab-gnmi/setup.py:353-401 | every run is over within 21 steps, and a run nobody can continue is over, so no process stays blocked |
| Handshake.OrderlyEnd | clab-gnmi/setup.py:353-401 | without deaths the launcher ends after its child, the child after the session, and the session is entered after unshare, uid map, gid map and pasta in this order |
| Handshake.RunKeeps | clab-gnmi/setup.py:345-401 | pipe ends, bytes, read outcomes and log are tied to the progress of the processes in every reachable state |
| Handshake.RunCarries | clab-gnmi/setup.py:345-391 | along every run each pipe carries one byte at most, bytes written are bytes read and bytes left, the announcement comes after unshare, and at its end of file the child is gone |
| Handshake.EnteredUnconfigured | clab-gnmi/setup.py:388-401 | a run that enters the session with only the namespaces unshared |
| IouWire.RoundTrip | lab-iou/iou2vde.py:235-290 | packing then decoding gives back both plugs and the payload exactly when instances are below 65536 and majors and minors below 16 |
| IouWire.HeaderLayout | lab-iou/iou2vde.py:275-290 | where the header holds the instances, the interfaces bit by bit, and the delimiter |
| Bits.OrBits | lab-iou/iou2vde.py:285-288 | bit k of the interface byte is set exactly when it is set in the shifted minor or in the major |
| IouWire.Repack | lab-iou/iou2vde.py:245-290 | every 8-byte header with the right delimiter is the packing of what it decodes to |
| IouWire.ParseNetmap | lab-iou/iou2vde.py:331-361 | the loops over mappings, lines and triplets build the specified wires |
| IouWire.OursAre | lab-iou/iou2vde.py:342-348 | our triplets of a line are exactly those on our instance and the major, the first one of the line first |
| IouWire.ExtendKeeps | lab-iou/iou2vde.py:331-361 | a line adds its plugs to the wire of its port at the end, and keeps the first port of each identity |
| IouWire.WiresAreNetmap | lab-iou/iou2vde.py:331-361 | a plug is wired to our port exactly when some line under some mapping holds both, the port being the first triplet of the line on our instance and the mapped major; each switch plug is there once, with a socket given for its major |
| IouWire.IOUPlugClass.SetupVde | lab-iou/iou2vde.py:374-383 | attaching every wire fills both registries with exactly the wired plugs |
| IouWire.IOUPlugClass.Reader | lab-iou/iou2vde.py:235-268 | one datagram is handed to at most one switch plug, the registered one it names, if its connection is up |
| IouWire.WireRoutes | lab-iou/iou2vde.py:251-273 | a frame from a plug to the switch plug of its wire is packed and routed to it, with source and payload, exactly when the fields of both plugs fit |
| IouWire.AnswerRoutes | lab-iou/iou2vde.py:251-290 | the header of a sent frame with its two ends swapped is routed back to the sending switch plug exactly when the fields of both plugs fit |
| IouWire.RoutedIsWired | lab-iou/iou2vde.py:235-268 | a datagram of any length is routed exactly when its header is right and its destination has a wire; to the switch plug it names, with at most 1580 bytes of payload, its source known exactly when it is on some wire |
| IouWire.ArriveOnce | lab-iou/iou2vde.py:235-290 | the frames sent down wires are delivered exactly once each, in order, to the switches at their ends, with source and payload, exactly when the fields of all their plugs fit |
| IouWire.Connect | lab-iou/iou2vde.py:397-402 | from the NETMAP file to the registries: what is registered are the wires of the file |
| IouWire.Serve | lab-iou/iou2vde.py:235-402 | from the NETMAP file and the datagrams read to what the switches get: the frames sent down the wires of the file, once each and in order, exactly when the fields of all their plugs fit |

## Left out

- FibWalk.ReportIsExact: needs fewer than 2^32 counted nodes, as the count has 32 bits; the wrapped value for all trees is in FibWalk.CollectDepth. The variable `depth` itself is unbounded, as it is smaller than the number of nodes in memory.
- Scan.PrepareScan: the reversed bytes of a stale step are those of a little-endian machine.
- Ipv6Bench.DoBench: warm-up lookups and allocation failures are not modelled; of a reversed range scanned with a stale value only the addresses visited are specified, not where they lie.
- Ipv4Bench.DoBench: the same, and a results array of fewer than 2^32 entries, which is what could be allocated.
- Stats.HalfWithin: needs 50 times the count to fit 32 bits, like the percentile it relies on.
- Histogram.PrintRows: the buffer guard is a parameter that may stop the output after any row, and must do so after some row when an end does not fit; what the rows hold after an end wrapped is not specified.
- Display.DisplayStatistics: from 2^32/95 samples on, where the product of the percentile wraps, only the sorting is specified; `sort` is replaced by the sorted permutation, and the report is the verbose one.
- Source-routing subtrees of the IPv6 tree (`CONFIG_IPV6_SUBTREES`), which the laboratory's notes exclude.
- The second copies of the benchmark modules, sysfs attributes, locking, text formatting.
- Health checker: arguments, logging, subprocesses, timeouts and the setup of addresses; each round's outcome is an input, and commands are recorded as the state they are run for.
- Handshake: pasta is one action of the parent; a pasta process that was started and outlives a parent killed meanwhile may still finish, and its effect is then not in the log.
- Handshake: what the id maps and the mounts contain, and what runs inside the session; the grandchild's session ends as a step of its own.
- IOU bridge: sockets, the event loop and the regular expressions; lines are sequences of triplets. Frames read from a switch and sent to each IOU instance are modelled one at a time by the header.
