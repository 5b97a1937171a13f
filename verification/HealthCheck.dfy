/** The health checker that drives ExaBGP announcements: a state machine over rounds. */
module HealthCheck {
  import opened Words

  datatype State = INIT | DISABLED | RISING | FALLING | UP | DOWN

  /** One round of the loop: whether the service is disabled, else how the check went. */
  datatype Round = Disabled | Success | Failure

  type IP = string

  datatype Options = Options(rise: int, fall: int,
                             upMetric: int, downMetric: int, disabledMetric: int, increase: int,
                             ips: seq<IP>)
  {
    /** Successes in a row that bring the service up; failures that bring it down. */
    function Rise(): (n: nat)
      ensures n > 0
    {
      if rise <= 1 then 1 else rise
    }

    function Fall(): (n: nat)
      ensures n > 0
    {
      if fall <= 1 then 1 else fall
    }
  }

  datatype Announcement = Announcement(ip: IP, med: int)

  // ----- Closed form ------------------------------------------------------------

  /** The enabled rounds since the last disabled one. */
  function Enabled(h: seq<Round>): (r: seq<Round>)
    ensures forall i :: 0 <= i < |r| ==> r[i] != Disabled
  {
    if h == [] || h[|h| - 1] == Disabled then [] else Enabled(h[..|h| - 1]) + [h[|h| - 1]]
  }

  /** The rounds that count: the first enabled round after a disabled one only leaves
    * the disabled state.
    */
  function Effective(h: seq<Round>): (r: seq<Round>)
    ensures forall i :: 0 <= i < |r| ==> r[i] != Disabled
  {
    var e := Enabled(h);
    if Disabled in h && e != [] then e[1..] else e
  }

  /** Length of the run of rounds like the last one, at the end of `r`. */
  function Streak(r: seq<Round>): (k: nat)
    ensures k <= |r| && (r != [] ==> k > 0)
  {
    if r == [] then 0
    else if |r| > 1 && r[|r| - 2] == r[|r| - 1] then Streak(r[..|r| - 1]) + 1
    else 1
  }

  /** The state as a function of the whole history. */
  function StateAfter(o: Options, h: seq<Round>): State {
    var r := Effective(h);
    if r == [] then
      if h != [] && h[|h| - 1] == Disabled then DISABLED else INIT
    else if r[|r| - 1] == Success then
      if Streak(r) >= o.Rise() then UP else RISING
    else
      if Streak(r) >= o.Fall() then DOWN else FALLING
  }

  lemma {:induction false} EnabledFirst(h: seq<Round>)
    ensures Disabled !in h ==> Enabled(h) == h
    ensures h != [] && h[|h| - 1] != Disabled ==> Enabled(h) != []
  {
    if h != [] {
      EnabledFirst(h[..|h| - 1]);
      assert h == h[..|h| - 1] + [h[|h| - 1]];
    }
  }

  lemma EffectiveAppend(h: seq<Round>, r: Round)
    ensures Effective(h + [r]) ==
      if r == Disabled || (h != [] && h[|h| - 1] == Disabled) then [] else Effective(h) + [r]
    ensures h != [] && h[|h| - 1] == Disabled ==> Effective(h) == []
  {
    assert (h + [r])[..|h|] == h;
    EnabledFirst(h);
  }

  lemma StreakAppend(r: seq<Round>, x: Round)
    ensures Streak(r + [x]) == if r != [] && r[|r| - 1] == x then Streak(r) + 1 else 1
  {
    assert (r + [x])[..|r|] == r;
  }

  /** The streak is the longest constant run at the end. */
  lemma {:induction false} StreakIsRun(r: seq<Round>, k: nat)
    requires 0 < k <= |r|
    ensures Streak(r) >= k <==> forall i :: |r| - k <= i < |r| ==> r[i] == r[|r| - 1]
  {
    if k > 1 {
      var q := r[..|r| - 1];
      StreakIsRun(q, k - 1);
      if Streak(r) >= k {
        assert forall i :: |r| - k <= i < |q| ==> q[i] == r[i];
      } else if r[|r| - 2] == r[|r| - 1] {
        var i :| |q| - (k - 1) <= i < |q| && q[i] != q[|q| - 1];
        assert r[i] != r[|r| - 1];
      }
    }
  }

  /** The last `k` rounds went like `x`, and none of them is the first round after a
    * disabled one.
    */
  ghost predicate LastRun(h: seq<Round>, x: Round, k: nat) {
    && 0 < k <= |h|
    && (forall i :: |h| - k <= i < |h| ==> h[i] == x)
    && (|h| == k || h[|h| - k - 1] != Disabled)
  }

  lemma LastRunAppend(h: seq<Round>, r: Round, x: Round, k: nat)
    requires k > 0
    ensures LastRun(h + [r], x, k) <==>
      if k == 1 then r == x && (h == [] || h[|h| - 1] != Disabled) else r == x && LastRun(h, x, k - 1)
  {
    var g := h + [r];
    assert g[|h|] == r && forall i :: 0 <= i < |h| ==> g[i] == h[i];
  }

  lemma NothingCounts(x: Round, k: nat)
    ensures Effective([]) == [] && !LastRun([], x, k)
  {}

  lemma NoRunAfterDisabled(h: seq<Round>, x: Round, k: nat)
    requires x != Disabled
    ensures h != [] && h[|h| - 1] == Disabled ==> !LastRun(h, x, k)
  {}

  /** The streak of the rounds that count, in terms of the history itself. */
  lemma {:induction false} StreakInHistory(h: seq<Round>, x: Round, k: nat)
    requires k > 0 && x != Disabled
    ensures var r := Effective(h);
      r != [] && r[|r| - 1] == x && Streak(r) >= k <==> LastRun(h, x, k)
    decreases |h|
  {
    hide Effective, Streak, LastRun;
    NothingCounts(x, k);
    if h != [] {
      var g, r := h[..|h| - 1], h[|h| - 1];
      assert h == g + [r];
      EffectiveAppend(g, r);
      StreakAppend(Effective(g), r);
      LastRunAppend(g, r, x, k);
      if k > 1 {
        StreakInHistory(g, x, k - 1);
        NoRunAfterDisabled(g, x, k - 1);
      }
    }
  }

  lemma WhenNothingCounts(h: seq<Round>)
    ensures Effective(h) == [] <==>
      h == [] || h[|h| - 1] == Disabled || (|h| > 1 && h[|h| - 2] == Disabled)
  {
    hide Effective;
    if h == [] {
      NothingCounts(Success, 1);
    } else {
      var g, r := h[..|h| - 1], h[|h| - 1];
      assert h == g + [r];
      EffectiveAppend(g, r);
    }
  }

  /** Exactly which histories lead to each state, without the machine: a run of `Rise`
    * successes or `Fall` failures that is long enough, or too short yet, a disabled
    * round, or the round after one.
    */
  lemma StateIsHistory(o: Options, h: seq<Round>)
    ensures var s := StateAfter(o, h);
      && (s == UP <==> LastRun(h, Success, o.Rise()))
      && (s == DOWN <==> LastRun(h, Failure, o.Fall()))
      && (s == RISING <==> LastRun(h, Success, 1) && !LastRun(h, Success, o.Rise()))
      && (s == FALLING <==> LastRun(h, Failure, 1) && !LastRun(h, Failure, o.Fall()))
      && (s == DISABLED <==> h != [] && h[|h| - 1] == Disabled)
      && (s == INIT <==> h == [] || (|h| > 1 && h[|h| - 1] != Disabled && h[|h| - 2] == Disabled))
  {
    hide Effective, Streak, LastRun;
    StreakInHistory(h, Success, 1);
    StreakInHistory(h, Failure, 1);
    StreakInHistory(h, Success, o.Rise());
    StreakInHistory(h, Failure, o.Fall());
    WhenNothingCounts(h);
  }

  /** What the commands of a transition to `t` are told: the shortcuts for single
    * checks are taken first.
    */
  function Target(o: Options, t: State): State {
    if t == RISING && o.rise <= 1 then UP
    else if t == FALLING && o.fall <= 1 then DOWN
    else t
  }

  /** One round, from a state and the number of checks in a row. */
  function Next(o: Options, s: State, checks: int, r: Round): (State, int) {
    if r == Disabled then (DISABLED, checks)
    else
      match s
      case DISABLED => (INIT, checks)
      case RISING =>
        if r == Failure then (Target(o, FALLING), 1)
        else if checks + 1 >= o.rise then (UP, checks + 1) else (RISING, checks + 1)
      case FALLING =>
        if r == Success then (Target(o, RISING), 1)
        else if checks + 1 >= o.fall then (DOWN, checks + 1) else (FALLING, checks + 1)
      case UP => if r == Failure then (Target(o, FALLING), 1) else (UP, checks)
      case DOWN => if r == Success then (Target(o, RISING), 1) else (DOWN, checks)
      case INIT => (Target(o, if r == Success then RISING else FALLING), 1)
  }

  /** The value of `checks` is the streak while a change is under way. */
  predicate InStep(o: Options, h: seq<Round>, s: State, checks: int) {
    s == StateAfter(o, h) && (s == RISING || s == FALLING ==> checks == Streak(Effective(h)))
  }

  lemma StreakPositive(r: seq<Round>)
    ensures r != [] ==> Streak(r) > 0
  {}

  /** Stepping keeps to the closed form. */
  lemma NextIsClosedForm(o: Options, h: seq<Round>, s: State, checks: int, r: Round)
    requires InStep(o, h, s, checks)
    ensures var n := Next(o, s, checks, r); InStep(o, h + [r], n.0, n.1)
  {
    EffectiveAppend(h, r);
    StreakAppend(Effective(h), r);
    hide Effective, Streak;
    StreakPositive(Effective(h));
    assert (h + [r])[|h|] == r && (Effective(h) + [r])[|Effective(h)|] == r;
  }

  lemma StateIs(o: Options, h: seq<Round>, s: State, checks: int)
    requires InStep(o, h, s, checks)
    ensures s == StateAfter(o, h)
  {}

  // ----- What is told to the outside --------------------------------------------

  /** The states entered, in order. */
  function Transitions(o: Options, h: seq<Round>): (t: seq<State>) {
    if h == [] then []
    else
      var s := StateAfter(o, h);
      Transitions(o, h[..|h| - 1]) + if s != StateAfter(o, h[..|h| - 1]) then [s] else []
  }

  predicate Stable(s: State) {
    s == UP || s == DOWN || s == DISABLED
  }

  function Metric(o: Options, s: State): int
    requires Stable(s)
  {
    if s == UP then o.upMetric else if s == DOWN then o.downMetric else o.disabledMetric
  }

  /** The announcements for the first `k` addresses. */
  function Announces(o: Options, s: State, k: nat): (a: seq<Announcement>)
    requires Stable(s) && k <= |o.ips|
    ensures |a| == k
  {
    if k == 0 then []
    else Announces(o, s, k - 1) + [Announcement(o.ips[k - 1], Metric(o, s) + (k - 1) * o.increase)]
  }

  /** One announcement for each address, in order, with the metric of the state raised by
    * the increase each time.
    */
  lemma {:induction false} AnnouncesAre(o: Options, s: State, k: nat)
    requires Stable(s) && k <= |o.ips|
    ensures forall i :: 0 <= i < k ==>
      && Announces(o, s, k)[i].ip == o.ips[i]
      && (s == UP ==> Announces(o, s, k)[i].med == o.upMetric + i * o.increase)
      && (s == DOWN ==> Announces(o, s, k)[i].med == o.downMetric + i * o.increase)
      && (s == DISABLED ==> Announces(o, s, k)[i].med == o.disabledMetric + i * o.increase)
  {
    if k > 0 {
      AnnouncesAre(o, s, k - 1);
    }
  }

  lemma NoAnnounces(o: Options, s: State)
    requires Stable(s)
    ensures Announces(o, s, 0) == []
  {}

  lemma AnnouncesNext(o: Options, s: State, k: nat)
    requires Stable(s) && k < |o.ips|
    ensures Announces(o, s, k + 1) == Announces(o, s, k) + [Announcement(o.ips[k], Metric(o, s) + k * o.increase)]
  {}

  /** What is new are one announcement for each address, in order, with the up, down or
    * disabled metric of the options raised by the increase each time.
    */
  ghost predicate Announced(o: Options, s: State, before: seq<Announcement>, after: seq<Announcement>) {
    && |after| == |before| + |o.ips|
    && after[..|before|] == before
    && forall i :: 0 <= i < |o.ips| ==>
         var a := after[|before| + i];
         && a.ip == o.ips[i]
         && (s == UP ==> a.med == o.upMetric + i * o.increase)
         && (s == DOWN ==> a.med == o.downMetric + i * o.increase)
         && (s == DISABLED ==> a.med == o.disabledMetric + i * o.increase)
  }

  lemma AllAnnounced(o: Options, s: State, before: seq<Announcement>)
    requires Stable(s)
    ensures Announced(o, s, before, before + Announces(o, s, |o.ips|))
  {
    hide Announces, Metric;
    AnnouncesAre(o, s, |o.ips|);
    var all := before + Announces(o, s, |o.ips|);
    forall i | 0 <= i < |o.ips|
      ensures all[|before| + i] == Announces(o, s, |o.ips|)[i]
    {}
  }

  function AllAnnounces(o: Options, h: seq<Round>): (a: seq<Announcement>) {
    if h == [] then []
    else
      var s := StateAfter(o, h);
      AllAnnounces(o, h[..|h| - 1]) + if Stable(s) then Announces(o, s, |o.ips|) else []
  }

  lemma ToldAppend(o: Options, h: seq<Round>, r: Round)
    ensures var s, t := StateAfter(o, h), StateAfter(o, h + [r]);
      && Transitions(o, h + [r]) == Transitions(o, h) + (if t != s then [t] else [])
      && AllAnnounces(o, h + [r]) == AllAnnounces(o, h) + (if Stable(t) then Announces(o, t, |o.ips|) else [])
  {
    assert (h + [r])[..|h|] == h;
  }

  // ----- Properties of whole runs -----------------------------------------------

  /** Checks spent on the change under way. */
  function Spent(o: Options, h: seq<Round>): nat {
    var s := StateAfter(o, h);
    if s == RISING || s == FALLING then Streak(Effective(h)) else 0
  }

  function Cost(o: Options, t: seq<State>): nat {
    multiset(t)[UP] * o.Rise() + multiset(t)[DOWN] * o.Fall()
  }

  lemma FlapNone(o: Options)
    ensures Cost(o, Transitions(o, [])) == 0 && Spent(o, []) == 0
  {
    assert Transitions(o, []) == [];
  }

  /** The checks that entering the state takes. */
  function Price(o: Options, s: State): nat {
    if s == UP then o.Rise() else if s == DOWN then o.Fall() else 0
  }

  lemma CostAppend(o: Options, t: seq<State>, x: State)
    ensures Cost(o, t + [x]) == Cost(o, t) + Price(o, x)
  {
    assert multiset(t + [x]) == multiset(t) + multiset{x};
    Distribute(multiset(t)[UP], 1, o.Rise());
    Distribute(multiset(t)[DOWN], 1, o.Fall());
  }

  /** A change under way has not yet reached its threshold. */
  lemma Pending(o: Options, h: seq<Round>)
    ensures StateAfter(o, h) == RISING ==> 0 < Streak(Effective(h)) < o.Rise()
    ensures StateAfter(o, h) == FALLING ==> 0 < Streak(Effective(h)) < o.Fall()
  {
    StreakPositive(Effective(h));
  }

  /** A round pays for at most one check, also when it enters a stable state. */
  lemma SpentStep(o: Options, h: seq<Round>, r: Round)
    ensures var s, t := StateAfter(o, h), StateAfter(o, h + [r]);
      (if t != s then Price(o, t) else 0) + Spent(o, h + [r]) <= Spent(o, h) + 1
  {
    NextIsClosedForm(o, h, StateAfter(o, h), Streak(Effective(h)), r);
    Pending(o, h);
    hide StateAfter, Effective, Streak;
  }

  lemma {:induction false} Budget(o: Options, h: seq<Round>)
    ensures Cost(o, Transitions(o, h)) + Spent(o, h) <= |h|
  {
    hide StateAfter, Transitions, Cost, Spent;
    FlapNone(o);
    if h != [] {
      var g, r := h[..|h| - 1], h[|h| - 1];
      Budget(o, g);
      assert h == g + [r];
      ToldAppend(o, g, r);
      SpentStep(o, g, r);
      CostAppend(o, Transitions(o, g), StateAfter(o, h));
      assert Transitions(o, g) + [] == Transitions(o, g);
    }
  }

  /** Flapping is paid for: each time the service comes up takes `Rise` rounds of its
    * own, each time it goes down takes `Fall`, and the change under way takes the
    * checks spent on it.
    */
  lemma FlapBudget(o: Options, h: seq<Round>)
    ensures var t := multiset(Transitions(o, h));
      t[UP] * o.Rise() + t[DOWN] * o.Fall() + Spent(o, h) <= |h|
  {
    hide Transitions, Spent;
    Budget(o, h);
  }

  /** The most recent stable state of the run, INIT standing for none. */
  function LastStable(o: Options, h: seq<Round>): (s: State)
    ensures s == INIT || Stable(s)
  {
    if h == [] then INIT
    else if Stable(StateAfter(o, h)) then StateAfter(o, h)
    else LastStable(o, h[..|h| - 1])
  }

  /** It is the state after some round, and no state that is announced came after it. */
  lemma {:induction false} LastStableIs(o: Options, h: seq<Round>)
    ensures LastStable(o, h) == INIT ==>
      forall i :: 0 <= i <= |h| ==> StateAfter(o, h[..i]) !in {UP, DOWN, DISABLED}
    ensures LastStable(o, h) != INIT ==>
      exists j :: 0 <= j <= |h| && StateAfter(o, h[..j]) == LastStable(o, h) &&
                  forall i :: j < i <= |h| ==> StateAfter(o, h[..i]) !in {UP, DOWN, DISABLED}
  {
    hide StateAfter;
    assert h[..|h|] == h;
    if h == [] {
      StateIsHistory(o, h);
    } else if !Stable(StateAfter(o, h)) {
      var g := h[..|h| - 1];
      LastStableIs(o, g);
      assert forall i :: 0 <= i <= |g| ==> g[..i] == h[..i];
    }
  }

  /** What a peer holds after hearing the announcements: the last metric of each route. */
  function View(a: seq<Announcement>): (v: map<IP, int>) {
    if a == [] then map[] else View(a[..|a| - 1])[a[|a| - 1].ip := a[|a| - 1].med]
  }

  lemma {:induction false} ViewConcat(a: seq<Announcement>, b: seq<Announcement>)
    ensures View(a + b) == View(a) + View(b)
    decreases |b|
  {
    if b == [] {
      assert a + b == a;
    } else {
      var c := b[..|b| - 1];
      ViewConcat(a, c);
      assert (a + b)[..|a + b| - 1] == a + c;
    }
  }

  lemma ViewNone(o: Options, s: State)
    requires Stable(s)
    ensures View(Announces(o, s, 0)) == map[]
  {}

  lemma ViewOneMore(a: seq<Announcement>, x: Announcement)
    ensures View(a + [x]) == View(a)[x.ip := x.med]
  {
    assert (a + [x])[..|a|] == a;
  }

  lemma ViewAnnounceNext(o: Options, s: State, k: nat)
    requires Stable(s) && k < |o.ips|
    ensures View(Announces(o, s, k + 1)) == View(Announces(o, s, k))[o.ips[k] := Metric(o, s) + k * o.increase]
  {
    hide View;
    ViewOneMore(Announces(o, s, k), Announcement(o.ips[k], Metric(o, s) + k * o.increase));
  }

  lemma {:induction false} ViewKeys(o: Options, s: State, k: nat)
    requires Stable(s) && k <= |o.ips|
    ensures View(Announces(o, s, k)).Keys == set x | x in o.ips[..k]
  {
    hide View, Announces, Metric;
    if k == 0 {
      ViewNone(o, s);
    } else {
      ViewKeys(o, s, k - 1);
      ViewAnnounceNext(o, s, k - 1);
      assert o.ips[..k] == o.ips[..k - 1] + [o.ips[k - 1]];
    }
  }

  lemma {:induction false} ViewMetric(o: Options, s: State, k: nat, i: nat)
    requires Stable(s) && i < k <= |o.ips| && forall j :: i < j < k ==> o.ips[j] != o.ips[i]
    ensures var v := View(Announces(o, s, k));
      o.ips[i] in v && v[o.ips[i]] == Metric(o, s) + i * o.increase
    decreases k
  {
    hide View, Announces;
    ViewAnnounceNext(o, s, k - 1);
    if i < k - 1 {
      ViewMetric(o, s, k - 1, i);
    }
  }

  /** A full set of announcements replaces whatever the peer held. */
  lemma Overwrites(o: Options, s: State, t: State)
    requires Stable(t)
    ensures View(Announces(o, t, |o.ips|)) == map[] + View(Announces(o, t, |o.ips|))
    ensures Stable(s) ==>
      View(Announces(o, s, |o.ips|)) + View(Announces(o, t, |o.ips|)) == View(Announces(o, t, |o.ips|))
  {
    hide View, Announces;
    ViewKeys(o, t, |o.ips|);
    if Stable(s) {
      ViewKeys(o, s, |o.ips|);
    }
  }

  /** After every round a peer's view is that of the last stable state, complete and
    * with nothing left of earlier ones; before the first stable state it is empty.
    */
  lemma {:induction false} PeerView(o: Options, h: seq<Round>)
    ensures var v, s := View(AllAnnounces(o, h)), LastStable(o, h);
      if s == INIT then v == map[] else v == View(Announces(o, s, |o.ips|))
  {
    if h != [] {
      var g, s := h[..|h| - 1], StateAfter(o, h);
      PeerView(o, g);
      hide StateAfter, View, Announces, Stable;
      if Stable(s) {
        assert AllAnnounces(o, h) == AllAnnounces(o, g) + Announces(o, s, |o.ips|);
        ViewConcat(AllAnnounces(o, g), Announces(o, s, |o.ips|));
        Overwrites(o, LastStable(o, g), s);
      } else {
        assert AllAnnounces(o, h) == AllAnnounces(o, g) + [];
        assert AllAnnounces(o, h) == AllAnnounces(o, g);
      }
    }
  }

  /** Where an address is listed for the last time. */
  function LastListed(ips: seq<IP>, x: IP): (l: nat)
    requires x in ips
    ensures l < |ips| && ips[l] == x && forall j :: l < j < |ips| ==> ips[j] != x
  {
    if ips[|ips| - 1] == x then |ips| - 1
    else
      assert ips == ips[..|ips| - 1] + [ips[|ips| - 1]];
      LastListed(ips[..|ips| - 1], x)
  }

  lemma NullProduct(x: int, y: int)
    ensures x * y == 0 <==> x == 0 || y == 0
  {}

  /** In particular the peer holds for an address the metric of its last listing. That
    * is the metric of the `i`-th announcement exactly when metrics are not raised or
    * the address is not listed again later.
    */
  lemma PeerMetric(o: Options, h: seq<Round>, i: nat)
    requires LastStable(o, h) != INIT && i < |o.ips|
    ensures var v, x, base := View(AllAnnounces(o, h)), o.ips[i], Metric(o, LastStable(o, h));
      && x in v
      && (LastStable(o, h) == UP ==> v[x] == o.upMetric + LastListed(o.ips, x) * o.increase)
      && (LastStable(o, h) == DOWN ==> v[x] == o.downMetric + LastListed(o.ips, x) * o.increase)
      && (LastStable(o, h) == DISABLED ==> v[x] == o.disabledMetric + LastListed(o.ips, x) * o.increase)
      && (v[x] == base + i * o.increase <==> o.increase == 0 || forall j :: i < j < |o.ips| ==> o.ips[j] != x)
  {
    hide View, Announces, AllAnnounces, LastStable, LastListed;
    var l := LastListed(o.ips, o.ips[i]);
    PeerView(o, h);
    ViewMetric(o, LastStable(o, h), |o.ips|, l);
    assert l * o.increase - i * o.increase == (l - i) * o.increase;
    NullProduct(l - i, o.increase);
  }

  /** An address listed twice, the metric raised by 1: the peer of a disabled service
    * does not hold the metric of the first announcement.
    */
  lemma ListedTwice()
    ensures var o, h := Options(1, 1, 0, 0, 0, 1, ["a", "a"]), [Disabled];
      var v := View(AllAnnounces(o, h));
      LastStable(o, h) == DISABLED && "a" in v && v["a"] != Metric(o, DISABLED)
  {
    hide View, AllAnnounces;
    var o, h := Options(1, 1, 0, 0, 0, 1, ["a", "a"]), [Disabled];
    assert StateAfter(o, h) == DISABLED && LastStable(o, h) == DISABLED;
    PeerMetric(o, h, 0);
    assert o.ips[1] == o.ips[0];
  }

  lemma NothingTold(o: Options)
    ensures Transitions(o, []) == [] && StateAfter(o, []) == INIT
  {}

  /** The transitions alternate: commands are never executed twice for one state, and
    * the last transition is the current state.
    */
  lemma {:induction false} TransitionsAlternate(o: Options, h: seq<Round>)
    ensures var t := Transitions(o, h);
      && (forall i :: 0 < i < |t| ==> t[i] != t[i - 1])
      && StateAfter(o, h) == (if t == [] then INIT else t[|t| - 1])
      && (t != [] ==> t[0] != INIT)
  {
    hide StateAfter, Transitions;
    NothingTold(o);
    if h != [] {
      var g := h[..|h| - 1];
      TransitionsAlternate(o, g);
      assert h == g + [h[|h| - 1]];
      ToldAppend(o, g, h[|h| - 1]);
    }
  }

  /** Round number `j` changes the state. */
  ghost predicate ChangesAt(o: Options, h: seq<Round>, j: nat)
    requires j < |h|
  {
    StateAfter(o, h[..j + 1]) != StateAfter(o, h[..j])
  }

  ghost function Changes(o: Options, h: seq<Round>): (s: set<nat>) {
    set j: nat | j < |h| && ChangesAt(o, h, j)
  }

  /** The transitions `t` are the new states of the rounds listed in `idx`. */
  ghost predicate NewStates(o: Options, h: seq<Round>, idx: seq<nat>, t: seq<State>) {
    |t| == |idx| && forall i :: 0 <= i < |idx| ==> idx[i] < |h| && t[i] == StateAfter(o, h[..idx[i] + 1])
  }

  lemma ChangesAppend(o: Options, h: seq<Round>, r: Round)
    ensures Changes(o, h + [r]) ==
      if StateAfter(o, h + [r]) != StateAfter(o, h) then Changes(o, h) + {|h|} else Changes(o, h)
  {
    hide StateAfter;
    var g := h + [r];
    assert g[..|h| + 1] == g && g[..|h|] == h;
    forall j: nat | j < |h|
      ensures ChangesAt(o, g, j) <==> ChangesAt(o, h, j)
    {
      assert g[..j + 1] == h[..j + 1] && g[..j] == h[..j];
    }
  }

  lemma NewStatesAppend(o: Options, h: seq<Round>, r: Round, idx: seq<nat>, t: seq<State>)
    requires NewStates(o, h, idx, t)
    ensures NewStates(o, h + [r], idx, t)
    ensures NewStates(o, h + [r], idx + [|h|], t + [StateAfter(o, h + [r])])
  {
    hide StateAfter;
    var g := h + [r];
    assert g[..|h| + 1] == g;
    forall i | 0 <= i < |idx|
      ensures g[..idx[i] + 1] == h[..idx[i] + 1]
    {}
  }

  lemma ChangesBelow(o: Options, h: seq<Round>)
    ensures forall j :: j in Changes(o, h) ==> j < |h|
  {}

  lemma NoChanges(o: Options)
    ensures Lists([], Changes(o, [])) && NewStates(o, [], [], Transitions(o, []))
  {
    NothingTold(o);
    ListsNone();
    assert Changes(o, []) == {};
  }

  /** The transitions are the new states of exactly the rounds that change the state, in
    * order.
    */
  lemma {:induction false} TransitionsAre(o: Options, h: seq<Round>)
    ensures exists idx: seq<nat> :: Lists(idx, Changes(o, h)) && NewStates(o, h, idx, Transitions(o, h))
  {
    hide StateAfter, Transitions, Lists, Changes, NewStates;
    if h == [] {
      NoChanges(o);
      assert Lists([], Changes(o, h)) && NewStates(o, h, [], Transitions(o, h));
    } else {
      var g, r := h[..|h| - 1], h[|h| - 1];
      assert h == g + [r];
      TransitionsAre(o, g);
      var idx: seq<nat> :| Lists(idx, Changes(o, g)) && NewStates(o, g, idx, Transitions(o, g));
      ToldAppend(o, g, r);
      ChangesAppend(o, g, r);
      NewStatesAppend(o, g, r, idx, Transitions(o, g));
      if StateAfter(o, h) != StateAfter(o, g) {
        assert forall j :: j in Changes(o, g) ==> j < |g| by { ChangesBelow(o, g); }
        ListsOneMore(idx, Changes(o, g), |g|);
      } else {
        assert Transitions(o, g) + [] == Transitions(o, g);
      }
    }
  }

  // ----- The checker ------------------------------------------------------------

  class Checker {
    const o: Options
    var state: State
    var checks: int
    // One entry for each time the commands are executed.
    var executed: seq<State>
    var announced: seq<Announcement>
    ghost var history: seq<Round>

    ghost predicate Valid()
      reads this
    {
      && InStep(o, history, state, checks)
      && executed == Transitions(o, history)
      && announced == AllAnnounces(o, history)
    }

    constructor (o: Options)
      ensures Valid() && this.o == o && history == []
    {
      this.o := o;
      state, checks, executed, announced, history := INIT, 0, [], [], [];
    }

    method Trigger(t: State) returns (target: State)
      modifies this`executed
      ensures target == Target(o, t)
      ensures executed == old(executed) + [target]
    {
      target := t;
      if target == RISING && o.rise <= 1 {
        target := UP;
      } else if target == FALLING && o.fall <= 1 {
        target := DOWN;
      }
      executed := executed + [target];
    }

    method Exabgp(target: State)
      modifies this`announced
      ensures announced == old(announced) + if Stable(target) then Announces(o, target, |o.ips|) else []
      ensures target !in {UP, DOWN, DISABLED} ==> announced == old(announced)
      ensures target in {UP, DOWN, DISABLED} ==> Announced(o, target, old(announced), announced)
    {
      hide Announces, Metric, Announced;
      if target != UP && target != DOWN && target != DISABLED {
        return;
      }
      var metric := Metric(o, target);
      NoAnnounces(o, target);
      for i := 0 to |o.ips|
        invariant metric == Metric(o, target) + i * o.increase
        invariant announced == old(announced) + Announces(o, target, i)
      {
        AnnouncesNext(o, target, i);
        announced := announced + [Announcement(o.ips[i], metric)];
        metric := metric + o.increase;
      }
      AllAnnounced(o, target, old(announced));
    }

    /** One pass of the state machine. Commands are executed exactly when the state
      * changes.
      */
    method Step(disabled: bool, successful: bool, ghost r: Round)
      requires disabled == (r == Disabled) && successful == (r != Failure)
      modifies this`state, this`checks, this`executed
      ensures var n := Next(o, old(state), old(checks), r);
        state == n.0 && (state == RISING || state == FALLING ==> checks == n.1)
      ensures executed == old(executed) + if state != old(state) then [state] else []
    {
      if state != DISABLED && disabled {
        state := Trigger(DISABLED);
      } else if state == INIT {
        if successful && o.rise <= 1 {
          state := Trigger(UP);
        } else if successful {
          state := Trigger(RISING);
          checks := 1;
        } else {
          state := Trigger(FALLING);
          checks := 1;
        }
      } else if state == DISABLED {
        if !disabled {
          state := Trigger(INIT);
        }
      } else if state == RISING {
        if successful {
          checks := checks + 1;
          if checks >= o.rise {
            state := Trigger(UP);
          }
        } else {
          state := Trigger(FALLING);
          checks := 1;
        }
      } else if state == FALLING {
        if !successful {
          checks := checks + 1;
          if checks >= o.fall {
            state := Trigger(DOWN);
          }
        } else {
          state := Trigger(RISING);
          checks := 1;
        }
      } else if state == UP {
        if !successful {
          state := Trigger(FALLING);
          checks := 1;
        }
      } else {
        if successful {
          state := Trigger(RISING);
          checks := 1;
        }
      }
    }

    /** One round: after any history the state is the closed form of it, commands have
      * been executed once for each change of state, and a stable state is announced.
      */
    method OneRound(r: Round)
      requires Valid()
      modifies this
      ensures Valid() && history == old(history) + [r]
    {
      ghost var h, s := history, state;
      ToldAppend(o, h, r);
      NextIsClosedForm(o, h, state, checks, r);
      hide StateAfter, Transitions, AllAnnounces, Announces, Effective, Streak, Next;
      var disabled := r == Disabled;
      var successful := disabled || r == Success;
      StateIs(o, h, state, checks);
      Step(disabled, successful, r);
      history := h + [r];
      Exabgp(state);
      StateIs(o, history, state, Next(o, s, old(checks), r).1);
    }

    method Loop(rounds: seq<Round>)
      requires Valid() && history == []
      modifies this
      ensures Valid() && history == rounds
    {
      hide StateAfter, Transitions, AllAnnounces, Effective, Streak;
      for i := 0 to |rounds|
        invariant Valid() && history == rounds[..i]
      {
        OneRound(rounds[i]);
        assert rounds[..i + 1] == rounds[..i] + [rounds[i]];
      }
    }
  }
}
