/** The launch of a laboratory: a parent that maps ids and runs pasta, and a child that
  * unshares its namespaces, synchronised by two pipes. Any process may die at any step;
  * a failing system call or helper is such a death.
  */
module Handshake {

  datatype Proc = Parent | Child | Grand

  /** What each process does next; `Ended` when it exited or died. */
  datatype ParentPc =
    | PCloseReadyW | PCloseGoR | PReadReady | PMapUid | PMapGid | PPasta
    | PWriteGo | PCloseGoW | PWait | PEnded
  datatype ChildPc =
    | CCloseReadyR | CCloseGoW | CUnshare | CWriteReady | CCloseReadyW | CReadGo
    | CCloseGoR | CFork | CWait | CEnded
  datatype GrandPc = GUnborn | GEnter | GRunning | GEnded

  /** What a blocking read of one byte returned. The code does not look at it. */
  datatype Read = NotYet | Byte | Eof

  /** A pipe: bytes written and not read, and the processes holding each end open. */
  datatype Pipe = Pipe(bytes: nat, readers: set<Proc>, writers: set<Proc>)
  {
    function Drop(p: Proc): Pipe {
      this.(readers := readers - {p}, writers := writers - {p})
    }
  }

  datatype Event = Unshare | MapUid | MapGid | Pasta | Enter

  datatype State = State(parent: ParentPc, child: ChildPc, grand: GrandPc,
                         ready: Pipe, go: Pipe,
                         readyRead: Read, goRead: Read,
                         log: seq<Event>)

  /** Right after the fork both processes hold all four ends. */
  predicate Init(s: State) {
    s == State(PCloseReadyW, CCloseReadyR, GUnborn,
               Pipe(0, {Parent, Child}, {Parent, Child}), Pipe(0, {Parent, Child}, {Parent, Child}),
               NotYet, NotYet, [])
  }

  /** A read of one byte blocks while the pipe is empty and has a writer. */
  predicate Readable(p: Pipe) {
    p.bytes > 0 || p.writers == {}
  }

  function Outcome(p: Pipe): Read {
    if p.bytes > 0 then Byte else Eof
  }

  function Consume(p: Pipe): Pipe {
    if p.bytes > 0 then p.(bytes := p.bytes - 1) else p
  }

  // ----- Steps ------------------------------------------------------------------

  function EndParent(s: State): State {
    s.(parent := PEnded, ready := s.ready.Drop(Parent), go := s.go.Drop(Parent))
  }

  function EndChild(s: State): State {
    s.(child := CEnded, ready := s.ready.Drop(Child), go := s.go.Drop(Child))
  }

  /** The next action of the parent, which it can take unless it is blocked. */
  predicate ParentActs(s: State, t: State) {
    match s.parent
    case PCloseReadyW => t == s.(parent := PCloseGoR, ready := s.ready.(writers := s.ready.writers - {Parent}))
    case PCloseGoR => t == s.(parent := PReadReady, go := s.go.(readers := s.go.readers - {Parent}))
    case PReadReady =>
      Readable(s.ready) && t == s.(parent := PMapUid, ready := Consume(s.ready), readyRead := Outcome(s.ready))
    case PMapUid => t == s.(parent := PMapGid, log := s.log + [MapUid])
    case PMapGid => t == s.(parent := PPasta, log := s.log + [MapGid])
    case PPasta => t == s.(parent := PWriteGo, log := s.log + [Pasta])
    case PWriteGo =>
      // With no reader left the write raises, which ends the process.
      if s.go.readers == {} then t == EndParent(s)
      else t == s.(parent := PCloseGoW, go := s.go.(bytes := s.go.bytes + 1))
    case PCloseGoW => t == s.(parent := PWait, go := s.go.(writers := s.go.writers - {Parent}))
    case PWait => s.child == CEnded && t == EndParent(s)
    case PEnded => false
  }

  predicate ChildActs(s: State, t: State) {
    match s.child
    case CCloseReadyR => t == s.(child := CCloseGoW, ready := s.ready.(readers := s.ready.readers - {Child}))
    case CCloseGoW => t == s.(child := CUnshare, go := s.go.(writers := s.go.writers - {Child}))
    case CUnshare => t == s.(child := CWriteReady, log := s.log + [Unshare])
    case CWriteReady =>
      if s.ready.readers == {} then t == EndChild(s)
      else t == s.(child := CCloseReadyW, ready := s.ready.(bytes := s.ready.bytes + 1))
    case CCloseReadyW => t == s.(child := CReadGo, ready := s.ready.(writers := s.ready.writers - {Child}))
    case CReadGo =>
      Readable(s.go) && t == s.(child := CCloseGoR, go := Consume(s.go), goRead := Outcome(s.go))
    case CCloseGoR => t == s.(child := CFork, go := s.go.(readers := s.go.readers - {Child}))
    case CFork => t == s.(child := CWait, grand := GEnter)
    case CWait => s.grand == GEnded && t == EndChild(s)
    case CEnded => false
  }

  /** The grandchild is forked after the child closed every pipe end. */
  predicate GrandActs(s: State, t: State) {
    match s.grand
    case GUnborn => false
    case GEnter => t == s.(grand := GRunning, log := s.log + [Enter])
    case GRunning => t == s.(grand := GEnded)
    case GEnded => false
  }

  predicate Acts(s: State, t: State) {
    ParentActs(s, t) || ChildActs(s, t) || GrandActs(s, t)
  }

  ghost predicate CanAct(s: State) {
    exists t :: Acts(s, t)
  }

  predicate Dies(s: State, t: State) {
    || (s.parent != PEnded && t == EndParent(s))
    || (s.child != CEnded && t == EndChild(s))
    || (s.grand != GUnborn && s.grand != GEnded && t == s.(grand := GEnded))
  }

  predicate Next(s: State, t: State) {
    Acts(s, t) || Dies(s, t)
  }

  predicate Run(r: seq<State>) {
    && r != [] && Init(r[0])
    && forall i :: 0 < i < |r| ==> Next(r[i - 1], r[i])
  }

  // ----- The invariant ----------------------------------------------------------

  /** Position of the parent among its actions. */
  function Parents(pc: ParentPc): (n: nat) {
    match pc
    case PCloseReadyW => 0 case PCloseGoR => 1 case PReadReady => 2 case PMapUid => 3 case PMapGid => 4
    case PPasta => 5 case PWriteGo => 6 case PCloseGoW => 7 case PWait => 8 case PEnded => 9
  }

  function Children(pc: ChildPc): (n: nat) {
    match pc
    case CCloseReadyR => 0 case CCloseGoW => 1 case CUnshare => 2 case CWriteReady => 3 case CCloseReadyW => 4
    case CReadGo => 5 case CCloseGoR => 6 case CFork => 7 case CWait => 8 case CEnded => 9
  }

  /** Which ends are open follows from how far each process is. */
  predicate Ends(s: State) {
    var p, c := Parents(s.parent), Children(s.child);
    && s.ready.writers == (if p < 1 then {Parent} else {}) + (if c < 5 then {Child} else {})
    && s.ready.readers == (if p < 9 then {Parent} else {}) + (if c < 1 then {Child} else {})
    && s.go.readers == (if p < 2 then {Parent} else {}) + (if c < 7 then {Child} else {})
    && s.go.writers == (if p < 8 then {Parent} else {}) + (if c < 2 then {Child} else {})
  }

  /** The first `n` configuration actions, in order. */
  function Setup(n: nat): (l: seq<Event>)
    requires n <= 4
    ensures |l| == n
  {
    [Unshare, MapUid, MapGid, Pasta][..n]
  }

  /** Whether the session was entered: nothing is ever logged after that. */
  predicate Entered(s: State) {
    s.log != [] && s.log[|s.log| - 1] == Enter
  }

  /** How many configuration actions are in the log. */
  function Configured(s: State): nat {
    if Entered(s) then |s.log| - 1 else |s.log|
  }

  /** How far the parent is known to be with the configuration. */
  predicate Keeps(s: State, k: nat) {
    var p := Parents(s.parent);
    && (p <= 3 ==> k <= 1) && (p == 4 ==> k == 2) && (p == 5 ==> k == 3) && (6 <= p <= 8 ==> k == 4)
  }

  /** While the child lives, or has forked: the log is a prefix of the configuration,
    * possibly followed by the entry.
    */
  predicate InOrder(s: State) {
    var k, c := Configured(s), Children(s.child);
    && k <= 4
    && s.log == Setup(k) + (if Entered(s) then [Enter] else [])
    && Keeps(s, k)
    && (c <= 2 ==> k == 0)
    && (c == 3 ==> k == 1)
    && (c <= 3 ==> Parents(s.parent) <= 2 || s.parent == PEnded)
    && (c >= 4 ==> k >= 1)
    && (Entered(s) ==> s.grand == GRunning || s.grand == GEnded)
    && (s.goRead == Byte || s.go.bytes > 0 ==> k == 4)
    && (s.goRead == Eof ==> s.parent == PEnded)
  }

  /** Where the bytes are, and what the reads returned. */
  predicate Bytes(s: State) {
    var p, c := Parents(s.parent), Children(s.child);
    && (c <= 3 ==> s.ready.bytes == 0)
    && (c < 9 ==> (c <= 5 <==> s.goRead == NotYet) && (c <= 7 <==> s.grand == GUnborn))
    && (s.grand != GUnborn ==> s.goRead != NotYet)
    && (s.go.bytes > 0 ==> p >= 7)
    && (p < 9 && s.goRead == Byte ==> p >= 7)
    && (7 <= p <= 8 && s.goRead == NotYet ==> s.go.bytes > 0)
  }

  predicate Ordered(s: State) {
    && (s.child != CEnded || s.grand != GUnborn ==> InOrder(s))
    && (s.child == CEnded && s.grand == GUnborn ==> Enter !in s.log)
  }

  predicate Inv(s: State) {
    Ends(s) && Bytes(s) && Ordered(s)
  }

  lemma InitKeeps(s: State)
    requires Init(s)
    ensures Inv(s)
  {}

  lemma EndsAfterParent(s: State, t: State)
    requires Ends(s) && ParentActs(s, t)
    ensures Ends(t)
  {}

  lemma EndsAfterChild(s: State, t: State)
    requires Ends(s) && ChildActs(s, t)
    ensures Ends(t)
  {}

  /** The grandchild holds no end. */
  lemma EndsOfTwo(s: State, t: State)
    requires Ends(s) && t == s.(grand := t.grand, log := t.log)
    ensures Ends(t)
  {}

  lemma EndsAfterGrand(s: State, t: State)
    requires Ends(s) && GrandActs(s, t)
    ensures Ends(t)
  {
    hide Ends;
    EndsOfTwo(s, t);
  }

  lemma EndsWithoutParent(s: State)
    requires Ends(s)
    ensures Ends(EndParent(s))
  {}

  lemma EndsWithoutChild(s: State)
    requires Ends(s)
    ensures Ends(EndChild(s))
  {}

  lemma EndsAfterDeath(s: State, t: State)
    requires Ends(s) && Dies(s, t)
    ensures Ends(t)
  {
    hide Ends, EndParent, EndChild;
    if s.parent != PEnded && t == EndParent(s) {
      EndsWithoutParent(s);
    } else if s.child != CEnded && t == EndChild(s) {
      EndsWithoutChild(s);
    } else {
      EndsOfTwo(s, t);
    }
  }

  lemma EndsKept(s: State, t: State)
    requires Ends(s) && Next(s, t)
    ensures Ends(t)
  {
    hide Ends, ParentActs, ChildActs, GrandActs, Dies;
    if ParentActs(s, t) {
      EndsAfterParent(s, t);
    } else if ChildActs(s, t) {
      EndsAfterChild(s, t);
    } else if GrandActs(s, t) {
      EndsAfterGrand(s, t);
    } else {
      EndsAfterDeath(s, t);
    }
  }

  lemma BytesAfterParent(s: State, t: State)
    requires Inv(s) && ParentActs(s, t)
    ensures Bytes(t)
  {
    hide Ends, Ordered;
  }

  lemma BytesAfterChild(s: State, t: State)
    requires Inv(s) && ChildActs(s, t)
    ensures Bytes(t)
  {
    hide Ends, Ordered;
  }

  lemma BytesAfterGrand(s: State, t: State)
    requires Inv(s) && GrandActs(s, t)
    ensures Bytes(t)
  {
    hide Ends, Ordered;
  }

  lemma BytesAfterDeath(s: State, t: State)
    requires Inv(s) && Dies(s, t)
    ensures Bytes(t)
  {
    hide Ends, Ordered;
  }

  lemma BytesKept(s: State, t: State)
    requires Inv(s) && Next(s, t)
    ensures Bytes(t)
  {
    hide Inv, Bytes, ParentActs, ChildActs, GrandActs, Dies;
    if ParentActs(s, t) {
      BytesAfterParent(s, t);
    } else if ChildActs(s, t) {
      BytesAfterChild(s, t);
    } else if GrandActs(s, t) {
      BytesAfterGrand(s, t);
    } else {
      BytesAfterDeath(s, t);
    }
  }

  /** One more entry in the log. */
  lemma LogOne(s: State, t: State, e: Event)
    requires t.log == s.log + [e] && !Entered(s) && (s.child != CEnded || s.grand != GUnborn ==> InOrder(s))
    ensures e != Enter ==> !Entered(t) && Configured(t) == Configured(s) + 1
    ensures e == Enter ==> Entered(t) && Configured(t) == Configured(s)
    ensures InOrder(s) && e == Enter ==> t.log == Setup(Configured(t)) + [Enter]
    ensures InOrder(s) && Configured(s) < 4 && e == Setup(4)[Configured(s)] ==> t.log == Setup(Configured(t))
  {}

  lemma SameLog(s: State, t: State)
    requires t.log == s.log
    ensures Entered(t) == Entered(s) && Configured(t) == Configured(s)
    ensures Enter !in s.log ==> !Entered(s)
  {}

  lemma SetupIs()
    ensures Setup(4) == [Unshare, MapUid, MapGid, Pasta]
  {}

  lemma ParentConfigures(s: State, t: State)
    requires Inv(s) && ParentActs(s, t)
    requires s.parent == PMapUid || s.parent == PMapGid || s.parent == PPasta
    ensures Ordered(t)
  {
    hide Setup, Entered, Configured, Ends;
    var e := if s.parent == PMapUid then MapUid else if s.parent == PMapGid then MapGid else Pasta;
    SameLog(s, s);
    SetupIs();
    LogOne(s, t, e);
  }

  /** The parent reads the announcement: the child is past it, or gone. */
  lemma ParentReads(s: State, t: State)
    requires Inv(s) && ParentActs(s, t) && t.log == s.log && s.parent == PReadReady
    requires Entered(t) == Entered(s) && Configured(t) == Configured(s)
    ensures Ordered(t)
  {
    hide Setup, Entered, Configured;
  }

  lemma ParentMovesOn(s: State, t: State)
    requires Inv(s) && ParentActs(s, t) && t.log == s.log && s.parent != PReadReady
    requires Entered(t) == Entered(s) && Configured(t) == Configured(s)
    ensures Ordered(t)
  {
    hide Setup, Entered, Configured, Ends;
  }

  lemma ParentOnlyMoves(s: State, t: State)
    requires Inv(s) && ParentActs(s, t) && t.log == s.log
    requires Entered(t) == Entered(s) && Configured(t) == Configured(s)
    ensures Ordered(t)
  {
    hide Inv, Ordered, ParentActs, Entered, Configured;
    if s.parent == PReadReady {
      ParentReads(s, t);
    } else {
      ParentMovesOn(s, t);
    }
  }

  lemma OrderedAfterParent(s: State, t: State)
    requires Inv(s) && ParentActs(s, t)
    ensures Ordered(t)
  {
    hide Setup, Entered, Configured;
    if s.parent == PMapUid || s.parent == PMapGid || s.parent == PPasta {
      ParentConfigures(s, t);
    } else {
      SameLog(s, t);
      ParentOnlyMoves(s, t);
    }
  }

  lemma NoEnter(s: State)
    ensures Configured(s) <= 4 && s.log == Setup(Configured(s)) && !Entered(s) ==> Enter !in s.log
  {}

  lemma ChildOnlyMoves(s: State, t: State)
    requires Inv(s) && ChildActs(s, t) && t.log == s.log
    requires Entered(t) == Entered(s) && Configured(t) == Configured(s)
    requires Enter !in s.log ==> !Entered(s)
    ensures Ordered(t)
  {
    hide Setup, Entered, Configured;
    NoEnter(s);
  }

  lemma OrderedAfterChild(s: State, t: State)
    requires Inv(s) && ChildActs(s, t)
    ensures Ordered(t)
  {
    hide Setup, Entered, Configured;
    if s.child == CUnshare {
      hide Ends;
      SetupIs();
      LogOne(s, t, Unshare);
    } else {
      SameLog(s, t);
      ChildOnlyMoves(s, t);
    }
  }

  lemma OrderedAfterGrand(s: State, t: State)
    requires Inv(s) && GrandActs(s, t)
    ensures Ordered(t)
  {
    hide Setup, Entered, Configured, Ends;
    if s.grand == GEnter {
      LogOne(s, t, Enter);
    } else {
      SameLog(s, t);
    }
  }

  lemma OrderedAfterDeath(s: State, t: State)
    requires Inv(s) && Dies(s, t)
    ensures Ordered(t)
  {
    hide Setup, Entered, Configured, Ends;
    SameLog(s, t);
    NoEnter(s);
  }

  lemma InvKept(s: State, t: State)
    requires Inv(s) && Next(s, t)
    ensures Inv(t)
  {
    hide Ends, Bytes, Ordered, ParentActs, ChildActs, GrandActs, Dies;
    EndsKept(s, t);
    BytesKept(s, t);
    if ParentActs(s, t) {
      OrderedAfterParent(s, t);
    } else if ChildActs(s, t) {
      OrderedAfterChild(s, t);
    } else if GrandActs(s, t) {
      OrderedAfterGrand(s, t);
    } else {
      OrderedAfterDeath(s, t);
    }
  }

  lemma {:induction false} RunKeeps(r: seq<State>, i: nat)
    requires Run(r) && i < |r|
    ensures Inv(r[i])
  {
    hide Inv, Next, Init;
    if i == 0 {
      InitKeeps(r[0]);
    } else {
      RunKeeps(r, i - 1);
      InvKept(r[i - 1], r[i]);
    }
  }

  // ----- What is in the pipes ---------------------------------------------------

  function Got(r: Read): nat {
    if r == Byte then 1 else 0
  }

  /** Each pipe carries one byte at most, which is read once: bytes written are bytes read
    * and bytes still there. The byte that announces the namespaces comes after they are
    * unshared; at end of file the child is gone.
    */
  ghost predicate Carried(s: State) {
    var p, c := Parents(s.parent), Children(s.child);
    && s.ready.bytes + Got(s.readyRead) <= 1
    && s.go.bytes + Got(s.goRead) <= 1
    && (c <= 3 ==> s.ready.bytes + Got(s.readyRead) == 0)
    && (4 <= c <= 8 ==> s.ready.bytes + Got(s.readyRead) == 1)
    && (p <= 6 ==> s.go.bytes + Got(s.goRead) == 0)
    && (7 <= p <= 8 ==> s.go.bytes + Got(s.goRead) == 1)
    && (p < 9 ==> (p <= 2 <==> s.readyRead == NotYet))
    && (s.ready.bytes + Got(s.readyRead) == 1 ==> Unshare in s.log)
    && (s.readyRead == Eof ==> s.child == CEnded)
    && (c <= 5 ==> s.goRead == NotYet)
  }

  lemma CarriedAfterReading(s: State, t: State)
    requires Inv(s) && Carried(s) && ParentActs(s, t) && s.parent == PReadReady
    ensures Carried(t)
  {
    hide Ordered, Bytes;
  }

  lemma CarriedOtherwise(s: State, t: State)
    requires Inv(s) && Carried(s) && ParentActs(s, t) && s.parent != PReadReady
    ensures Carried(t)
  {
    hide Ordered, Bytes, Ends;
  }

  lemma CarriedAfterParent(s: State, t: State)
    requires Inv(s) && Carried(s) && ParentActs(s, t)
    ensures Carried(t)
  {
    hide Inv, Carried, ParentActs;
    if s.parent == PReadReady {
      CarriedAfterReading(s, t);
    } else {
      CarriedOtherwise(s, t);
    }
  }

  lemma UnsharedFirst(s: State)
    requires Inv(s)
    ensures s.child == CWriteReady ==> Unshare in s.log
  {
    hide Ends, Bytes;
    if s.child == CWriteReady {
      assert Setup(1) == [Unshare];
    }
  }

  lemma CarriedAfterChild(s: State, t: State)
    requires Inv(s) && Carried(s) && ChildActs(s, t)
    ensures Carried(t)
  {
    hide Inv;
    UnsharedFirst(s);
  }

  lemma CarriedAfterOthers(s: State, t: State)
    requires Carried(s) && (GrandActs(s, t) || Dies(s, t))
    ensures Carried(t)
  {}

  lemma CarriedFirst(s: State)
    requires Init(s)
    ensures Carried(s)
  {}

  lemma {:induction false} RunCarries(r: seq<State>, i: nat)
    requires Run(r) && i < |r|
    ensures Carried(r[i])
  {
    hide Inv, ParentActs, ChildActs, GrandActs, Dies, Carried;
    if i == 0 {
      assert Carried(r[0]) by { CarriedFirst(r[0]); }
    } else {
      RunCarries(r, i - 1);
      RunKeeps(r, i - 1);
      if ParentActs(r[i - 1], r[i]) {
        CarriedAfterParent(r[i - 1], r[i]);
      } else if ChildActs(r[i - 1], r[i]) {
        CarriedAfterChild(r[i - 1], r[i]);
      } else {
        CarriedAfterOthers(r[i - 1], r[i]);
      }
    }
  }

  // ----- What the handshake guarantees ------------------------------------------

  /** Up to state `i` of the run, the parent died before pasta was through. */
  ghost predicate DiedEarly(r: seq<State>, i: nat)
    requires i < |r|
  {
    exists j :: 0 < j <= i && Parents(r[j - 1].parent) <= 5 && r[j].parent == PEnded
  }

  /** The parent moves on by one action or ends, and pasta is logged as it leaves it. */
  lemma ParentStep(s: State, t: State)
    requires Next(s, t)
    ensures var p, q := Parents(s.parent), Parents(t.parent);
      && (q == p || (p < 9 && (q == p + 1 || q == 9)))
      && (Pasta in t.log <==> Pasta in s.log || (p == 5 && q == 6))
  {
    if ParentActs(s, t) {
    } else if ChildActs(s, t) {
    } else if GrandActs(s, t) {
    }
  }

  lemma EndedIs(s: State)
    ensures Parents(s.parent) <= 9 && (Parents(s.parent) == 9 <==> s.parent == PEnded)
  {}

  lemma DiedEarlyStep(r: seq<State>, i: nat)
    requires 0 < i < |r|
    ensures DiedEarly(r, i) <==>
      DiedEarly(r, i - 1) || (Parents(r[i - 1].parent) <= 5 && r[i].parent == PEnded)
  {}

  /** How far the parent is tells whether pasta is through, and a dead parent had it
    * through unless it died early.
    */
  lemma {:induction false} PastaOrEarlyDeath(r: seq<State>, i: nat)
    requires Run(r) && i < |r|
    ensures var p := Parents(r[i].parent);
      && (p <= 5 ==> Pasta !in r[i].log && !DiedEarly(r, i))
      && (6 <= p <= 8 ==> Pasta in r[i].log && !DiedEarly(r, i))
      && (p == 9 ==> (Pasta !in r[i].log <==> DiedEarly(r, i)))
  {
    if i > 0 {
      PastaOrEarlyDeath(r, i - 1);
      ParentStep(r[i - 1], r[i]);
      hide Next, Init;
      DiedEarlyStep(r, i);
      EndedIs(r[i - 1]);
      EndedIs(r[i]);
    }
  }

  /** In every interleaving, with deaths anywhere, the session is entered after a prefix
    * of the configuration, carried out in order, and nothing is configured later. If
    * the child's read returned the byte the configuration is complete. It is incomplete
    * exactly when the parent died before pasta was through, and the read then returned
    * end of file.
    */
  lemma EnteredAfterSetup(r: seq<State>, i: nat)
    requires Run(r) && i < |r| && Enter in r[i].log
    ensures var s, k := r[i], Configured(r[i]);
      && 1 <= k <= 4 && s.log == Setup(k) + [Enter]
      && s.goRead != NotYet
      && (s.goRead == Byte ==> k == 4)
      && (k < 4 <==> DiedEarly(r, i))
      && (k < 4 ==> s.goRead == Eof && s.parent == PEnded)
  {
    RunKeeps(r, i);
    PastaOrEarlyDeath(r, i);
    var s := r[i];
    hide Run, DiedEarly, Ends, Bytes;
    assert Enter !in Setup(Configured(s));
    assert Configured(s) == 4 ==> s.log[3] == Pasta;
  }

  /** All three processes are gone, or the grandchild never came to be. */
  predicate Over(s: State) {
    s.parent == PEnded && s.child == CEnded && (s.grand == GUnborn || s.grand == GEnded)
  }

  lemma ChildSuccessor(s: State) returns (t: State)
    requires s.child != CEnded && (s.child == CReadGo ==> Readable(s.go)) && (s.child == CWait ==> s.grand == GEnded)
    ensures ChildActs(s, t)
  {
    match s.child
    case CCloseReadyR => t := s.(child := CCloseGoW, ready := s.ready.(readers := s.ready.readers - {Child}));
    case CCloseGoW => t := s.(child := CUnshare, go := s.go.(writers := s.go.writers - {Child}));
    case CUnshare => t := s.(child := CWriteReady, log := s.log + [Unshare]);
    case CWriteReady =>
      t := if s.ready.readers == {} then EndChild(s)
           else s.(child := CCloseReadyW, ready := s.ready.(bytes := s.ready.bytes + 1));
    case CCloseReadyW => t := s.(child := CReadGo, ready := s.ready.(writers := s.ready.writers - {Child}));
    case CReadGo => t := s.(child := CCloseGoR, go := Consume(s.go), goRead := Outcome(s.go));
    case CCloseGoR => t := s.(child := CFork, go := s.go.(readers := s.go.readers - {Child}));
    case CFork => t := s.(child := CWait, grand := GEnter);
    case CWait => t := EndChild(s);
  }

  lemma ParentSuccessor(s: State) returns (t: State)
    requires s.parent != PEnded
    requires (s.parent == PReadReady ==> Readable(s.ready)) && (s.parent == PWait ==> s.child == CEnded)
    ensures ParentActs(s, t)
  {
    match s.parent
    case PCloseReadyW => t := s.(parent := PCloseGoR, ready := s.ready.(writers := s.ready.writers - {Parent}));
    case PCloseGoR => t := s.(parent := PReadReady, go := s.go.(readers := s.go.readers - {Parent}));
    case PReadReady => t := s.(parent := PMapUid, ready := Consume(s.ready), readyRead := Outcome(s.ready));
    case PMapUid => t := s.(parent := PMapGid, log := s.log + [MapUid]);
    case PMapGid => t := s.(parent := PPasta, log := s.log + [MapGid]);
    case PPasta => t := s.(parent := PWriteGo, log := s.log + [Pasta]);
    case PWriteGo =>
      t := if s.go.readers == {} then EndParent(s)
           else s.(parent := PCloseGoW, go := s.go.(bytes := s.go.bytes + 1));
    case PCloseGoW => t := s.(parent := PWait, go := s.go.(writers := s.go.writers - {Parent}));
    case PWait => t := EndParent(s);
  }

  /** No deadlock: until everything is over some process can act, without anyone having
    * to die.
    */
  lemma SomeoneActs(r: seq<State>, i: nat)
    requires Run(r) && i < |r|
    ensures Over(r[i]) <==> !CanAct(r[i])
  {
    RunKeeps(r, i);
    var s := r[i];
    if s.grand == GEnter {
      assert Acts(s, s.(grand := GRunning, log := s.log + [Enter]));
    } else if s.grand == GRunning {
      assert Acts(s, s.(grand := GEnded));
    } else if s.child != CEnded && (s.child != CReadGo || Readable(s.go)) {
      var t := ChildSuccessor(s);
      assert Acts(s, t);
    } else if s.parent != PEnded {
      var t := ParentSuccessor(s);
      assert Acts(s, t);
    }
  }

  /** The parent is not over before the child, nor the child before the grandchild. */
  ghost predicate Tidy(s: State) {
    && (s.parent == PEnded ==> s.child == CEnded)
    && (s.child == CEnded ==> s.grand == GEnded)
  }

  /** The parent only ends by itself after waiting: as it lives and has not written, the
    * child still reads, so the write does not fail.
    */
  lemma TidyAfterParent(s: State, t: State)
    requires Inv(s) && Tidy(s) && ParentActs(s, t)
    ensures Tidy(t)
  {
    hide Setup, Entered, Configured;
  }

  lemma TidyAfterChild(s: State, t: State)
    requires Inv(s) && Tidy(s) && ChildActs(s, t)
    ensures Tidy(t)
  {
    hide Setup, Entered, Configured;
  }

  lemma TidyAfterGrand(s: State, t: State)
    requires Tidy(s) && GrandActs(s, t)
    ensures Tidy(t)
  {}

  lemma TidyStep(s: State, t: State)
    requires Inv(s) && Tidy(s) && Acts(s, t)
    ensures Tidy(t)
  {
    hide Inv, ParentActs, ChildActs, GrandActs;
    if ParentActs(s, t) {
      TidyAfterParent(s, t);
    } else if ChildActs(s, t) {
      TidyAfterChild(s, t);
    } else {
      TidyAfterGrand(s, t);
    }
  }

  /** No process dies up to state `i`. */
  ghost predicate NoDeath(r: seq<State>, i: nat)
    requires i < |r|
  {
    forall j :: 0 < j <= i ==> Acts(r[j - 1], r[j])
  }

  lemma {:induction false} OrderlyTidy(r: seq<State>, i: nat)
    requires Run(r) && i < |r| && NoDeath(r, i)
    ensures Tidy(r[i])
  {
    hide Inv, Acts, Dies;
    if i > 0 {
      OrderlyTidy(r, i - 1);
      RunKeeps(r, i - 1);
      TidyStep(r[i - 1], r[i]);
    }
  }

  /** A parent that does not die does not end before pasta is through. */
  lemma NoEarlyDeath(r: seq<State>, i: nat)
    requires Run(r) && i < |r| && NoDeath(r, i)
    ensures !DiedEarly(r, i)
  {
    forall j | 0 < j <= i
      ensures !(Parents(r[j - 1].parent) <= 5 && r[j].parent == PEnded)
    {
      assert Acts(r[j - 1], r[j]);
    }
  }

  /** Without deaths everything ends in order: the launcher after its child, the child
    * after the session; and a session is entered fully configured.
    */
  lemma {:induction false} OrderlyEnd(r: seq<State>, i: nat)
    requires Run(r) && i < |r| && NoDeath(r, i)
    ensures r[i].parent == PEnded ==> r[i].child == CEnded
    ensures r[i].child == CEnded ==> r[i].grand == GEnded
    ensures Enter in r[i].log ==> r[i].log == [Unshare, MapUid, MapGid, Pasta, Enter]
  {
    OrderlyTidy(r, i);
    if Enter in r[i].log {
      EnteredAfterSetup(r, i);
      NoEarlyDeath(r, i);
    }
    hide Run, NoDeath, DiedEarly;
  }

  /** Actions left, at most. */
  function Left(s: State): nat {
    9 - Parents(s.parent) + 9 - Children(s.child)
    + match s.grand case GUnborn => 3 case GEnter => 2 case GRunning => 1 case GEnded => 0
  }

  lemma LeftAfterParent(s: State, t: State)
    requires ParentActs(s, t)
    ensures Left(t) < Left(s)
  {}

  lemma LeftAfterChild(s: State, t: State)
    requires Bytes(s) && ChildActs(s, t)
    ensures Left(t) < Left(s)
  {}

  lemma LeftAfterGrand(s: State, t: State)
    requires GrandActs(s, t)
    ensures Left(t) < Left(s)
  {}

  lemma LeftAfterDeath(s: State, t: State)
    requires Dies(s, t)
    ensures Left(t) < Left(s)
  {}

  lemma LeftDecreases(s: State, t: State)
    requires Bytes(s) && Next(s, t)
    ensures Left(t) < Left(s)
  {
    hide Bytes, Left, ParentActs, ChildActs, GrandActs, Dies;
    if ParentActs(s, t) {
      LeftAfterParent(s, t);
    } else if ChildActs(s, t) {
      LeftAfterChild(s, t);
    } else if GrandActs(s, t) {
      LeftAfterGrand(s, t);
    } else {
      LeftAfterDeath(s, t);
    }
  }

  lemma InitLeft(s: State)
    requires Init(s)
    ensures Left(s) == 21
  {}

  lemma NothingLeft(s: State)
    ensures Left(s) == 0 ==> Over(s)
  {}

  /** Every run is short. With no deadlock before the end, no process stays blocked:
    * whatever the scheduling and the deaths, within 21 steps everything is over.
    */
  lemma {:induction false} RunsEnd(r: seq<State>)
    requires Run(r)
    ensures |r| + Left(r[|r| - 1]) <= 22
    ensures |r| == 22 || !CanAct(r[|r| - 1]) ==> Over(r[|r| - 1])
  {
    hide Next, Init, CanAct, Left, Ends, Bytes, Ordered, Over;
    SomeoneActs(r, |r| - 1);
    NothingLeft(r[|r| - 1]);
    if |r| == 1 {
      InitLeft(r[0]);
    } else {
      RunsEnd(r[..|r| - 1]);
      RunKeeps(r, |r| - 2);
      LeftDecreases(r[|r| - 2], r[|r| - 1]);
    }
  }

  lemma Extend(r: seq<State>, t: State)
    requires Run(r) && Next(r[|r| - 1], t)
    ensures Run(r + [t])
  {
    hide Next, Init;
    var q := r + [t];
    forall i | 0 < i < |q|
      ensures Next(q[i - 1], q[i])
    {
      assert i < |r| ==> q[i] == r[i];
    }
  }

  /** The child has announced its namespaces, and the parent dies without reading. */
  function Orphan(): State {
    State(PEnded, CCloseReadyW, GUnborn, Pipe(1, {}, {Child}), Pipe(0, {Child}, {}), NotYet, NotYet, [Unshare])
  }

  lemma OrphanReached() returns (r: seq<State>)
    ensures Run(r) && r[|r| - 1] == Orphan()
  {
    var both := {Parent, Child};
    var s0 := State(PCloseReadyW, CCloseReadyR, GUnborn, Pipe(0, both, both), Pipe(0, both, both), NotYet, NotYet, []);
    var s1 := s0.(child := CCloseGoW, ready := Pipe(0, {Parent}, both));
    var s2 := s1.(child := CUnshare, go := Pipe(0, both, {Parent}));
    var s3 := s2.(child := CWriteReady, log := [Unshare]);
    var s4 := s3.(child := CCloseReadyW, ready := Pipe(1, {Parent}, both));
    assert both - {Child} == {Parent} && both - {Parent} == {Child} && {Parent} - {Parent} == {};
    assert ChildActs(s0, s1) && ChildActs(s1, s2) && ChildActs(s2, s3) && ChildActs(s3, s4);
    assert Dies(s4, Orphan());
    hide ParentActs, ChildActs, GrandActs, Dies;
    r := [s0];
    Extend(r, s1);
    Extend([s0, s1], s2);
    Extend([s0, s1, s2], s3);
    Extend([s0, s1, s2, s3], s4);
    Extend([s0, s1, s2, s3, s4], Orphan());
    r := [s0, s1, s2, s3, s4, Orphan()];
    assert [s0] + [s1] == [s0, s1] && [s0, s1] + [s2] == [s0, s1, s2] && [s0, s1, s2] + [s3] == [s0, s1, s2, s3];
    assert [s0, s1, s2, s3] + [s4] == [s0, s1, s2, s3, s4] && [s0, s1, s2, s3, s4] + [Orphan()] == r;
  }

  /** The read's return value is not looked at, so a session can be entered without any
    * configuration: the orphan reads end of file and goes on.
    */
  lemma EnteredUnconfigured() returns (r: seq<State>)
    ensures Run(r) && r[|r| - 1].log == [Unshare, Enter]
  {
    var q := OrphanReached();
    var s5 := Orphan();
    var s6 := s5.(child := CReadGo, ready := Pipe(1, {}, {}));
    var s7 := s6.(child := CCloseGoR, goRead := Eof);
    var s8 := s7.(child := CFork, go := Pipe(0, {}, {}));
    var s9 := s8.(child := CWait, grand := GEnter);
    var s10 := s9.(grand := GRunning, log := [Unshare, Enter]);
    assert {Child} - {Child} == {};
    assert ChildActs(s5, s6) && ChildActs(s6, s7) && ChildActs(s7, s8) && ChildActs(s8, s9) && GrandActs(s9, s10);
    hide ParentActs, ChildActs, GrandActs, Dies;
    Extend(q, s6);
    Extend(q + [s6], s7);
    Extend(q + [s6] + [s7], s8);
    Extend(q + [s6] + [s7] + [s8], s9);
    r := q + [s6] + [s7] + [s8] + [s9];
    Extend(r, s10);
    r := r + [s10];
  }
}
