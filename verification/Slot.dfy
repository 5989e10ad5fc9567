/**
 * One connection slot: the flag word of SaeaLayerCallback (Nowin/SaeaLayerCallback.cs:112-173,
 * 191-282, 319-351) and the accept/receive hand-over of Transport2HttpHandler
 * (Nowin/Transport2HttpHandler.cs:930-1069, 1090-1121, 1216-1229, 1453-1457). Each event is one
 * atomic step: a lock block, or a compare-and-swap loop with the call and assignments behind it.
 */
module Slot {
  /** What the thread that carries the current receive is about to do. */
  datatype Chain =
    | Idle                  // no receive is going on
    | Starting              // _receiving is set, StartReceive comes next
    | Outstanding           // the operating system is receiving
    | Finishing(ok: bool)   // FinishReceive is about to take the lock
    | Holding               // FinishReceive left the lock and will start a receive, unless told to accept
    | Lost                  // _receiving is set, but the thread that set it has gone

  /** The bits of _state in SaeaLayerCallback, but for Send. */
  datatype Flags = Flags(receive: bool, disconnect: bool, aborting: bool, delayedAccept: bool)

  /** What is going on around the two objects. */
  datatype World = World(
    // operations of the operating system under way, and whether a client has been reported
    acceptOut: bool, disconnectOut: bool, open: bool,
    // threads between two steps
    chain: Chain,
    calls: nat,      // PrepareAccept has been called, RealPrepareAccept has not run yet
    arming: nat,     // RealPrepareAccept left the lock, StartAccept comes next
    testers: nat,    // FinishReceive left the lock and will only test _afterReceiveContinueWithAccept
    inApp: nat,      // FinishReceive called the application and will take the lock again
    stale: nat,      // the same, but meanwhile another accept has been started
    closers: nat,    // CloseConnection won its compare-and-swap, StartDisconnect comes next
    used: bool,      // this connection has had a request, an oversized head or a failed receive
    fault: bool)     // the source would have thrown or dereferenced null

  /** `socket`: _socket is set; then the three fields of Transport2HttpHandler. */
  datatype Slot = Slot(state: Flags, socket: bool, receiving: bool, after: bool, disconnecting: bool, world: World)

  /** The block constructor has created the slot and called PrepareAccept. */
  const NEW := Slot(Flags(false, false, false, false), false, false, false, false,
                    World(false, false, false, Idle, 1, 0, 0, 0, 0, 0, false, false))

  /**
   * How ProcessReceive ends: with a receive to start; without one, because the head is too long or
   * something is still to be read; or with a request for the application.
   */
  datatype Decision = Start | NoStart | Request(started: bool)

  datatype Event =
    | PrepareAccept
    | StartAccept
    | AcceptDone
    | AcceptRejected
    | FinishReceive(d: Decision)
    | BackFromApp(d: Decision)
    | BackTooLate
    | TestAndStart
    | Test
    | StartNextReceive(d: Decision)
    | StartReceive
    | ReceiveDone(ok: bool)
    | CloseConnection
    | StartDisconnect
    | DisconnectDone

  /** From the report of a client to the next StartAccept. */
  predicate Lifetime(s: Slot) {
    (s.world.open || s.state.aborting) && s.world.arming == 0 && !s.world.acceptOut
  }

  /**
   * When StartNextReceive and CloseConnection have a caller: the application and the end of a
   * response act for a request, FinishReceive closes behind a failed receive, the 400 answer behind
   * an oversized head.
   */
  predicate Acting(s: Slot) {
    Lifetime(s) && s.world.used
  }

  predicate Enabled(s: Slot, e: Event) {
    var w := s.world;
    match e
    case PrepareAccept => w.calls > 0
    case StartAccept => w.arming > 0
    case AcceptDone => w.acceptOut
    case AcceptRejected => w.acceptOut
    case FinishReceive(_) => w.chain.Finishing?
    case BackFromApp(_) => w.inApp > 0
    case BackTooLate => w.stale > 0
    case TestAndStart => w.chain.Holding?
    case Test => w.testers > 0
    case StartNextReceive(_) => Acting(s)
    case StartReceive => w.chain.Starting?
    case ReceiveDone(_) => w.chain.Outstanding?
    case CloseConnection => Acting(s)
    case StartDisconnect => w.closers > 0
    case DisconnectDone => w.disconnectOut
  }

  /** RealPrepareAccept: postponed while a receive is going on. */
  function Prepared(s: Slot): Slot
    requires s.world.calls > 0
  {
    var w := s.world.(calls := s.world.calls - 1);
    if s.receiving then s.(after := true, world := w)
    else s.(disconnecting := false, world := w.(stale := w.stale + w.inApp, inApp := 0, arming := w.arming + 1))
  }

  function AcceptStarted(s: Slot): Slot
    requires s.world.arming > 0
  {
    var w := s.world.(arming := s.world.arming - 1);
    if s.state.receive then s.(world := w.(fault := true))
    else s.(state := s.state.(receive := true, aborting := false), world := w.(acceptOut := true))
  }

  function Accepted(s: Slot): Slot {
    s.(state := s.state.(receive := false), socket := true, receiving := true,
       world := s.world.(acceptOut := false, open := true, used := false, chain := Finishing(true)))
  }

  function Rejected(s: Slot): Slot {
    s.(state := s.state.(receive := false), world := s.world.(acceptOut := false, calls := s.world.calls + 1))
  }

  /** The end of ProcessReceive, in a thread that came from FinishReceive. */
  function Decided(s: Slot, d: Decision): Slot {
    var w := s.world;
    match d
    case Start =>
      if s.receiving then s.(world := w.(testers := w.testers + 1))
      else s.(receiving := true, world := w.(chain := Holding))
    case NoStart => s.(world := w.(testers := w.testers + 1, used := true))
    case Request(started) =>
      if started && !s.receiving
      then s.(receiving := true, world := w.(inApp := w.inApp + 1, used := true, chain := Starting))
      else s.(world := w.(inApp := w.inApp + 1, used := true))
  }

  /**
   * The end of ProcessReceive in StartNextReceive, which does not test for a postponed accept. A
   * thread that comes back from the application later acts like another StartNextReceive.
   */
  function Continued(s: Slot, d: Decision): Slot {
    if s.receiving || d.NoStart? || d == Request(false) then s
    else s.(receiving := true, world := s.world.(chain := Starting))
  }

  function Finished(s: Slot, d: Decision): Slot
    requires s.world.chain.Finishing?
  {
    var w := s.world.(chain := Idle);
    if s.world.chain.ok && !s.after then Decided(s.(receiving := false, world := w), d)
    else s.(receiving := false, world := w.(testers := w.testers + 1, used := w.used || !s.after))
  }

  /** Test and clear of _afterReceiveContinueWithAccept. */
  function Tested(s: Slot): Slot {
    if s.after then s.(after := false, world := s.world.(calls := s.world.calls + 1)) else s
  }

  function ReceiveStarted(s: Slot): Slot {
    var w := s.world;
    if s.state.receive then s.(world := w.(fault := true))
    else if s.state.aborting then s.(world := w.(chain := Finishing(false)))
    else s.(state := s.state.(receive := true), world := w.(chain := Outstanding, fault := w.fault || !s.socket))
  }

  function ReceiveCompleted(s: Slot, ok: bool): Slot {
    var w := s.world.(chain := Finishing(ok));
    s.(state := s.state.(receive := false, delayedAccept := false),
       world := if s.state.delayedAccept then w.(calls := w.calls + 1) else w)
  }

  function DisconnectStarted(s: Slot): Slot
    requires s.world.closers > 0
  {
    var w := s.world.(closers := s.world.closers - 1);
    if s.state.disconnect || !s.socket then s.(world := w.(fault := true))
    else s.(state := s.state.(disconnect := true, aborting := true), world := w.(disconnectOut := true))
  }

  function Disconnected(s: Slot): Slot {
    var w := s.world.(disconnectOut := false, open := false);
    s.(state := s.state.(disconnect := false, delayedAccept := s.state.receive), socket := false,
       world := if s.state.receive then w else w.(calls := w.calls + 1))
  }

  function Step(s: Slot, e: Event): Slot
    requires Enabled(s, e)
  {
    var w := s.world;
    match e
    case PrepareAccept => Prepared(s)
    case StartAccept => AcceptStarted(s)
    case AcceptDone => Accepted(s)
    case AcceptRejected => Rejected(s)
    case FinishReceive(d) => Finished(s, d)
    case BackFromApp(d) => Decided(s.(world := w.(inApp := w.inApp - 1)), d)
    case BackTooLate => s.(world := w.(stale := w.stale - 1, testers := w.testers + 1))
    case TestAndStart => Tested(s.(world := w.(chain := if s.after then Lost else Starting)))
    case Test => Tested(s.(world := w.(testers := w.testers - 1)))
    case StartNextReceive(d) => Continued(s, d)
    case StartReceive => ReceiveStarted(s)
    case ReceiveDone(ok) => ReceiveCompleted(s, ok)
    case CloseConnection =>
      if s.disconnecting then s else s.(disconnecting := true, world := w.(closers := w.closers + 1))
    case StartDisconnect => DisconnectStarted(s)
    case DisconnectDone => Disconnected(s)
  }

  predicate Legal(s: Slot, es: seq<Event>)
    decreases |es|
  {
    es != [] ==> Enabled(s, es[0]) && Legal(Step(s, es[0]), es[1..])
  }

  function Run(s: Slot, es: seq<Event>): Slot
    requires Legal(s, es)
    decreases |es|
  {
    if es == [] then s else Run(Step(s, es[0]), es[1..])
  }

  // ---------------------------------------------------------------------------------------
  // The invariant
  // ---------------------------------------------------------------------------------------

  function Bit(b: bool): nat { if b then 1 else 0 }

  /** The places that can hold the duty to start the next accept. */
  function Obligations(s: Slot): nat {
    var w := s.world;
    Bit(w.acceptOut) + Bit(w.open) + Bit(s.state.delayedAccept) + Bit(s.after) + w.calls + w.arming
  }

  /** The flag word and the handler's fields agree with what is under way. */
  predicate Consistent(s: Slot) {
    var w := s.world;
    && (s.state.receive <==> w.acceptOut || w.chain.Outstanding?)
    && (s.receiving <==> !w.chain.Idle?)
    && s.state.disconnect == w.disconnectOut
    && (w.disconnectOut ==> w.open && s.state.aborting)
    && (w.open ==> s.socket)
    && (s.state.aborting && w.arming == 0 ==> s.disconnecting)
    && Bit(w.disconnectOut) + w.closers <= 1
    && (w.closers > 0 ==> w.open && s.disconnecting && !s.state.aborting)
    && (w.open && s.disconnecting ==> w.disconnectOut || w.closers > 0)
  }

  /** While an accept is coming up or under way, nothing of the last connection is. */
  predicate Quiet(s: Slot) {
    var w := s.world;
    && (w.acceptOut || w.arming > 0 || !(w.open || s.state.aborting) ==> w.chain.Idle? && w.inApp == 0)
    && (w.acceptOut ==> !s.state.aborting && !s.disconnecting)
    && (w.arming > 0 ==> !s.disconnecting)
    && (s.after ==> s.state.aborting && (!w.chain.Idle? || w.testers > 0))
    && (s.state.delayedAccept ==> s.state.aborting && w.chain.Outstanding?)
    && (!w.open && !s.state.aborting ==> !s.disconnecting)
    && (w.chain.Lost? ==> s.state.aborting && (s.after || w.calls > 0))
    && (w.open && !w.used ==> !s.disconnecting && !w.chain.Idle? && w.inApp == 0)
  }

  predicate Inv(s: Slot) {
    !s.world.fault && Obligations(s) == 1 && Consistent(s) && Quiet(s)
  }

  lemma AcceptKeeps(s: Slot, e: Event)
    requires Inv(s) && Enabled(s, e) && (e.PrepareAccept? || e.StartAccept? || e.AcceptDone? || e.AcceptRejected?)
    ensures Inv(Step(s, e))
  {
    hide Decided, Finished, Tested, ReceiveStarted, ReceiveCompleted, DisconnectStarted, Disconnected;
  }

  lemma FinishKeeps(s: Slot, e: Event)
    requires Inv(s) && Enabled(s, e) && (e.FinishReceive? || e.BackFromApp? || e.BackTooLate?)
    ensures Inv(Step(s, e))
  {
    hide Prepared, AcceptStarted, Accepted, Tested, ReceiveStarted, ReceiveCompleted, DisconnectStarted, Disconnected;
    match e {
      case FinishReceive(d) => match d { case Start => case NoStart => case Request(_) => }
      case BackFromApp(d) => match d { case Start => case NoStart => case Request(_) => }
      case BackTooLate =>
    }
  }

  lemma ReceiveKeeps(s: Slot, e: Event)
    requires Inv(s) && Enabled(s, e)
    requires e.TestAndStart? || e.Test? || e.StartNextReceive? || e.StartReceive? || e.ReceiveDone?
    ensures Inv(Step(s, e))
  {
    hide Prepared, AcceptStarted, Accepted, Decided, Finished, DisconnectStarted, Disconnected;
  }

  lemma DisconnectKeeps(s: Slot, e: Event)
    requires Inv(s) && Enabled(s, e) && (e.CloseConnection? || e.StartDisconnect? || e.DisconnectDone?)
    ensures Inv(Step(s, e))
  {
    hide Prepared, AcceptStarted, Accepted, Decided, Finished, Tested, ReceiveStarted, ReceiveCompleted;
  }

  /** No step throws, and the duty to accept again stays in exactly one place. */
  lemma StepKeeps(s: Slot, e: Event)
    requires Inv(s) && Enabled(s, e)
    ensures Inv(Step(s, e))
  {
    hide Step, Inv, Enabled;
    match e
    case PrepareAccept | StartAccept | AcceptDone | AcceptRejected => AcceptKeeps(s, e);
    case FinishReceive(_) | BackFromApp(_) | BackTooLate => FinishKeeps(s, e);
    case TestAndStart | Test | StartNextReceive(_) | StartReceive | ReceiveDone(_) => ReceiveKeeps(s, e);
    case CloseConnection | StartDisconnect | DisconnectDone => DisconnectKeeps(s, e);
  }

  /** In every run from the beginning, whatever the interleaving. */
  lemma {:induction false} RunKeeps(s: Slot, es: seq<Event>)
    requires Inv(s) && Legal(s, es)
    ensures Inv(Run(s, es))
    decreases |es|
  {
    hide Inv, Step, Enabled;
    if es != [] {
      StepKeeps(s, es[0]);
      RunKeeps(Step(s, es[0]), es[1..]);
    }
  }

  lemma SlotIsSafe(es: seq<Event>)
    requires Legal(NEW, es)
    ensures var s := Run(NEW, es);
            && !s.world.fault && Obligations(s) == 1
            && (s.world.acceptOut ==> !s.world.chain.Outstanding? && !s.world.disconnectOut && s.world.closers == 0)
            && (s.world.chain.Outstanding? || s.world.disconnectOut ==> s.socket || s.state.aborting)
            && (s.world.disconnectOut ==> s.world.open)
    ensures forall e :: Enabled(Run(NEW, es), e) ==> !Throws(Run(NEW, es), e)
  {
    RunKeeps(NEW, es);
    NothingThrows(Run(NEW, es));
  }

  /** Where SaeaLayerCallback throws, or uses a socket that is gone. */
  predicate Throws(s: Slot, e: Event) {
    match e
    case StartAccept => s.state.receive
    case StartReceive => s.state.receive || (!s.state.aborting && !s.socket)
    case StartDisconnect => s.state.disconnect || !s.socket
    case _ => false
  }

  lemma NothingThrows(s: Slot)
    requires Inv(s)
    ensures forall e :: Enabled(s, e) ==> !Throws(s, e)
  {
  }

  // ---------------------------------------------------------------------------------------
  // Counting
  // ---------------------------------------------------------------------------------------

  /** Accepts that are due but not started. */
  function Owed(s: Slot): nat {
    Bit(s.state.delayedAccept) + Bit(s.after) + s.world.calls + s.world.arming
  }

  function Count(es: seq<Event>, e: Event): nat {
    if es == [] then 0 else Bit(es[0] == e) + Count(es[1..], e)
  }

  lemma StepOwes(s: Slot, e: Event)
    requires Inv(s) && Enabled(s, e)
    ensures Bit(e == StartAccept) + Owed(Step(s, e)) == Bit(e == DisconnectDone) + Bit(e == AcceptRejected) + Owed(s)
  {
    var w, w' := s.world, Step(s, e).world;
    match e {
      case PrepareAccept => hide Consistent, Quiet;
      case StartAccept => hide Quiet;
      case DisconnectDone => hide Quiet;
      case FinishReceive(_) => assert w'.calls == w.calls && w'.arming == w.arming;
      case BackFromApp(_) => assert w'.calls == w.calls && w'.arming == w.arming;
      case StartNextReceive(_) => assert w'.calls == w.calls && w'.arming == w.arming;
      case _ => hide Inv;
    }
  }

  lemma StepReports(s: Slot, e: Event)
    requires Inv(s) && Enabled(s, e)
    ensures Bit(e == AcceptDone) + Bit(s.world.open) == Bit(e == DisconnectDone) + Bit(Step(s, e).world.open)
  {
    match e {
      case AcceptDone => hide Consistent, Quiet;
      case DisconnectDone => hide Quiet;
      case _ => hide Inv;
    }
  }

  /** Every disconnect and every failed accept is answered by exactly one new accept. */
  lemma {:induction false} AcceptsAreConserved(s: Slot, es: seq<Event>)
    requires Inv(s) && Legal(s, es)
    ensures Count(es, StartAccept) + Owed(Run(s, es))
            == Count(es, DisconnectDone) + Count(es, AcceptRejected) + Owed(s)
    ensures Count(es, AcceptDone) + Bit(s.world.open) == Count(es, DisconnectDone) + Bit(Run(s, es).world.open)
    decreases |es|
  {
    hide Inv, Step, Enabled, Owed;
    if es != [] {
      StepOwes(s, es[0]);
      StepReports(s, es[0]);
      StepKeeps(s, es[0]);
      AcceptsAreConserved(Step(s, es[0]), es[1..]);
    }
  }

  /** Threads that came from FinishReceive and will still test for a postponed accept. */
  function Threads(s: Slot): nat {
    s.world.testers + s.world.inApp + s.world.stale + Bit(s.world.chain.Holding?)
  }

  predicate BringsThread(e: Event) {
    e.FinishReceive?
  }

  predicate TestsForAccept(e: Event) {
    e.Test? || e.TestAndStart?
  }

  function CountOf(es: seq<Event>, kind: Event -> bool): nat {
    if es == [] then 0 else Bit(kind(es[0])) + CountOf(es[1..], kind)
  }

  lemma DecidedThreads(s: Slot, d: Decision)
    requires s.receiving <==> !s.world.chain.Idle?
    ensures Threads(Decided(s, d)) == Threads(s) + 1
    ensures Threads(Continued(s, d)) == Threads(s)
  {
  }

  lemma FinishKeepsThreads(s: Slot, e: Event)
    requires Inv(s) && Enabled(s, e) && (e.FinishReceive? || e.BackFromApp? || e.StartNextReceive?)
    ensures Threads(Step(s, e)) == Threads(s) + Bit(BringsThread(e))
  {
    hide Inv, Decided, Continued;
    ReceivingIsChain(s);
    match e {
      case FinishReceive(d) => DecidedThreads(s.(receiving := false, world := s.world.(chain := Idle)), d);
      case BackFromApp(d) => DecidedThreads(s.(world := s.world.(inApp := s.world.inApp - 1)), d);
      case StartNextReceive(d) => DecidedThreads(s, d);
    }
  }

  lemma ReceivingIsChain(s: Slot)
    requires Inv(s)
    ensures s.receiving <==> !s.world.chain.Idle?
  {
  }

  lemma OtherKeepsThreads(s: Slot, e: Event)
    requires Inv(s) && Enabled(s, e) && !(e.FinishReceive? || e.BackFromApp? || e.StartNextReceive?)
    ensures Threads(Step(s, e)) + Bit(TestsForAccept(e)) == Threads(s)
  {
    hide Obligations, Decided, Finished, Continued;
    if e.AcceptDone? {
      hide Consistent;
    } else {
      hide Inv;
    }
  }

  lemma StepKeepsThreads(s: Slot, e: Event)
    requires Inv(s) && Enabled(s, e)
    ensures Threads(Step(s, e)) + Bit(TestsForAccept(e)) == Threads(s) + Bit(BringsThread(e))
  {
    hide Inv, Step, Enabled, Threads;
    if e.FinishReceive? || e.BackFromApp? || e.StartNextReceive? {
      FinishKeepsThreads(s, e);
    } else {
      OtherKeepsThreads(s, e);
    }
  }

  /** Every thread that comes from FinishReceive tests for a postponed accept, and does so once. */
  lemma {:induction false} ThreadsAreConserved(s: Slot, es: seq<Event>)
    requires Inv(s) && Legal(s, es)
    ensures CountOf(es, TestsForAccept) + Threads(Run(s, es)) == CountOf(es, BringsThread) + Threads(s)
    decreases |es|
  {
    hide Inv, Step, Enabled, Threads, TestsForAccept, BringsThread;
    if es != [] {
      StepKeepsThreads(s, es[0]);
      StepKeeps(s, es[0]);
      ThreadsAreConserved(Step(s, es[0]), es[1..]);
    }
  }

  // ---------------------------------------------------------------------------------------
  // Between StartDisconnect and the next StartAccept
  // ---------------------------------------------------------------------------------------

  lemma StepWhileAborting(s: Slot, e: Event)
    requires Inv(s) && Enabled(s, e) && s.state.aborting && e != StartAccept
    ensures Step(s, e).state.aborting && (Step(s, e).world.chain.Outstanding? ==> s.world.chain.Outstanding?)
    ensures Step(s, e).state.receive ==> s.state.receive
  {
  }

  /** No receive is started: one that was under way may only end. */
  lemma {:induction false} NoReceiveWhileAborting(s: Slot, es: seq<Event>)
    requires Inv(s) && Legal(s, es) && s.state.aborting && Count(es, StartAccept) == 0
    ensures Run(s, es).state.aborting && (Run(s, es).state.receive ==> s.state.receive)
    ensures Count(es, AcceptDone) == 0
    decreases |es|
  {
    hide Inv, Step, Enabled;
    if es != [] {
      StepWhileAborting(s, es[0]);
      StepKeeps(s, es[0]);
      assert es[0] != AcceptDone by { NoAcceptWhileAborting(s); }
      NoReceiveWhileAborting(Step(s, es[0]), es[1..]);
    }
  }

  lemma NoAcceptWhileAborting(s: Slot)
    requires Inv(s) && s.state.aborting
    ensures !s.world.acceptOut && !Enabled(s, AcceptDone)
  {
  }

  // ---------------------------------------------------------------------------------------
  // A receive that is due is started
  // ---------------------------------------------------------------------------------------

  /** The operating system receives for this slot, and the flag word says so. */
  predicate Receiving(s: Slot) {
    s.world.chain.Outstanding? && s.state.receive && s.receiving
  }

  /** The decisions of ProcessReceive that ask for a receive. */
  predicate Due(d: Decision) {
    d == Start || d == Request(true)
  }

  /** What has been decided at the end of a response or by a read is carried out: exactly then a receive starts. */
  lemma NextReceiveStarts(s: Slot, d: Decision)
    requires Inv(s) && Acting(s) && !s.receiving && !s.state.aborting
    ensures Legal(s, [StartNextReceive(d)])
    ensures Legal(s, [StartNextReceive(d), StartReceive]) <==> Due(d)
    ensures Due(d) ==> Receiving(Run(s, [StartNextReceive(d), StartReceive]))
    ensures !Due(d) ==> Run(s, [StartNextReceive(d)]).world.chain.Idle?
  {
    hide Run, Legal;
    TwoSteps(s, StartNextReceive(d), StartReceive);
  }

  /** The steps from a decision in a thread that came from FinishReceive to the operating system. */
  function Follow(d: Decision): seq<Event> {
    if d == Start then [TestAndStart, StartReceive] else [StartReceive]
  }

  /** The same behind a receive that has succeeded, unless an accept is waiting for it. */
  lemma FinishedReceiveGoesOn(s: Slot, d: Decision)
    requires Inv(s) && s.world.chain == Finishing(true) && !s.after && !s.state.aborting
    ensures Legal(s, [FinishReceive(d)] + Follow(d)) <==> Due(d)
    ensures Due(d) ==> Receiving(Run(s, [FinishReceive(d)] + Follow(d)))
    ensures !Due(d) ==> Legal(s, [FinishReceive(d)]) && Run(s, [FinishReceive(d)]).world.chain.Idle?
  {
    hide Run, Legal;
    TwoSteps(s, FinishReceive(d), StartReceive);
    ThreeSteps(s, FinishReceive(d), TestAndStart, StartReceive);
    assert [FinishReceive(d)] + [StartReceive] == [FinishReceive(d), StartReceive];
    assert [FinishReceive(d)] + [TestAndStart, StartReceive] == [FinishReceive(d), TestAndStart, StartReceive];
  }

  /** And behind the return of the application to that thread. */
  lemma ReturnedThreadGoesOn(s: Slot, d: Decision)
    requires Inv(s) && s.world.inApp > 0 && !s.receiving && !s.after && !s.state.aborting
    ensures Legal(s, [BackFromApp(d)] + Follow(d)) <==> Due(d)
    ensures Due(d) ==> Receiving(Run(s, [BackFromApp(d)] + Follow(d)))
    ensures !Due(d) ==> Legal(s, [BackFromApp(d)]) && Run(s, [BackFromApp(d)]).world.chain.Idle?
  {
    hide Run, Legal;
    TwoSteps(s, BackFromApp(d), StartReceive);
    ThreeSteps(s, BackFromApp(d), TestAndStart, StartReceive);
    assert [BackFromApp(d)] + [StartReceive] == [BackFromApp(d), StartReceive];
    assert [BackFromApp(d)] + [TestAndStart, StartReceive] == [BackFromApp(d), TestAndStart, StartReceive];
  }

  /** In every run: whenever a connection in use has no receive going on and is not closing, one can be started. */
  lemma DueReceiveStarts(es: seq<Event>, d: Decision)
    requires Legal(NEW, es)
    requires var s := Run(NEW, es); Acting(s) && !s.receiving && !s.state.aborting
    ensures Legal(NEW, es + [StartNextReceive(d), StartReceive]) <==> Due(d)
    ensures Due(d) ==> Receiving(Run(NEW, es + [StartNextReceive(d), StartReceive]))
  {
    hide Run, Legal, Acting, Receiving;
    var s := Run(NEW, es);
    RunKeeps(NEW, es);
    NextReceiveStarts(s, d);
    LegalSplit(NEW, es, [StartNextReceive(d), StartReceive]);
  }

  /** A client that has just been accepted is left alone until its first bytes have been looked at. */
  lemma NewClientIsLeftAlone(s: Slot, e: Event)
    requires Inv(s) && s.world.acceptOut
    ensures Legal(s, [AcceptDone])
    ensures e.StartNextReceive? || e.CloseConnection? ==> !Legal(s, [AcceptDone, e])
    ensures Legal(s, [AcceptDone, FinishReceive(Start), TestAndStart, StartReceive])
    ensures Receiving(Run(s, [AcceptDone, FinishReceive(Start), TestAndStart, StartReceive]))
  {
    hide Run, Legal;
    TwoSteps(s, AcceptDone, e);
    ThreeSteps(Step(s, AcceptDone), FinishReceive(Start), TestAndStart, StartReceive);
    RunOne(s, AcceptDone, [FinishReceive(Start), TestAndStart, StartReceive]);
    assert [AcceptDone] + [FinishReceive(Start), TestAndStart, StartReceive]
        == [AcceptDone, FinishReceive(Start), TestAndStart, StartReceive];
  }

  /** Behind a receive that has failed nothing is received and no request handed over, whatever is in the buffer. */
  lemma FailedReceiveEnds(s: Slot, d: Decision)
    requires Inv(s) && s.world.chain.Outstanding?
    ensures Legal(s, [ReceiveDone(false), FinishReceive(d)])
    ensures var q := Run(s, [ReceiveDone(false), FinishReceive(d)]);
            && q.world.chain.Idle? && !q.receiving && !q.state.receive && q.world.inApp == s.world.inApp
            && (!s.after ==> q.world.used)
  {
    hide Run, Legal;
    TwoSteps(s, ReceiveDone(false), FinishReceive(d));
  }

  /** The same behind a receive that is refused because the connection is being closed. */
  lemma RefusedReceiveEnds(s: Slot, d: Decision)
    requires Inv(s) && s.world.chain.Starting? && s.state.aborting
    ensures Legal(s, [StartReceive, FinishReceive(d)])
    ensures var q := Run(s, [StartReceive, FinishReceive(d)]);
            && q.world.chain.Idle? && !q.receiving && !q.state.receive && q.world.inApp == s.world.inApp
  {
    hide Run, Legal;
    TwoSteps(s, StartReceive, FinishReceive(d));
  }

  lemma TwoSteps(s: Slot, a: Event, b: Event)
    ensures Legal(s, [a]) <==> Enabled(s, a)
    ensures Legal(s, [a]) ==> Run(s, [a]) == Step(s, a)
    ensures Legal(s, [a, b]) <==> Enabled(s, a) && Enabled(Step(s, a), b)
    ensures Legal(s, [a, b]) ==> Run(s, [a, b]) == Step(Step(s, a), b)
  {
    hide Step, Enabled;
    assert [a, b][1..] == [b] && [a][1..] == [b][1..] == [];
    if Enabled(s, a) {
      OneStep(Step(s, a), b);
    }
  }

  lemma OneStep(s: Slot, a: Event)
    ensures Legal(s, [a]) <==> Enabled(s, a)
    ensures Legal(s, [a]) ==> Run(s, [a]) == Step(s, a)
  {
    hide Step, Enabled;
    assert [a][1..] == [];
  }

  lemma ThreeSteps(s: Slot, a: Event, b: Event, c: Event)
    ensures Legal(s, [a, b, c]) <==> Enabled(s, a) && Legal(Step(s, a), [b, c])
    ensures Legal(s, [a, b, c]) ==> Enabled(Step(s, a), b) && Enabled(Step(Step(s, a), b), c)
                                    && Run(s, [a, b, c]) == Step(Step(Step(s, a), b), c)
    ensures Enabled(s, a) && Enabled(Step(s, a), b) && Enabled(Step(Step(s, a), b), c) ==> Legal(s, [a, b, c])
  {
    hide Step, Enabled;
    assert [a, b, c][1..] == [b, c];
    if Enabled(s, a) {
      TwoSteps(Step(s, a), b, c);
    }
  }

  lemma {:induction false} LegalSplit(s: Slot, a: seq<Event>, b: seq<Event>)
    requires Legal(s, a)
    ensures Legal(s, a + b) <==> Legal(Run(s, a), b)
    ensures Legal(s, a + b) ==> Run(s, a + b) == Run(Run(s, a), b)
    decreases |a|
  {
    hide Step, Enabled;
    if a == [] {
      assert a + b == b;
    } else {
      assert (a + b)[0] == a[0] && (a + b)[1..] == a[1..] + b;
      LegalSplit(Step(s, a[0]), a[1..], b);
    }
  }

  // ---------------------------------------------------------------------------------------
  // When the duty can get stuck
  // ---------------------------------------------------------------------------------------

  /**
   * RealPrepareAccept saw _receiving set by a FinishReceive that has only decided to start a
   * receive; that thread will take the postponed accept for a reason not to start it.
   */
  predicate Doomed(s: Slot) {
    || s.world.chain.Lost?
    || (s.world.chain.Holding? && s.after && s.world.testers == 0 && s.world.inApp == 0 && s.world.stale == 0)
  }

  /** The only two steps that lead there. */
  predicate Misstep(s: Slot, e: Event) {
    || (e.PrepareAccept? && s.world.chain.Holding? && s.world.testers == 0 && s.world.inApp == 0 && s.world.stale == 0)
    || (e.TestAndStart? && s.after)
  }

  lemma DoomedExactlyAfterMisstep(s: Slot, e: Event)
    requires Inv(s) && Enabled(s, e)
    ensures Doomed(Step(s, e)) <==> Doomed(s) || Misstep(s, e)
  {
  }

  lemma DoomedNeverAccepts(s: Slot)
    requires Inv(s) && Doomed(s)
    ensures !s.world.acceptOut && s.world.arming == 0 && !s.world.open
  {
  }

  lemma {:induction false} DoomedForever(s: Slot, es: seq<Event>)
    requires Inv(s) && Doomed(s) && Legal(s, es)
    ensures Doomed(Run(s, es)) && !Run(s, es).world.acceptOut
    decreases |es|
  {
    hide Inv, Step, Enabled, Doomed, Misstep;
    DoomedNeverAccepts(s);
    if es != [] {
      DoomedExactlyAfterMisstep(s, es[0]);
      StepKeeps(s, es[0]);
      DoomedForever(Step(s, es[0]), es[1..]);
    }
  }

  /** What to let happen next to get to the next accept. */
  function Plan(s: Slot): Event {
    if s.world.arming > 0 then StartAccept
    else if s.world.calls > 0 && s.world.chain.Idle? then PrepareAccept
    else if s.after && s.world.testers > 0 then Test
    else if s.after && s.world.chain.Holding? then if s.world.inApp > 0 then BackFromApp(NoStart) else BackTooLate
    else if s.world.open && s.world.used then
      if s.world.disconnectOut then DisconnectDone
      else if s.world.closers > 0 then StartDisconnect
      else CloseConnection
    else match s.world.chain
         case Starting => StartReceive
         case Outstanding => ReceiveDone(false)
         case Finishing(_) => FinishReceive(NoStart)
         case _ => TestAndStart
  }

  function ChainRank(c: Chain): nat {
    match c
    case Idle => 0
    case Finishing(_) => 1
    case Outstanding => 2
    case Starting => 3
    case Holding => 4
    case Lost => 5
  }

  function Rank(s: Slot): nat {
    var w := s.world;
    if w.acceptOut then 0
    else if w.arming > 0 then 1
    else if w.calls > 0 then 2 + ChainRank(w.chain)
    else if s.after then (if w.testers > 0 then 10 else 11 + ChainRank(w.chain))
    else if s.state.delayedAccept then 20
    else if w.disconnectOut then 21
    else if w.closers > 0 then 22
    else if w.used then 23
    else 24 + ChainRank(w.chain)
  }

  lemma PlanProgress(s: Slot)
    requires Inv(s) && !Doomed(s) && !s.world.acceptOut
    ensures Enabled(s, Plan(s)) && !Misstep(s, Plan(s))
    ensures Rank(Step(s, Plan(s))) < Rank(s)
  {
  }

  function Schedule(s: Slot): (es: seq<Event>)
    requires Inv(s) && !Doomed(s)
    ensures Legal(s, es) && Run(s, es).world.acceptOut
    decreases Rank(s)
  {
    hide Inv, Step, Enabled, Doomed, Misstep, Plan, Rank;
    if s.world.acceptOut then []
    else
      PlanProgress(s);
      DoomedExactlyAfterMisstep(s, Plan(s));
      StepKeeps(s, Plan(s));
      [Plan(s)] + Schedule(Step(s, Plan(s)))
  }

  /** Some continuation accepts the next client exactly when the slot is not doomed. */
  lemma RearmedIffNotDoomed(s: Slot)
    requires Inv(s)
    ensures (exists es :: Legal(s, es) && Run(s, es).world.acceptOut) <==> !Doomed(s)
  {
    hide Inv, Step, Enabled, Doomed;
    if Doomed(s) {
      forall es | Legal(s, es)
        ensures !Run(s, es).world.acceptOut
      {
        DoomedForever(s, es);
      }
    } else {
      assert Legal(s, Schedule(s)) && Run(s, Schedule(s)).world.acceptOut;
    }
  }

  /**
   * The slot can be lost in a run that the threads can make: a request arrives with its body in one
   * receive; the application reads the body, so that ProcessReceive decides to receive on, and answers
   * with Connection: close. The end of the answer closes the connection while FinishReceive stands
   * between its lock block and its test.
   */
  lemma AcceptCanBeLost()
    ensures exists es :: Legal(NEW, es) && Run(NEW, es).world.chain == Lost && Doomed(Run(NEW, es))
  {
    hide Step, Enabled, Legal, Run;
    var connect := [PrepareAccept, StartAccept, AcceptDone];
    var serve := [FinishReceive(Request(false)), BackFromApp(Start)];
    var close := [CloseConnection, StartDisconnect, DisconnectDone];
    var lose := [PrepareAccept, TestAndStart];
    ClientConnects();
    ClientIsServed();
    HolderIsLeft();
    HolderIsLost();
    LegalSplit(NEW, connect, serve);
    LegalSplit(NEW, connect + serve, close);
    LegalSplit(NEW, connect + serve + close, lose);
  }

  const CONNECTED := NEW.(socket := true, receiving := true,
                          world := NEW.world.(open := true, chain := Finishing(true), calls := 0))
  const HELD := CONNECTED.(world := CONNECTED.world.(chain := Holding, used := true))
  const LEFT := HELD.(state := HELD.state.(aborting := true), socket := false, disconnecting := true,
                      world := HELD.world.(open := false, calls := 1))

  lemma ClientConnects()
    ensures Legal(NEW, [PrepareAccept, StartAccept, AcceptDone])
    ensures Run(NEW, [PrepareAccept, StartAccept, AcceptDone]) == CONNECTED
  {
    var armed := Prepared(NEW);
    var accepting := AcceptStarted(armed);
    RunOne(accepting, AcceptDone, []);
    RunOne(armed, StartAccept, [AcceptDone]);
    RunOne(NEW, PrepareAccept, [StartAccept, AcceptDone]);
  }

  lemma ClientIsServed()
    ensures Legal(CONNECTED, [FinishReceive(Request(false)), BackFromApp(Start)])
    ensures Run(CONNECTED, [FinishReceive(Request(false)), BackFromApp(Start)]) == HELD
  {
    RunOne(Finished(CONNECTED, Request(false)), BackFromApp(Start), []);
    RunOne(CONNECTED, FinishReceive(Request(false)), [BackFromApp(Start)]);
  }

  lemma HolderIsLeft()
    ensures Legal(HELD, [CloseConnection, StartDisconnect, DisconnectDone])
    ensures Run(HELD, [CloseConnection, StartDisconnect, DisconnectDone]) == LEFT
  {
    var closing := HELD.(disconnecting := true, world := HELD.world.(closers := 1));
    RunOne(DisconnectStarted(closing), DisconnectDone, []);
    RunOne(closing, StartDisconnect, [DisconnectDone]);
    RunOne(HELD, CloseConnection, [StartDisconnect, DisconnectDone]);
  }

  lemma HolderIsLost()
    ensures Legal(LEFT, [PrepareAccept, TestAndStart])
    ensures Run(LEFT, [PrepareAccept, TestAndStart]).world.chain == Lost
    ensures Doomed(Run(LEFT, [PrepareAccept, TestAndStart]))
  {
    RunOne(Prepared(LEFT), TestAndStart, []);
    RunOne(LEFT, PrepareAccept, [TestAndStart]);
  }

  lemma RunOne(s: Slot, e: Event, es: seq<Event>)
    requires Enabled(s, e) && Legal(Step(s, e), es)
    ensures Legal(s, [e] + es) && Run(s, [e] + es) == Run(Step(s, e), es)
  {
    hide Step, Enabled;
    assert ([e] + es)[1..] == es;
  }

  // ---------------------------------------------------------------------------------------
  // The same steps in place
  // ---------------------------------------------------------------------------------------

  /** The callback and the handler of one slot; the ghost fields are the threads and the system around them. */
  class Connection {
    var state: Flags                  // _state of SaeaLayerCallback
    var socket: bool                  // _socket is set
    var receiving: bool               // _receiving of Transport2HttpHandler
    var after: bool                   // _afterReceiveContinueWithAccept
    var disconnecting: bool           // _disconnecting
    ghost var world: World

    ghost function Value(): Slot
      reads this
    {
      Slot(state, socket, receiving, after, disconnecting, world)
    }

    constructor ()
      ensures Value() == NEW
    {
      state, socket := Flags(false, false, false, false), false;
      receiving, after, disconnecting := false, false, false;
      world := NEW.world;
    }

    /** Each event has a method with this contract; StepKeeps says that the invariant holds again. */
    twostate predicate Did(e: Event)
      reads this
    {
      Enabled(old(Value()), e) && Value() == Step(old(Value()), e)
    }

    /** RealPrepareAccept, up to the end of its lock. */
    method RealPrepareAccept()
      requires world.calls > 0
      modifies this
      ensures Did(PrepareAccept)
    {
      world := world.(calls := world.calls - 1);
      if receiving {
        after := true;
        return;
      }
      disconnecting := false;
      // _acceptCounter++: every thread in the application now belongs to an old connection
      world := world.(stale := world.stale + world.inApp, inApp := 0, arming := world.arming + 1);
    }

    method StartAccept()
      requires Inv(Value()) && world.arming > 0
      modifies this
      ensures Did(Event.StartAccept)
    {
      if state.receive {
        assert false; // "Already receiving or accepting" is never thrown
      }
      state := state.(receive := true, aborting := false);
      world := world.(arming := world.arming - 1, acceptOut := true);
    }

    /** ProcessAccept and the start of FinishAccept, or the return of a corrupted socket. */
    method ProcessAccept(success: bool)
      requires world.acceptOut
      modifies this
      ensures Did(if success then AcceptDone else AcceptRejected)
    {
      state := state.(receive := false);
      if success {
        socket := true;
        receiving := true;
        world := world.(acceptOut := false, open := true, used := false, chain := Finishing(true));
      } else {
        world := world.(acceptOut := false, calls := world.calls + 1);
      }
    }

    /** The lock block of FinishReceive; `d` is what ProcessReceive finds in the buffer. */
    method FinishReceive(ok: bool, d: Decision)
      requires world.chain == Finishing(ok)
      modifies this
      ensures Did(Event.FinishReceive(d))
    {
      receiving := false;
      world := world.(chain := Idle);
      if ok && !after {
        Decide(d);
      } else {
        world := world.(testers := world.testers + 1, used := world.used || !after);
      }
    }

    /** The end of ProcessReceive. */
    method Decide(d: Decision)
      modifies this`receiving, this`world
      ensures Value() == Decided(old(Value()), d)
    {
      match d {
        case Start =>
          if !receiving {
            receiving := true;
            world := world.(chain := Holding);
          } else {
            world := world.(testers := world.testers + 1);
          }
        case NoStart =>
          world := world.(testers := world.testers + 1, used := true);
        case Request(started) =>
          world := world.(inApp := world.inApp + 1, used := true);
          if started && !receiving {
            receiving := true;
            world := world.(chain := Starting);
          }
      }
    }

    /** HandleRequest returned to ProcessReceive, which takes the lock again. */
    method BackFromHandleRequest(d: Decision)
      requires world.inApp > 0
      modifies this
      ensures Did(BackFromApp(d))
    {
      world := world.(inApp := world.inApp - 1);
      Decide(d);
    }

    /** The same after _acceptCounter has moved on: the thread stops. */
    method BackFromOldConnection()
      requires world.stale > 0
      modifies this
      ensures Did(BackTooLate)
    {
      world := world.(stale := world.stale - 1, testers := world.testers + 1);
    }

    /** The last lines of FinishReceive, outside the lock: test and clear, then start what is due. */
    method ContinueWith(startNextRecv: bool)
      requires if startNextRecv then world.chain.Holding? else world.testers > 0
      modifies this
      ensures Did(if startNextRecv then TestAndStart else Test)
    {
      if startNextRecv {
        world := world.(chain := if after then Lost else Starting);
      } else {
        world := world.(testers := world.testers - 1);
      }
      if after {
        after := false;
        world := world.(calls := world.calls + 1);
      }
    }

    /** StartNextReceive; NoStart also when the client has closed its side. */
    method StartNextReceive(d: Decision)
      requires Acting(Value())
      modifies this
      ensures Did(Event.StartNextReceive(d))
    {
      if !receiving && (d.Start? || d == Request(true)) {
        receiving := true;
        world := world.(chain := Starting);
      }
    }

    method StartReceive()
      requires Inv(Value()) && world.chain.Starting?
      modifies this
      ensures Did(Event.StartReceive)
    {
      if state.receive {
        assert false; // "Already receiving or accepting" is never thrown
      }
      if state.aborting {
        world := world.(chain := Finishing(false));
        return;
      }
      state := state.(receive := true);
      world := world.(chain := Outstanding);
      assert socket;
    }

    method ProcessReceive(ok: bool)
      requires world.chain.Outstanding?
      modifies this
      ensures Did(ReceiveDone(ok))
    {
      var postponedAccept := state.delayedAccept;
      state := state.(receive := false, delayedAccept := false);
      world := world.(chain := Finishing(ok));
      if postponedAccept {
        world := world.(calls := world.calls + 1);
      }
    }

    method CloseConnection()
      requires Acting(Value())
      modifies this
      ensures Did(Event.CloseConnection)
    {
      if !disconnecting {
        disconnecting := true;
        world := world.(closers := world.closers + 1);
      }
    }

    method StartDisconnect()
      requires Inv(Value()) && world.closers > 0
      modifies this
      ensures Did(Event.StartDisconnect)
    {
      if state.disconnect || !socket {
        assert false; // neither "Already disconnecting" nor a socket that is gone
      }
      state := state.(disconnect := true, aborting := true);
      world := world.(closers := world.closers - 1, disconnectOut := true);
    }

    method ProcessDisconnect()
      requires world.disconnectOut
      modifies this
      ensures Did(DisconnectDone)
    {
      var delayed := state.receive;
      state := state.(disconnect := false, delayedAccept := delayed);
      socket := false;
      world := world.(disconnectOut := false, open := false);
      if !delayed {
        world := world.(calls := world.calls + 1);
      }
    }
  }
}
