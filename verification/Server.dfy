/**
 * The server around its slots: the connection counter, growth under the lock, and the block of
 * connections that share one buffer (Nowin/Server.cs:30-50, 81-83, Nowin/ConnectionBlock.cs:7-22,
 * Nowin/Transport2HttpFactory.cs:8, 28-40).
 */
module Server {
  import opened Slot

  /** IConnectionAllocationStrategy.CalculateNewConnectionCount: allocated, connected -> how many more. */
  type Strategy = (nat, int) -> int

  /** `building` connections of a block were counted but not created yet. */
  datatype State = State(slots: seq<Slot>, connected: int, allotted: nat, tasks: nat, building: nat)

  datatype ServerEvent = At(i: nat, e: Event) | Grow | Create

  predicate CanHappen(st: State, ev: ServerEvent) {
    match ev
    case At(i, e) => i < |st.slots| && Enabled(st.slots[i], e)
    case Grow => st.tasks > 0
    case Create => st.building > 0
  }

  function Reported(strategy: Strategy, st: State): State {
    var cc := st.connected + 1;
    st.(connected := cc, tasks := st.tasks + if strategy(st.allotted, cc) > 0 then 1 else 0)
  }

  function Grown(strategy: Strategy, st: State): State
    requires st.tasks > 0
  {
    var delta := strategy(st.allotted, st.connected);
    var st := st.(tasks := st.tasks - 1);
    if delta <= 0 then st else st.(allotted := st.allotted + delta, building := st.building + delta)
  }

  function Next(strategy: Strategy, st: State, ev: ServerEvent): State
    requires CanHappen(st, ev)
  {
    match ev
    case At(i, e) =>
      var st := st.(slots := st.slots[i := Step(st.slots[i], e)]);
      if e.AcceptDone? then Reported(strategy, st)
      else if e.DisconnectDone? then st.(connected := st.connected - 1)
      else st
    case Grow => Grown(strategy, st)
    case Create => st.(slots := st.slots + [NEW], building := st.building - 1)
  }

  predicate Possible(strategy: Strategy, st: State, evs: seq<ServerEvent>)
    decreases |evs|
  {
    evs != [] ==> CanHappen(st, evs[0]) && Possible(strategy, Next(strategy, st, evs[0]), evs[1..])
  }

  function Play(strategy: Strategy, st: State, evs: seq<ServerEvent>): State
    requires Possible(strategy, st, evs)
    decreases |evs|
  {
    if evs == [] then st else Play(strategy, Next(strategy, st, evs[0]), evs[1..])
  }

  /** Start has counted the first block. */
  function Started(strategy: Strategy): State
    requires strategy(0, 0) >= 0
  {
    State([], 0, strategy(0, 0), 0, strategy(0, 0))
  }

  // ---------------------------------------------------------------------------------------
  // The counter
  // ---------------------------------------------------------------------------------------

  /** Slots between the report of a client and the report of its disconnect. */
  function OpenSlots(slots: seq<Slot>): (n: nat)
    ensures n <= |slots|
  {
    if slots == [] then 0 else Bit(slots[0].world.open) + OpenSlots(slots[1..])
  }

  lemma {:induction false} OpenSlotsUpdate(slots: seq<Slot>, i: nat, s: Slot)
    requires i < |slots|
    ensures OpenSlots(slots[i := s]) == OpenSlots(slots) - Bit(slots[i].world.open) + Bit(s.world.open)
  {
    if i > 0 {
      OpenSlotsUpdate(slots[1..], i - 1, s);
      assert slots[i := s][1..] == slots[1..][i - 1 := s];
    } else {
      assert slots[0 := s][1..] == slots[1..];
    }
  }

  lemma {:induction false} OpenSlotsAppend(slots: seq<Slot>, s: Slot)
    ensures OpenSlots(slots + [s]) == OpenSlots(slots) + Bit(s.world.open)
  {
    if slots == [] {
      assert [s][1..] == [] && slots + [s] == [s];
    } else {
      assert (slots + [s])[0] == slots[0] && (slots + [s])[1..] == slots[1..] + [s];
      OpenSlotsAppend(slots[1..], s);
    }
  }

  predicate Counted(st: State) {
    && (forall i :: 0 <= i < |st.slots| ==> Inv(st.slots[i]))
    && st.connected == OpenSlots(st.slots)
    && |st.slots| + st.building == st.allotted
  }

  lemma NextKeeps(strategy: Strategy, st: State, ev: ServerEvent)
    requires Counted(st) && CanHappen(st, ev)
    ensures Counted(Next(strategy, st, ev))
  {
    hide Inv, Step, Enabled, OpenSlots;
    match ev
    case At(i, e) =>
      StepKeeps(st.slots[i], e);
      StepReports(st.slots[i], e);
      OpenSlotsUpdate(st.slots, i, Step(st.slots[i], e));
    case Grow =>
    case Create =>
      OpenSlotsAppend(st.slots, NEW);
      assert Inv(NEW) by { NewSlot(); }
  }

  lemma NewSlot()
    ensures Inv(NEW)
  {
  }

  /** For any number of slots and any interleaving of accepts, disconnects and growth. */
  lemma {:induction false} ConnectedIsCounted(strategy: Strategy, st: State, evs: seq<ServerEvent>)
    requires Counted(st) && Possible(strategy, st, evs)
    ensures var st' := Play(strategy, st, evs);
            && Counted(st')
            && st'.connected == OpenSlots(st'.slots) <= |st'.slots| <= st'.allotted
            && st'.allotted >= st.allotted
    decreases |evs|
  {
    hide Next, CanHappen, Counted;
    if evs == [] {
      assert st.connected == OpenSlots(st.slots) && |st.slots| <= st.allotted by { CountedMeans(st); }
    } else {
      NextKeeps(strategy, st, evs[0]);
      assert Next(strategy, st, evs[0]).allotted >= st.allotted by { NeverShrinks(strategy, st, evs[0]); }
      ConnectedIsCounted(strategy, Next(strategy, st, evs[0]), evs[1..]);
    }
  }

  lemma CountedMeans(st: State)
    requires Counted(st)
    ensures st.connected == OpenSlots(st.slots) && |st.slots| <= st.allotted
  {
  }

  lemma NeverShrinks(strategy: Strategy, st: State, ev: ServerEvent)
    requires CanHappen(st, ev)
    ensures Next(strategy, st, ev).allotted >= st.allotted
  {
  }

  lemma StartIsCounted(strategy: Strategy)
    requires strategy(0, 0) >= 0
    ensures Counted(Started(strategy)) && Started(strategy).allotted == strategy(0, 0)
  {
  }

  // ---------------------------------------------------------------------------------------
  // Growth
  // ---------------------------------------------------------------------------------------

  /** A client is reported, and for the clients connected by then the strategy asks for more connections. */
  predicate AsksForMore(strategy: Strategy, st: State, ev: ServerEvent) {
    ev.At? && ev.e == AcceptDone && strategy(st.allotted, OpenSlots(st.slots) + 1) > 0
  }

  function Asked(strategy: Strategy, st: State, evs: seq<ServerEvent>): nat
    requires Possible(strategy, st, evs)
    decreases |evs|
  {
    if evs == [] then 0
    else Bit(AsksForMore(strategy, st, evs[0])) + Asked(strategy, Next(strategy, st, evs[0]), evs[1..])
  }

  function Happened(evs: seq<ServerEvent>, ev: ServerEvent): nat {
    if evs == [] then 0 else Bit(evs[0] == ev) + Happened(evs[1..], ev)
  }

  lemma NextSchedules(strategy: Strategy, st: State, ev: ServerEvent)
    requires Counted(st) && CanHappen(st, ev)
    ensures var st' := Next(strategy, st, ev);
            && st'.tasks + Bit(ev == Grow) == st.tasks + Bit(AsksForMore(strategy, st, ev))
            && st'.allotted - st.allotted == st'.building - st.building + Bit(ev == Create)
            && (ev == Grow ==> var more := strategy(st.allotted, OpenSlots(st.slots));
                               st'.allotted == st.allotted + if more > 0 then more else 0)
  {
    hide Step, Enabled, OpenSlots, Inv;
  }

  /** In every run each demand of the strategy schedules one growth task, and nothing else does. */
  lemma {:induction false} GrowthIsScheduled(strategy: Strategy, st: State, evs: seq<ServerEvent>)
    requires Counted(st) && Possible(strategy, st, evs)
    ensures var st' := Play(strategy, st, evs);
            && st'.tasks + Happened(evs, Grow) == st.tasks + Asked(strategy, st, evs)
            && st'.allotted + st.building == st.allotted + st'.building + Happened(evs, Create)
    decreases |evs|
  {
    hide Next, CanHappen, Counted, AsksForMore;
    if evs != [] {
      NextKeeps(strategy, st, evs[0]);
      NextSchedules(strategy, st, evs[0]);
      GrowthIsScheduled(strategy, Next(strategy, st, evs[0]), evs[1..]);
    }
  }

  /** A scheduled task can always run, and adds what the strategy asks for at that moment. */
  lemma GrowthHappens(strategy: Strategy, st: State)
    requires Counted(st) && st.tasks > 0
    ensures Possible(strategy, st, [Grow])
    ensures var more, st' := strategy(st.allotted, OpenSlots(st.slots)), Play(strategy, st, [Grow]);
            st'.tasks == st.tasks - 1 && st'.allotted == st.allotted + (if more > 0 then more else 0)
  {
    hide Next, OpenSlots, Counted;
    NextSchedules(strategy, st, Grow);
    assert [Grow][1..] == [];
    assert Play(strategy, Next(strategy, st, Grow), []) == Next(strategy, st, Grow);
  }

  // ---------------------------------------------------------------------------------------
  // In place
  // ---------------------------------------------------------------------------------------

  class Server {
    const strategy: Strategy
    var connectedCount: int
    var allocatedConnections: nat
    ghost var slots: seq<Slot>
    ghost var tasks: nat
    ghost var building: nat

    ghost function Value(): State
      reads this
    {
      State(slots, connectedCount, allocatedConnections, tasks, building)
    }

    constructor Start(strategy: Strategy)
      requires strategy(0, 0) >= 0
      ensures this.strategy == strategy && Value() == Started(strategy)
    {
      this.strategy := strategy;
      slots, connectedCount, tasks := [], 0, 0;
      allocatedConnections, building := strategy(0, 0), strategy(0, 0);
    }

    /** ProcessAccept of slot i reports its client. */
    method ReportNewConnectedClient(ghost i: nat)
      requires i < |slots| && Enabled(slots[i], AcceptDone)
      modifies this
      ensures Value() == Next(strategy, old(Value()), At(i, AcceptDone))
    {
      slots := slots[i := Step(slots[i], AcceptDone)];
      connectedCount := connectedCount + 1;
      var add := strategy(allocatedConnections, connectedCount);
      if add <= 0 {
        return;
      }
      tasks := tasks + 1;
    }

    /** ProcessDisconnect of slot i. */
    method ReportDisconnectedClient(ghost i: nat)
      requires i < |slots| && Enabled(slots[i], DisconnectDone)
      modifies this
      ensures Value() == Next(strategy, old(Value()), At(i, DisconnectDone))
    {
      slots := slots[i := Step(slots[i], DisconnectDone)];
      connectedCount := connectedCount - 1;
    }

    /** The task started by ReportNewConnectedClient, under _newConnectionLock. */
    method AllocateMore()
      requires tasks > 0
      modifies this
      ensures Value() == Next(strategy, old(Value()), Grow)
    {
      tasks := tasks - 1;
      var delta := strategy(allocatedConnections, connectedCount);
      if delta <= 0 {
        return;
      }
      allocatedConnections := allocatedConnections + delta;
      building := building + delta;
    }

    /** One turn of the loop in the constructor of ConnectionBlock. */
    method CreateConnection()
      requires building > 0
      modifies this
      ensures Value() == Next(strategy, old(Value()), Create)
    {
      slots := slots + [NEW];
      building := building - 1;
    }
  }

  // ---------------------------------------------------------------------------------------
  // One buffer for a block of connections
  // ---------------------------------------------------------------------------------------

  const INT_MAX: nat := 0x7FFF_FFFF
  const ADDITIONAL_SPACE: nat := 16

  function PerConnection(receiveBufferSize: nat): nat {
    receiveBufferSize * 3 + ADDITIONAL_SPACE
  }

  /**
   * The offsets of the connections of one block and of the constants behind them; None when the
   * checked arithmetic overflows.
   */
  method SliceBlock(count: nat, receiveBufferSize: nat, common: nat)
    returns (ok: bool, offsets: seq<nat>, constantsOffset: nat)
    ensures ok <==> count * PerConnection(receiveBufferSize) + common <= INT_MAX
    ensures ok ==> |offsets| == count
    ensures ok ==> forall i, j :: 0 <= i < j < count ==> offsets[i] + PerConnection(receiveBufferSize) <= offsets[j]
    ensures ok ==> forall i :: 0 <= i < count ==> offsets[i] + PerConnection(receiveBufferSize) <= constantsOffset
    ensures ok ==> constantsOffset == count * PerConnection(receiveBufferSize)
  {
    var size := PerConnection(receiveBufferSize);
    constantsOffset := count * size;
    offsets := [];
    ok := constantsOffset + common <= INT_MAX;
    if !ok {
      return;
    }
    for i := 0 to count
      invariant |offsets| == i
      invariant forall k :: 0 <= k < i ==> offsets[k] == k * size
    {
      offsets := offsets + [i * size];
    }
    forall i, j | 0 <= i < j <= count
      ensures i * size + size <= j * size
    {
      Slices(i, j, size);
    }
  }

  lemma Slices(i: nat, j: nat, size: nat)
    requires i < j
    ensures i * size + size <= j * size
  {
    assert j * size == i * size + (j - i) * size;
    assert (j - i) * size == size + (j - i - 1) * size;
  }
}
