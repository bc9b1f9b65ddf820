/**
 What every run of connects, messages and disconnects keeps in the minifilter's tables.

 A disconnect is two separately locked steps (clear the slot, then forget the connection), so
 other callers can run in between. The Filter Manager delivers no message from a connection once
 its disconnect callback has begun; `closing` records the connections in that state.
 */
module DriverRuns {
  import opened Results
  import opened WideNames
  import opened DriverTable

  datatype World = World(table: Table, closing: set<nat>)

  datatype Event =
    | Connect(connection: Connection)
    | Send(connection: Connection, message: Message)
    | BeginDisconnect(address: nat)
    | EndDisconnect(address: nat)

  predicate IsLive(table: Table, address: nat) {
    exists i :: 0 <= i < |table.connections| && IsEntryOf(address)(table.connections[i])
  }

  /** The connection stored for a live address. */
  predicate Holds(table: Table, connection: Connection) {
    Some(connection) in table.connections
  }

  /**
   What the environment may do next. A new context is allocated apart from the live ones; only a
   live connection that is not closing sends; a disconnect runs once and in order.
   */
  predicate Enabled(w: World, e: Event) {
    match e
    case Connect(c) => !IsLive(w.table, c.address)
    case Send(c, m) => Holds(w.table, c) && c.address !in w.closing && WellSized(m)
    case BeginDisconnect(a) => IsLive(w.table, a) && a !in w.closing
    case EndDisconnect(a) => a in w.closing
  }

  function Step(up: u16 -> u16, w: World, e: Event): (World, Status)
  {
    match e
    case Connect(c) =>
      var (table, status) := Register(w.table, c);
      (w.(table := table), status)
    case Send(c, m) =>
      var (table, status) := PortMessage(up, w.table, c, m);
      (w.(table := table), status)
    case BeginDisconnect(a) =>
      (World(ClearOwner(w.table, a), w.closing + {a}), Success)
    case EndDisconnect(a) =>
      (World(Forget(w.table, a), w.closing - {a}), Success)
  }

  predicate ValidMapping(up: u16 -> u16, mapping: Mapping) {
    && ValidVolumeField(up, mapping.volume)
    && |mapping.distributions| <= MAX_DISTRIBUTIONS
    && forall i :: 0 <= i < |mapping.distributions| ==> ValidDistributionField(mapping.distributions[i])
  }

  /** A slot's owner is a live connection that is not closing, with the slot's own identity. */
  predicate BackedByConnection(w: World, mapping: Mapping) {
    Holds(w.table, Connection(mapping.owner, mapping.identity)) && mapping.owner !in w.closing
  }

  predicate DistinctSlots(slots: seq<Slot>) {
    forall i, j :: 0 <= i < j < |slots| && slots[i].Some? && slots[j].Some? ==>
      slots[i].value.owner != slots[j].value.owner && slots[i].value.identity != slots[j].value.identity
  }

  predicate DistinctConnections(connections: seq<Entry>) {
    forall i, j :: 0 <= i < j < |connections| && connections[i].Some? && connections[j].Some? ==>
      connections[i].value.address != connections[j].value.address
  }

  ghost predicate CapsKept(connections: seq<Entry>) {
    forall session: nat :: SessionCount(connections, session) <= MAX_CONNECTIONS_PER_SESSION
  }

  ghost predicate Inv(up: u16 -> u16, w: World) {
    && |w.table.slots| == MAX_SESSIONS
    && |w.table.connections| == MAX_CONNECTIONS
    && DistinctSlots(w.table.slots)
    && DistinctConnections(w.table.connections)
    && CapsKept(w.table.connections)
    && (forall a :: a in w.closing ==> IsLive(w.table, a))
    && (forall i :: 0 <= i < MAX_SESSIONS && w.table.slots[i].Some? ==>
          ValidMapping(up, w.table.slots[i].value) && BackedByConnection(w, w.table.slots[i].value))
  }

  /** DriverEntry zeroes both tables. */
  function EmptyWorld(): World {
    World(Table(seq(MAX_SESSIONS, (i: nat) => None), seq(MAX_CONNECTIONS, (i: nat) => None)), {})
  }

  lemma {:induction false} EmptyCount(connections: seq<Entry>, session: nat)
    requires forall i :: 0 <= i < |connections| ==> connections[i].None?
    ensures SessionCount(connections, session) == 0
  {
    if connections != [] {
      EmptyCount(connections[..|connections| - 1], session);
    }
  }

  lemma InvInitially(up: u16 -> u16)
    ensures Inv(up, EmptyWorld())
  {
    forall session: nat ensures SessionCount(EmptyWorld().table.connections, session) == 0 {
      EmptyCount(EmptyWorld().table.connections, session);
    }
  }

  /** How one entry's replacement moves a session's count. */
  lemma {:induction false} CountAfterUpdate(connections: seq<Entry>, k: nat, entry: Entry, session: nat)
    requires k < |connections|
    ensures SessionCount(connections[k := entry], session)
         == SessionCount(connections, session)
          - (if connections[k].Some? && connections[k].value.identity.session == session then 1 else 0)
          + (if entry.Some? && entry.value.identity.session == session then 1 else 0)
  {
    var n := |connections| - 1;
    if k < n {
      assert connections[k := entry][..n] == connections[..n][k := entry];
      CountAfterUpdate(connections[..n], k, entry, session);
    } else {
      assert connections[k := entry][..n] == connections[..n];
    }
  }

  lemma ConnectKeepsInv(up: u16 -> u16, w: World, c: Connection)
    requires Inv(up, w) && Enabled(w, Connect(c))
    ensures Inv(up, Step(up, w, Connect(c)).0)
  {
    var (table, status) := Register(w.table, c);
    if status == Success {
      var free := FirstIndex(w.table.connections, IsFree<Connection>());
      var after := Step(up, w, Connect(c)).0;
      assert forall i :: 0 <= i < MAX_CONNECTIONS && i != free ==> table.connections[i] == w.table.connections[i];
      forall session: nat ensures SessionCount(table.connections, session) <= MAX_CONNECTIONS_PER_SESSION {
        CountAfterUpdate(w.table.connections, free, Some(c), session);
      }
      forall a | a in w.closing ensures IsLive(table, a) {
        LiveSurvives(w.table, table, free, a);
      }
      forall i | 0 <= i < MAX_SESSIONS && w.table.slots[i].Some?
        ensures BackedByConnection(after, w.table.slots[i].value)
      {
        HoldsSurvives(w.table, table, free, Connection(w.table.slots[i].value.owner, w.table.slots[i].value.identity));
      }
      forall i | 0 <= i < MAX_CONNECTIONS && i != free && table.connections[i].Some?
        ensures table.connections[i].value.address != c.address
      {
        assert !IsEntryOf(c.address)(w.table.connections[i]);
      }
    }
  }

  lemma LiveSurvives(before: Table, after: Table, k: nat, address: nat)
    requires k < |before.connections| == |after.connections|
    requires forall i :: 0 <= i < |before.connections| && i != k ==> after.connections[i] == before.connections[i]
    requires IsLive(before, address) && !IsEntryOf(address)(before.connections[k])
    ensures IsLive(after, address)
  {
  }

  lemma HoldsSurvives(before: Table, after: Table, k: nat, connection: Connection)
    requires k < |before.connections| == |after.connections|
    requires forall i :: 0 <= i < |before.connections| && i != k ==> after.connections[i] == before.connections[i]
    requires Holds(before, connection) && before.connections[k] != Some(connection)
    ensures Holds(after, connection)
  {
  }

  /** A Replace or Clear that is carried out touches one slot: the sender's own, or a free one. */
  lemma CommitTouchesOneSlot(table: Table, c: Connection, m: Message) returns (k: nat)
    requires WellSized(m) && m.count <= MAX_DISTRIBUTIONS && table.slots != []
    ensures k < |table.slots|
    ensures var (after, status) := Commit(table, c, m);
            && after.connections == table.connections
            && (after == table || after.slots == table.slots[k := None] || after.slots == table.slots[k := Some(MappingOf(c, m))])
            && (status != Success ==> after == table)
            && (after != table ==>
                  || OwnedBy(c.address)(table.slots[k])
                  || (table.slots[k].None? && after.slots[k].Some?
                      && forall i :: 0 <= i < |table.slots| ==>
                           !OwnedBy(c.address)(table.slots[i]) && !HasIdentity(c.identity)(table.slots[i])))
  {
    var own := FirstIndex(table.slots, OwnedBy(c.address));
    var free := FirstIndex(table.slots, IsFree<Mapping>());
    k := if own < |table.slots| then own else if free < |table.slots| then free else 0;
  }

  /** What a step that touches one slot alone leaves backed. */
  lemma SameConnectionsBack(w: World, after: World, k: nat)
    requires |w.table.slots| == |after.table.slots| && after.table.connections == w.table.connections
    requires after.closing == w.closing && (forall a :: a in w.closing ==> IsLive(w.table, a))
    requires forall i :: 0 <= i < |w.table.slots| && i != k ==> after.table.slots[i] == w.table.slots[i]
    requires forall i :: 0 <= i < |w.table.slots| && w.table.slots[i].Some? ==>
      BackedByConnection(w, w.table.slots[i].value)
    ensures forall a :: a in after.closing ==> IsLive(after.table, a)
    ensures forall i :: 0 <= i < |after.table.slots| && i != k && after.table.slots[i].Some? ==>
      BackedByConnection(after, after.table.slots[i].value)
  {
    forall a | a in w.closing ensures IsLive(after.table, a) {
      assert IsLive(w.table, a);
    }
  }

  lemma StillDistinct(slots: seq<Slot>, after: seq<Slot>, k: nat)
    requires DistinctSlots(slots) && k < |slots| == |after|
    requires forall i :: 0 <= i < |slots| && i != k ==> after[i] == slots[i]
    requires after[k].Some? ==> forall i :: 0 <= i < |slots| && i != k && slots[i].Some? ==>
      slots[i].value.owner != after[k].value.owner && slots[i].value.identity != after[k].value.identity
    ensures DistinctSlots(after)
  {
  }

  /** A slot the connection owns, or a free one when it and its identity have none, leaves the others apart from it. */
  lemma OthersApart(up: u16 -> u16, w: World, c: Connection, k: nat)
    requires Inv(up, w) && Holds(w.table, c) && k < MAX_SESSIONS
    requires || OwnedBy(c.address)(w.table.slots[k])
             || forall i :: 0 <= i < MAX_SESSIONS ==>
                  !OwnedBy(c.address)(w.table.slots[i]) && !HasIdentity(c.identity)(w.table.slots[i])
    ensures forall i :: 0 <= i < MAX_SESSIONS && i != k && w.table.slots[i].Some? ==>
      w.table.slots[i].value.owner != c.address && w.table.slots[i].value.identity != c.identity
  {
    if OwnedBy(c.address)(w.table.slots[k]) {
      SameAddressSameConnection(up, w, k, c);
    } else {
      forall i | 0 <= i < MAX_SESSIONS && i != k && w.table.slots[i].Some?
        ensures w.table.slots[i].value.owner != c.address && w.table.slots[i].value.identity != c.identity
      {
        assert !OwnedBy(c.address)(w.table.slots[i]) && !HasIdentity(c.identity)(w.table.slots[i]);
      }
    }
  }

  /** A step that fills or frees one slot, for a connection that may send. */
  lemma OneSlotKeepsInv(up: u16 -> u16, w: World, after: World, k: nat, c: Connection)
    requires Inv(up, w) && Holds(w.table, c) && c.address !in w.closing
    requires k < MAX_SESSIONS == |after.table.slots| && after.table.connections == w.table.connections
    requires after.closing == w.closing
    requires forall i :: 0 <= i < MAX_SESSIONS && i != k ==> after.table.slots[i] == w.table.slots[i]
    requires after.table.slots[k].Some? ==>
      var mapping := after.table.slots[k].value;
      ValidMapping(up, mapping) && mapping.owner == c.address && mapping.identity == c.identity
    requires || OwnedBy(c.address)(w.table.slots[k])
             || forall i :: 0 <= i < MAX_SESSIONS ==>
                  !OwnedBy(c.address)(w.table.slots[i]) && !HasIdentity(c.identity)(w.table.slots[i])
    ensures Inv(up, after)
  {
    OthersApart(up, w, c, k);
    StillDistinct(w.table.slots, after.table.slots, k);
    SameConnectionsBack(w, after, k);
  }

  lemma MessageKeepsInv(up: u16 -> u16, w: World, c: Connection, m: Message, after: World)
    requires Inv(up, w) && Enabled(w, Send(c, m)) && AcceptsMessage(up, m)
    requires after == w.(table := Commit(w.table, c, m).0)
    ensures Inv(up, after)
  {
    var k := CommitTouchesOneSlot(w.table, c, m);
    if after.table != w.table {
      OneSlotKeepsInv(up, w, after, k, c);
    }
  }

  lemma SendKeepsInv(up: u16 -> u16, w: World, c: Connection, m: Message)
    requires Inv(up, w) && Enabled(w, Send(c, m))
    ensures Inv(up, Step(up, w, Send(c, m)).0)
  {
    if AcceptsMessage(up, m) {
      MessageKeepsInv(up, w, c, m, w.(table := Commit(w.table, c, m).0));
    }
  }

  /** The slot a connection owns carries that connection's identity. */
  lemma SameAddressSameConnection(up: u16 -> u16, w: World, k: nat, c: Connection)
    requires Inv(up, w) && k < MAX_SESSIONS
    requires OwnedBy(c.address)(w.table.slots[k]) && Holds(w.table, c)
    ensures w.table.slots[k].value.identity == c.identity
  {
  }

  lemma BeginDisconnectKeepsInv(up: u16 -> u16, w: World, a: nat)
    requires Inv(up, w) && Enabled(w, BeginDisconnect(a))
    ensures Inv(up, Step(up, w, BeginDisconnect(a)).0)
  {
    var after := Step(up, w, BeginDisconnect(a)).0;
    var k := FirstIndex(w.table.slots, OwnedBy(a));
    forall i | 0 <= i < MAX_SESSIONS && after.table.slots[i].Some?
      ensures BackedByConnection(after, after.table.slots[i].value)
    {
      assert BackedByConnection(w, w.table.slots[i].value);
      assert !OwnedBy(a)(w.table.slots[i]);
    }
    forall b | b in after.closing ensures IsLive(after.table, b) {
      assert IsLive(w.table, b);
    }
  }

  lemma EndDisconnectKeepsInv(up: u16 -> u16, w: World, a: nat)
    requires Inv(up, w) && Enabled(w, EndDisconnect(a))
    ensures Inv(up, Step(up, w, EndDisconnect(a)).0)
  {
    var after := Step(up, w, EndDisconnect(a)).0;
    var k := FirstIndex(w.table.connections, IsEntryOf(a));
    assert IsLive(w.table, a);
    assert k < MAX_CONNECTIONS;
    assert forall i :: 0 <= i < MAX_CONNECTIONS && i != k ==> after.table.connections[i] == w.table.connections[i];
    forall session: nat ensures SessionCount(after.table.connections, session) <= MAX_CONNECTIONS_PER_SESSION {
      CountAfterUpdate(w.table.connections, k, None, session);
    }
    forall b | b in after.closing ensures IsLive(after.table, b) {
      LiveSurvives(w.table, after.table, k, b);
    }
    forall i | 0 <= i < MAX_SESSIONS && w.table.slots[i].Some?
      ensures BackedByConnection(after, w.table.slots[i].value)
    {
      assert BackedByConnection(w, w.table.slots[i].value);
      HoldsSurvives(w.table, after.table, k, Connection(w.table.slots[i].value.owner, w.table.slots[i].value.identity));
    }
  }

  lemma StepKeepsInv(up: u16 -> u16, w: World, e: Event)
    requires Inv(up, w) && Enabled(w, e)
    ensures Inv(up, Step(up, w, e).0)
  {
    match e
    case Connect(c) => ConnectKeepsInv(up, w, c);
    case Send(c, m) => SendKeepsInv(up, w, c, m);
    case BeginDisconnect(a) => BeginDisconnectKeepsInv(up, w, a);
    case EndDisconnect(a) => EndDisconnectKeepsInv(up, w, a);
  }

  /** The worlds of a run, one per event, each event allowed where it happens. */
  predicate IsRun(up: u16 -> u16, worlds: seq<World>, events: seq<Event>) {
    && |worlds| == |events| + 1
    && worlds[0] == EmptyWorld()
    && forall i {:trigger events[i]} :: 0 <= i < |events| ==>
         Enabled(worlds[i], events[i]) && worlds[i + 1] == Step(up, worlds[i], events[i]).0
  }

  lemma {:induction false} EveryRunKeepsInv(up: u16 -> u16, worlds: seq<World>, events: seq<Event>, n: nat)
    requires IsRun(up, worlds, events) && n < |worlds|
    ensures Inv(up, worlds[n])
  {
    if n == 0 {
      InvInitially(up);
    } else {
      EveryRunKeepsInv(up, worlds, events, n - 1);
      StepKeepsInv(up, worlds[n - 1], events[n - 1]);
    }
  }

  /** The owner holds slot `k`. */
  predicate HeldBy(w: World, k: nat, owner: nat) {
    k < |w.table.slots| && OwnedBy(owner)(w.table.slots[k])
  }

  function Generation(w: World, k: nat): nat {
    if k < |w.table.slots| && w.table.slots[k].Some? then w.table.slots[k].value.generation else 0
  }

  /** A slot keeps its generation or moves it forward for as long as one owner holds it. */
  lemma StepKeepsGeneration(up: u16 -> u16, w: World, after: World, e: Event, k: nat, owner: nat)
    requires Inv(up, w) && Enabled(w, e) && after == Step(up, w, e).0
    requires HeldBy(w, k, owner) && HeldBy(after, k, owner)
    ensures Generation(w, k) <= Generation(after, k)
  {
    if e.Send? && AcceptsMessage(up, e.message) {
      var j := CommitTouchesOneSlot(w.table, e.connection, e.message);
      if OwnedBy(e.connection.address)(w.table.slots[j]) {
        var own := FirstIndex(w.table.slots, OwnedBy(e.connection.address));
        assert own < MAX_SESSIONS && own == j;
      }
    }
  }

  lemma {:induction false} RunKeepsGeneration(
      up: u16 -> u16, worlds: seq<World>, events: seq<Event>, from: nat, to: nat, k: nat, owner: nat)
    requires IsRun(up, worlds, events) && from <= to < |worlds|
    requires forall n :: from <= n <= to ==> HeldBy(worlds[n], k, owner)
    ensures Generation(worlds[from], k) <= Generation(worlds[to], k)
  {
    if from < to {
      RunKeepsGeneration(up, worlds, events, from, to - 1, k, owner);
      EveryRunKeepsInv(up, worlds, events, to - 1);
      StepKeepsGeneration(up, worlds[to - 1], worlds[to], events[to - 1], k, owner);
    }
  }

  /** Stopping at the first slot with the requestor's identity loses nothing. */
  lemma FirstMatchAnswersForAll(up: u16 -> u16, w: World, identity: Identity, volume: Wide, component: Wide)
    requires Inv(up, w)
    ensures OwnsDistribution(up, w.table, identity, volume, component)
       <==> exists i :: 0 <= i < MAX_SESSIONS && Grants(up, w.table.slots[i], identity, volume, component)
    ensures OwnsDistribution(up, w.table, identity, volume, component) ==> IsCandidate(up, w.table, component)
  {
    var slots := w.table.slots;
    var first := FirstIndex(slots, HasIdentity(identity));
    forall i | 0 <= i < MAX_SESSIONS && Grants(up, slots[i], identity, volume, component)
      ensures i == first
    {
      assert HasIdentity(identity)(slots[i]);
    }
  }

  /** The clear of a disconnect frees exactly what the connection had published. */
  lemma DisconnectRevokes(up: u16 -> u16, w: World, c: Connection, volume: Wide, component: Wide)
    requires Inv(up, w) && Enabled(w, BeginDisconnect(c.address)) && Holds(w.table, c)
    ensures var after := Step(up, w, BeginDisconnect(c.address)).0;
            && (forall i :: 0 <= i < MAX_SESSIONS ==>
                  after.table.slots[i] == if OwnedBy(c.address)(w.table.slots[i]) then None else w.table.slots[i])
            && ((exists i :: 0 <= i < MAX_SESSIONS && OwnedBy(c.address)(w.table.slots[i])) ==>
                  !OwnsDistribution(up, after.table, c.identity, volume, component))
  {
    var after := Step(up, w, BeginDisconnect(c.address)).0;
    var k := FirstIndex(w.table.slots, OwnedBy(c.address));
    if k < MAX_SESSIONS {
      SameAddressSameConnection(up, w, k, c);
      forall i | 0 <= i < MAX_SESSIONS ensures !HasIdentity(c.identity)(after.table.slots[i]) {
        assert HasIdentity(c.identity)(w.table.slots[i]) ==> i == k;
      }
    }
  }

  /** The sessions of the live connections. */
  function Sessions(connections: seq<Entry>): set<nat> {
    set i | 0 <= i < |connections| && connections[i].Some? :: connections[i].value.identity.session
  }

  /** How many entries belong to any of `sessions`. */
  function CountIn(connections: seq<Entry>, sessions: set<nat>): nat {
    if connections == [] then 0
    else
      var last := connections[|connections| - 1];
      CountIn(connections[..|connections| - 1], sessions)
      + if last.Some? && last.value.identity.session in sessions then 1 else 0
  }

  lemma {:induction false} CountInOne(connections: seq<Entry>, session: nat)
    ensures CountIn(connections, {session}) == SessionCount(connections, session)
  {
    if connections != [] {
      CountInOne(connections[..|connections| - 1], session);
    }
  }

  lemma {:induction false} CountInSplits(connections: seq<Entry>, session: nat, rest: set<nat>)
    requires session !in rest
    ensures CountIn(connections, rest + {session}) == SessionCount(connections, session) + CountIn(connections, rest)
  {
    if connections != [] {
      CountInSplits(connections[..|connections| - 1], session, rest);
    }
  }

  lemma {:induction false} CountInNone(connections: seq<Entry>)
    ensures CountIn(connections, {}) == 0
  {
    if connections != [] {
      CountInNone(connections[..|connections| - 1]);
    }
  }

  /** Counting over sessions: no set of sessions holds more than its caps add up to. */
  lemma {:induction false} CountBySession(connections: seq<Entry>, sessions: set<nat>)
    requires CapsKept(connections)
    ensures CountIn(connections, sessions) <= MAX_CONNECTIONS_PER_SESSION * |sessions|
    decreases sessions
  {
    if sessions == {} {
      CountInNone(connections);
    } else {
      var session :| session in sessions;
      CountBySession(connections, sessions - {session});
      CountInSplits(connections, session, sessions - {session});
      assert sessions - {session} + {session} == sessions;
    }
  }

  lemma {:induction false} FullTableCountsAll(connections: seq<Entry>, sessions: set<nat>)
    requires forall i :: 0 <= i < |connections| ==> connections[i].Some?
    requires Sessions(connections) <= sessions
    ensures CountIn(connections, sessions) == |connections|
  {
    if connections != [] {
      var n := |connections| - 1;
      assert connections[n].value.identity.session in Sessions(connections);
      forall session | session in Sessions(connections[..n]) ensures session in Sessions(connections) {
        var i :| 0 <= i < n && connections[..n][i].Some? && connections[..n][i].value.identity.session == session;
        assert connections[i].value.identity.session in Sessions(connections);
      }
      FullTableCountsAll(connections[..n], sessions);
    }
  }

  /**
   While at most 16 sessions hold connections, counting the caller's, a connection is admitted
   exactly when its own session is below its cap.
   */
  lemma AdmittedBelowCap(up: u16 -> u16, w: World, c: Connection)
    requires Inv(up, w)
    requires |Sessions(w.table.connections) + {c.identity.session}| <= MAX_SESSIONS
    ensures Register(w.table, c).1 == Success
       <==> SessionCount(w.table.connections, c.identity.session) < MAX_CONNECTIONS_PER_SESSION
  {
    var connections := w.table.connections;
    var session := c.identity.session;
    var free := FirstIndex(connections, IsFree<Connection>());
    if SessionCount(connections, session) < MAX_CONNECTIONS_PER_SESSION && free == MAX_CONNECTIONS {
      var rest := Sessions(connections) - {session};
      CountBySession(connections, rest);
      CountInSplits(connections, session, rest);
      assert rest + {session} == Sessions(connections) + {session};
      assert |rest + {session}| == |rest| + 1;
      forall i | 0 <= i < MAX_CONNECTIONS ensures connections[i].Some? {
        assert !IsFree<Connection>()(connections[i]);
      }
      FullTableCountsAll(connections, rest + {session});
    }
  }
}
