/**
 The broker's publication protocol over the driver (crates/fsw-broker/src/main.rs): what one publish
 does, as a function of the driver's table and the broker's cached state, and what every interleaving
 with other port clients keeps, also of those that run between the connect, the ping and the send of
 one publish. The driver stays loaded throughout.
 */
module BrokerPublish {
  import opened Results
  import opened WideNames
  import opened DriverTable
  import opened DriverRuns
  import opened FilterMessage
  import opened DistributionNames

  /** FILTER_PORT, PUBLISHED_MAPPINGS and ATTEMPTED_MAPPINGS. */
  datatype Broker = Broker(
    port: Option<Connection>,
    published: Option<FilterMappings>,
    attempted: Option<FilterMappings>)

  /** One FilterConnectCommunicationPort and the Ping that follows it. */
  datatype Attempt = Attempt(connection: Connection, reachable: bool, pingAnswered: bool)

  /** What one publish reads from outside: two volume queries, the C:\fwdslash probe, the Lxss list
      (empty when paused), and whether the message reaches the driver. */
  datatype Inputs = Inputs(
    force: bool,
    volumeBefore: Wide,
    rootIsFree: bool,
    volumeAfter: Wide,
    distributions: seq<string>,
    delivered: bool)

  datatype Outcome =
    | Rejected
    | NotConnected
    | Unchanged
    | MessageRejected
    | Undelivered
    | Answered(status: Status)

  /** guarded_driver_volume. */
  function GuardedVolume(inputs: Inputs): Option<string> {
    match NativeVolumeName(inputs.volumeBefore)
    case None => None
    case Some(before) =>
      if inputs.rootIsFree && NativeVolumeName(inputs.volumeAfter) == Some(before) then Some(before) else None
  }

  /** disconnect_filter. The driver hears of the closed handle later, through its disconnect callback. */
  function Disconnect(b: Broker): Broker {
    b.(port := None, published := None)
  }

  /** ensure_filter_port. */
  function EnsurePort(table: Table, b: Broker, attempt: Attempt): (Table, Broker, bool) {
    if b.port.Some? then (table, b, true)
    else if !attempt.reachable then (table, b, false)
    else
      var (registered, status) := Register(table, attempt.connection);
      if status != Success then (table, b, false)
      else if !attempt.pingAnswered then (registered, b, false)
      else (registered, b.(port := Some(attempt.connection)), true)
  }

  /** The middle of publish_filter_mappings: the list is recorded, and there may be nothing to send. */
  function Decide(b: Broker, mappings: FilterMappings, connected: bool, force: bool): (Broker, Option<Outcome>) {
    if !connected && !force then (b, Some(NotConnected))
    else
      var same := b.attempted == Some(mappings);
      var d := b.(attempted := Some(mappings));
      if !connected then (d, Some(NotConnected))
      else if !force && same && d.published == Some(mappings) then (d, Some(Unchanged))
      else (d, None)
  }

  /** The send of publish_filter_mappings and the recording of its success. */
  function Transmit(up: u16 -> u16, table: Table, b: Broker, mappings: FilterMappings, clock: nat, delivered: bool)
    : (Table, Broker, Outcome)
  {
    match MessageFor(mappings, clock)
    case None => (table, Disconnect(b), MessageRejected)
    case Some(message) =>
      if b.port.None? || !delivered then (table, Disconnect(b), Undelivered)
      else
        var (after, status) := PortMessage(up, table, b.port.value, message);
        if status == Success then (after, b.(published := Some(mappings)), Answered(status))
        else (after, Disconnect(b), Answered(status))
  }

  /** publish_filter_mappings, when nobody else runs meanwhile. */
  function Publish(up: u16 -> u16, table: Table, b: Broker, inputs: Inputs, attempt: Attempt, clock: nat)
    : (Table, Broker, Outcome)
  {
    match GuardedVolume(inputs)
    case None => (table, Disconnect(b), Rejected)
    case Some(volume) =>
      var mappings := FilterMappings(volume, inputs.distributions);
      var (reached, c, connected) := EnsurePort(table, b, attempt);
      var (d, stop) := Decide(c, mappings, connected, inputs.force);
      match stop
      case Some(outcome) => (reached, d, outcome)
      case None => Transmit(up, reached, d, mappings, clock, inputs.delivered)
  }

  /** How far the publish in progress has come, with the volume its guard accepted. */
  datatype Phase =
    | Quiet
    | Connecting(inputs: Inputs, volume: string)
    | Pinging(inputs: Inputs, volume: string, attempt: Attempt)
    | Deciding(inputs: Inputs, volume: string, connected: bool)
    | Sending(inputs: Inputs, volume: string)

  datatype State = State(driver: World, broker: Broker, clock: nat, phase: Phase, outcome: Option<Outcome>)

  datatype Step =
    | Tick(clock: nat)
    | Client(event: Event)
    | Close                     // the broker's window is destroyed
    | Begin(inputs: Inputs)
    | TryConnect(attempt: Attempt)
    | Proceed

  /** The handle the broker holds, tested or not. */
  function Handle(s: State): Option<Connection> {
    if s.phase.Pinging? then Some(s.phase.attempt.connection) else s.broker.port
  }

  /**
   A port client other than the broker's current handle acts on the driver as DriverRuns allows, at any
   moment; handles the broker has closed are among them. The tick clock does not go back. A new
   connection is apart from the live ones.
   */
  predicate CanStep(s: State, step: Step) {
    match step
    case Tick(clock) => s.clock <= clock
    case Client(event) => Enabled(s.driver, event) && !ByHandle(Handle(s), event)
    case Close => s.phase.Quiet?
    case Begin(inputs) =>
      s.phase.Quiet? && forall name :: name in inputs.distributions ==> IsValidDistributionName(name)
    case TryConnect(attempt) => s.phase.Connecting? && !IsLive(s.driver.table, attempt.connection.address)
    case Proceed => s.phase.Pinging? || s.phase.Deciding? || s.phase.Sending?
  }

  /** The event comes from the connection behind the handle. */
  predicate ByHandle(handle: Option<Connection>, event: Event) {
    handle.Some? &&
    match event
    case Connect(_) => false
    case Send(c, _) => c.address == handle.value.address
    case BeginDisconnect(a) => a == handle.value.address
    case EndDisconnect(a) => a == handle.value.address
  }

  /** Up to the guard, and to the connect if there is no port. */
  function Begun(s: State, inputs: Inputs): State {
    match GuardedVolume(inputs)
    case None => s.(broker := Disconnect(s.broker), outcome := Some(Rejected))
    case Some(volume) =>
      s.(phase := if s.broker.port.Some? then Deciding(inputs, volume, true) else Connecting(inputs, volume))
  }

  function Connected(s: State, attempt: Attempt): State
    requires s.phase.Connecting?
  {
    var (inputs, volume) := (s.phase.inputs, s.phase.volume);
    if !attempt.reachable then s.(phase := Deciding(inputs, volume, false))
    else
      var (registered, status) := Register(s.driver.table, attempt.connection);
      if status != Success then s.(driver := s.driver.(table := registered), phase := Deciding(inputs, volume, false))
      else s.(driver := s.driver.(table := registered), phase := Pinging(inputs, volume, attempt))
  }

  function Pinged(s: State): State
    requires s.phase.Pinging?
  {
    var (inputs, volume, attempt) := (s.phase.inputs, s.phase.volume, s.phase.attempt);
    if attempt.pingAnswered
    then s.(broker := s.broker.(port := Some(attempt.connection)), phase := Deciding(inputs, volume, true))
    else s.(phase := Deciding(inputs, volume, false))
  }

  function Decided(s: State): State
    requires s.phase.Deciding?
  {
    var mappings := FilterMappings(s.phase.volume, s.phase.inputs.distributions);
    var (d, stop) := Decide(s.broker, mappings, s.phase.connected, s.phase.inputs.force);
    match stop
    case Some(outcome) => s.(broker := d, phase := Quiet, outcome := stop)
    case None => s.(broker := d, phase := Sending(s.phase.inputs, s.phase.volume))
  }

  /** The message takes its generation from the clock as it is now. */
  function Sent(up: u16 -> u16, s: State): State
    requires s.phase.Sending?
  {
    var mappings := FilterMappings(s.phase.volume, s.phase.inputs.distributions);
    var (table, b, outcome) := Transmit(up, s.driver.table, s.broker, mappings, s.clock, s.phase.inputs.delivered);
    s.(driver := s.driver.(table := table), broker := b, phase := Quiet, outcome := Some(outcome))
  }

  function Next(up: u16 -> u16, s: State, step: Step): State
    requires CanStep(s, step)
  {
    match step
    case Tick(clock) => s.(clock := clock)
    case Client(event) => s.(driver := DriverRuns.Step(up, s.driver, event).0)
    case Close => s.(broker := Disconnect(s.broker))
    case Begin(inputs) => Begun(s, inputs)
    case TryConnect(attempt) => Connected(s, attempt)
    case Proceed =>
      match s.phase
      case Pinging(_, _, _) => Pinged(s)
      case Deciding(_, _, _) => Decided(s)
      case Sending(_, _) => Sent(up, s)
  }

  /** The driver holds exactly `mappings` for the connection. */
  predicate Stores(table: Table, connection: Connection, mappings: FilterMappings) {
    && |ToWide(mappings.volumeName)| <= MAX_VOLUME_NAME
    && exists k :: 0 <= k < |table.slots| && StoredIn(table.slots[k], connection, mappings)
  }

  predicate StoredIn(slot: Slot, connection: Connection, mappings: FilterMappings)
    requires |ToWide(mappings.volumeName)| <= MAX_VOLUME_NAME
  {
    && OwnedBy(connection.address)(slot)
    && slot.value.identity == connection.identity
    && slot.value.volume == VolumeField(mappings.volumeName)
    && slot.value.distributions == NameFields(mappings.distributions)[..|Published(mappings.distributions)|]
  }

  /** Nothing stored for the connection is from the future. */
  predicate NotAhead(table: Table, connection: Connection, clock: nat) {
    forall k :: 0 <= k < |table.slots| && OwnedBy(connection.address)(table.slots[k]) ==>
      table.slots[k].value.generation <= clock
  }

  /** What the recorded state means. */
  predicate Coherent(s: State) {
    && (s.broker.published.Some? ==>
          s.broker.port.Some? && Stores(s.driver.table, s.broker.port.value, s.broker.published.value))
    && (Handle(s).Some? ==>
          && Holds(s.driver.table, Handle(s).value)
          && NotAhead(s.driver.table, Handle(s).value, s.clock)
          && Handle(s).value.address !in s.driver.closing)
  }

  /** What the publish in progress has established. */
  predicate IsUnderway(inputs: Inputs, volume: string) {
    GuardedVolume(inputs) == Some(volume) && forall name :: name in inputs.distributions ==> IsValidDistributionName(name)
  }

  predicate PhaseSound(s: State) {
    match s.phase
    case Quiet => true
    case Connecting(inputs, volume) => IsUnderway(inputs, volume) && s.broker.port.None?
    case Pinging(inputs, volume, _) => IsUnderway(inputs, volume) && s.broker.port.None?
    case Deciding(inputs, volume, connected) => IsUnderway(inputs, volume) && (connected <==> s.broker.port.Some?)
    case Sending(inputs, volume) => IsUnderway(inputs, volume) && s.broker.port.Some?
  }

  ghost predicate Agrees(up: u16 -> u16, s: State) {
    Inv(up, s.driver) && Coherent(s) && PhaseSound(s)
  }

  /** The connection is still there, and owns the same slot with the same contents, if any. */
  ghost predicate Untouched(before: Table, after: Table, connection: Connection) {
    && Holds(after, connection)
    && |after.slots| == |before.slots|
    && forall k :: 0 <= k < |before.slots| ==>
         if OwnedBy(connection.address)(before.slots[k]) then after.slots[k] == before.slots[k]
         else !OwnedBy(connection.address)(after.slots[k])
  }

  lemma ConnectLeavesPort(up: u16 -> u16, w: World, c: Connection, connection: Connection)
    requires Inv(up, w) && Holds(w.table, connection)
    ensures Untouched(w.table, Register(w.table, c).0, connection)
  {
    var after := Register(w.table, c).0;
    var free := FirstIndex(w.table.connections, IsFree<Connection>());
    if after != w.table {
      HoldsSurvives(w.table, after, free, connection);
    }
  }

  lemma SendLeavesPort(up: u16 -> u16, w: World, c: Connection, m: Message, connection: Connection)
    requires Inv(up, w) && Holds(w.table, connection) && WellSized(m)
    requires c.address != connection.address
    ensures Untouched(w.table, PortMessage(up, w.table, c, m).0, connection)
  {
    if AcceptsMessage(up, m) {
      var k := CommitTouchesOneSlot(w.table, c, m);
    }
  }

  lemma ForgetLeavesPort(up: u16 -> u16, w: World, a: nat, connection: Connection)
    requires Inv(up, w) && Holds(w.table, connection) && a != connection.address
    ensures Untouched(w.table, Forget(w.table, a), connection)
  {
    var after := Forget(w.table, a);
    var k := FirstIndex(w.table.connections, IsEntryOf(a));
    if after != w.table {
      HoldsSurvives(w.table, after, k, connection);
    }
  }

  /** Another client's event leaves this connection's slot and entry as they are. */
  lemma ClientLeavesPort(up: u16 -> u16, w: World, event: Event, connection: Connection)
    requires Inv(up, w) && Enabled(w, event) && Holds(w.table, connection)
    requires !ByHandle(Some(connection), event)
    ensures Untouched(w.table, DriverRuns.Step(up, w, event).0.table, connection)
  {
    match event
    case Connect(c) => ConnectLeavesPort(up, w, c, connection);
    case Send(c, m) => SendLeavesPort(up, w, c, m, connection);
    case BeginDisconnect(a) =>
    case EndDisconnect(a) => ForgetLeavesPort(up, w, a, connection);
  }

  lemma ClientKeepsAgreement(up: u16 -> u16, s: State, event: Event)
    requires Agrees(up, s) && CanStep(s, Client(event))
    ensures Agrees(up, Next(up, s, Client(event)))
  {
    StepKeepsInv(up, s.driver, event);
    if Handle(s).Some? {
      ClientLeavesPort(up, s.driver, event, Handle(s).value);
      StillStored(s.driver.table, DriverRuns.Step(up, s.driver, event).0.table, Handle(s).value, s);
    }
  }

  lemma StillStored(before: Table, after: Table, connection: Connection, s: State)
    requires Untouched(before, after, connection) && NotAhead(before, connection, s.clock)
    ensures NotAhead(after, connection, s.clock)
    ensures s.broker.published.Some? && Stores(before, connection, s.broker.published.value) ==>
      Stores(after, connection, s.broker.published.value)
  {
    if s.broker.published.Some? && Stores(before, connection, s.broker.published.value) {
      var k :| 0 <= k < |before.slots| && StoredIn(before.slots[k], connection, s.broker.published.value);
      assert StoredIn(after.slots[k], connection, s.broker.published.value);
    }
  }

  /** Connecting gives the broker a live handle with nothing stored for it. */
  lemma ConnectKeepsAgreement(up: u16 -> u16, s: State, attempt: Attempt)
    requires Agrees(up, s) && CanStep(s, TryConnect(attempt))
    ensures Agrees(up, Connected(s, attempt))
    ensures Connected(s, attempt).phase.Pinging? ==>
      forall k :: 0 <= k < MAX_SESSIONS ==>
        !OwnedBy(attempt.connection.address)(Connected(s, attempt).driver.table.slots[k])
  {
    var c := attempt.connection;
    StepKeepsInv(up, s.driver, Connect(c));
    var (table, status) := Register(s.driver.table, c);
    if attempt.reachable && status == Success {
      var free := FirstIndex(s.driver.table.connections, IsFree<Connection>());
      assert table.connections[free] == Some(c);
      forall k | 0 <= k < MAX_SESSIONS ensures !OwnedBy(c.address)(table.slots[k]) {
        OwnerIsLive(up, s.driver, k);
      }
      assert c.address !in s.driver.closing;
    }
  }

  lemma OwnerIsLive(up: u16 -> u16, w: World, k: nat)
    requires Inv(up, w) && k < MAX_SESSIONS
    ensures w.table.slots[k].Some? ==> IsLive(w.table, w.table.slots[k].value.owner)
  {
  }

  /** What the driver answers to a sound Replace whose generation is not behind its sender's slot. */
  lemma CommitOfCurrent(table: Table, connection: Connection, message: Message)
    requires message.count <= |message.distributions| && message.operation == OP_REPLACE
    requires NotAhead(table, connection, message.generation)
    ensures var (after, status) := Commit(table, connection, message);
            && status in {Success, SharingViolation, InsufficientResources}
            && after.connections == table.connections
            && NotAhead(after, connection, message.generation)
            && (status == Success ==> Some(MappingOf(connection, message)) in after.slots)
            && (status != Success ==> after == table)
            && ((exists k :: 0 <= k < |table.slots| && OwnedBy(connection.address)(table.slots[k])) ==> status == Success)
  {
    var (after, status) := Commit(table, connection, message);
    var own := FirstIndex(table.slots, OwnedBy(connection.address));
    var free := FirstIndex(table.slots, IsFree<Mapping>());
    if status == Success {
      assert after.slots[if own < |table.slots| then own else free] == Some(MappingOf(connection, message));
    }
  }

  /** What the driver answers to the broker's own Replace. */
  lemma OwnReplace(up: u16 -> u16, table: Table, connection: Connection, mappings: FilterMappings, clock: nat)
    requires FoldsAsciiCase(up)
    requires forall name :: name in mappings.distributions ==> IsValidDistributionName(name)
    requires MessageFor(mappings, clock).Some?
    requires NotAhead(table, connection, clock)
    ensures var (after, status) := PortMessage(up, table, connection, MessageFor(mappings, clock).value);
            && status in {Success, SharingViolation, InsufficientResources}
            && after.connections == table.connections
            && NotAhead(after, connection, clock)
            && (status == Success ==> Stores(after, connection, mappings))
            && ((exists k :: 0 <= k < |table.slots| && OwnedBy(connection.address)(table.slots[k])) ==> status == Success)
  {
    MessageAccepted(up, mappings, clock);
    VolumeFits(mappings.volumeName);
    var message := MessageFor(mappings, clock).value;
    CommitOfCurrent(table, connection, message);
    var (after, status) := Commit(table, connection, message);
    if status == Success {
      var k :| 0 <= k < |after.slots| && after.slots[k] == Some(MappingOf(connection, message));
      assert StoredIn(after.slots[k], connection, mappings);
    }
  }

  /** The list of the publish in progress. */
  function ListOf(inputs: Inputs): FilterMappings
    requires GuardedVolume(inputs).Some?
  {
    FilterMappings(GuardedVolume(inputs).value, inputs.distributions)
  }

  /** The publish is over, and where that leaves the broker and the driver. */
  predicate Settled(s: State, inputs: Inputs) {
    && s.phase.Quiet?
    && s.outcome.Some? && s.outcome != Some(MessageRejected)
    && (s.outcome.value.Answered? ==> s.outcome.value.status in {Success, SharingViolation, InsufficientResources})
    && (s.broker.port.Some? ==>
          && GuardedVolume(inputs).Some?
          && s.broker.published == Some(ListOf(inputs))
          && Stores(s.driver.table, s.broker.port.value, ListOf(inputs)))
  }

  lemma SendKeepsAgreement(up: u16 -> u16, s: State)
    requires FoldsAsciiCase(up) && Agrees(up, s) && s.phase.Sending?
    ensures Agrees(up, Sent(up, s)) && Settled(Sent(up, s), s.phase.inputs)
  {
    var (inputs, c) := (s.phase.inputs, s.broker.port.value);
    GuardedVolumeIsSendable(inputs, s.clock);
    OwnReplace(up, s.driver.table, c, ListOf(inputs), s.clock);
    SendKeepsInv(up, s.driver, c, MessageFor(ListOf(inputs), s.clock).value);
  }

  lemma DecisionKeepsAgreement(up: u16 -> u16, s: State)
    requires Agrees(up, s) && s.phase.Deciding?
    ensures Agrees(up, Decided(s))
    ensures Decided(s).phase.Quiet? ==> Settled(Decided(s), s.phase.inputs)
  {
  }

  /** Every step of a publish, whatever others did since the one before. */
  lemma PublishStepAgrees(up: u16 -> u16, s: State)
    requires FoldsAsciiCase(up) && Agrees(up, s) && CanStep(s, Proceed)
    ensures Agrees(up, Next(up, s, Proceed))
    ensures Next(up, s, Proceed).phase.Quiet? ==> Settled(Next(up, s, Proceed), s.phase.inputs)
  {
    match s.phase
    case Pinging(_, _, _) =>
    case Deciding(_, _, _) => DecisionKeepsAgreement(up, s);
    case Sending(_, _) => SendKeepsAgreement(up, s);
  }

  lemma StepKeepsAgreement(up: u16 -> u16, s: State, step: Step)
    requires FoldsAsciiCase(up) && Agrees(up, s) && CanStep(s, step)
    ensures Agrees(up, Next(up, s, step))
  {
    match step
    case Tick(clock) =>
    case Client(event) => ClientKeepsAgreement(up, s, event);
    case Close =>
    case Begin(inputs) =>
    case TryConnect(attempt) => ConnectKeepsAgreement(up, s, attempt);
    case Proceed => PublishStepAgrees(up, s);
  }

  /** A volume name that passed the preflight is one a message can carry. */
  lemma GuardedVolumeIsSendable(inputs: Inputs, clock: nat)
    requires GuardedVolume(inputs).Some?
    ensures MessageFor(FilterMappings(GuardedVolume(inputs).value, inputs.distributions), clock).Some?
  {
    var buffer := inputs.volumeBefore;
    var text := Text(buffer);
    assert buffer[..NulPosition(buffer)] == text;
    DecodeInjective(text, GuardedVolume(inputs).value);
    VolumeFits(GuardedVolume(inputs).value);
  }

  predicate IsRun(up: u16 -> u16, states: seq<State>, steps: seq<Step>) {
    && |states| == |steps| + 1
    && states[0] == State(EmptyWorld(), Broker(None, None, None), states[0].clock, Quiet, None)
    && forall i {:trigger steps[i]} :: 0 <= i < |steps| ==>
         CanStep(states[i], steps[i]) && states[i + 1] == Next(up, states[i], steps[i])
  }

  /** In every interleaving, a recorded list is what the driver stores for the broker's connection. */
  lemma {:induction false} EveryRunAgrees(up: u16 -> u16, states: seq<State>, steps: seq<Step>, n: nat)
    requires FoldsAsciiCase(up) && IsRun(up, states, steps) && n < |states|
    ensures Agrees(up, states[n])
  {
    if n == 0 {
      InvInitially(up);
    } else {
      EveryRunAgrees(up, states, steps, n - 1);
      StepKeepsAgreement(up, states[n - 1], steps[n - 1]);
    }
  }

  /**
   However a publish of a run ends, the broker is without a port or the driver stores for its connection
   exactly the list of this publish, whatever other clients did while it was under way. A skipped publish
   is one of those cases: the cached list is not stale. The driver never answers a publish with "old
   generation" or "invalid".
   */
  lemma EveryPublishSettles(up: u16 -> u16, states: seq<State>, steps: seq<Step>, n: nat)
    requires FoldsAsciiCase(up) && IsRun(up, states, steps) && n < |steps|
    requires !states[n].phase.Quiet? && states[n + 1].phase.Quiet?
    ensures Settled(states[n + 1], states[n].phase.inputs)
  {
    EveryRunAgrees(up, states, steps, n);
    assert CanStep(states[n], steps[n]) && states[n + 1] == Next(up, states[n], steps[n]);
    assert steps[n].Proceed?;
    PublishStepAgrees(up, states[n]);
  }

  lemma TakenIsRecorded(up: u16 -> u16, table: Table, b: Broker, inputs: Inputs, attempt: Attempt, clock: nat)
    ensures var (_, c, outcome) := Publish(up, table, b, inputs, attempt, clock);
            outcome == Answered(Success) || outcome == Unchanged ==>
              GuardedVolume(inputs).Some? && c.port.Some? && c.attempted == c.published == Some(ListOf(inputs))
  {
  }

  /**
   A list the driver has taken is not sent again: until something else is to be published, every publish
   that does not insist leaves driver and broker as they are.
   */
  lemma RepeatIsSkipped(up: u16 -> u16, table: Table, b: Broker, inputs: Inputs, again: Inputs,
                        attempt: Attempt, other: Attempt, clock: nat, later: nat)
    requires GuardedVolume(again) == GuardedVolume(inputs) && again.distributions == inputs.distributions && !again.force
    ensures var (after, c, outcome) := Publish(up, table, b, inputs, attempt, clock);
            outcome == Answered(Success) || outcome == Unchanged ==>
              Publish(up, after, c, again, other, later) == (after, c, Unchanged)
  {
    TakenIsRecorded(up, table, b, inputs, attempt, clock);
    var (after, c, outcome) := Publish(up, table, b, inputs, attempt, clock);
    if outcome == Answered(Success) || outcome == Unchanged {
      RecordedIsSkipped(up, after, c, again, other, later);
    }
  }

  lemma RecordedIsSkipped(up: u16 -> u16, table: Table, b: Broker, inputs: Inputs, attempt: Attempt, clock: nat)
    requires GuardedVolume(inputs).Some? && !inputs.force && b.port.Some?
    requires b.attempted == b.published == Some(ListOf(inputs))
    ensures Publish(up, table, b, inputs, attempt, clock) == (table, b, Unchanged)
  {
  }

  function StepsLeft(phase: Phase): nat {
    match phase
    case Quiet => 0
    case Connecting(_, _) => 4
    case Pinging(_, _, _) => 3
    case Deciding(_, _, _) => 2
    case Sending(_, _) => 1
  }

  /** The rest of a publish when nobody else runs. */
  function Finished(up: u16 -> u16, s: State, attempt: Attempt): State
    requires s.phase.Connecting? ==> !IsLive(s.driver.table, attempt.connection.address)
    decreases StepsLeft(s.phase)
  {
    if s.phase.Quiet? then s
    else if s.phase.Connecting? then Finished(up, Next(up, s, TryConnect(attempt)), attempt)
    else Finished(up, Next(up, s, Proceed), attempt)
  }

  lemma FinishedDeciding(up: u16 -> u16, s: State, attempt: Attempt)
    requires s.phase.Deciding?
    ensures var inputs := s.phase.inputs;
            var mappings := FilterMappings(s.phase.volume, inputs.distributions);
            var (d, stop) := Decide(s.broker, mappings, s.phase.connected, inputs.force);
            var (table, b, outcome) :=
              match stop
              case Some(outcome) => (s.driver.table, d, outcome)
              case None => Transmit(up, s.driver.table, d, mappings, s.clock, inputs.delivered);
            Finished(up, s, attempt)
              == s.(driver := s.driver.(table := table), broker := b, phase := Quiet, outcome := Some(outcome))
  {
    var next := Next(up, s, Proceed);
    if next.phase.Sending? {
      assert Finished(up, next, attempt) == Sent(up, next);
    }
  }

  lemma FinishedConnecting(up: u16 -> u16, s: State, attempt: Attempt)
    requires s.phase.Connecting? && s.broker.port.None? && !IsLive(s.driver.table, attempt.connection.address)
    ensures var (reached, c, connected) := EnsurePort(s.driver.table, s.broker, attempt);
            var after := s.(driver := s.driver.(table := reached), broker := c,
                            phase := Deciding(s.phase.inputs, s.phase.volume, connected));
            Finished(up, s, attempt) == Finished(up, after, attempt)
  {
    var next := Next(up, s, TryConnect(attempt));
    if next.phase.Pinging? {
      assert Finished(up, next, attempt) == Finished(up, Pinged(next), attempt);
    }
  }

  /** Run without interruption, the steps are publish_filter_mappings. */
  lemma StepsArePublish(up: u16 -> u16, s: State, inputs: Inputs, attempt: Attempt)
    requires CanStep(s, Begin(inputs)) && !IsLive(s.driver.table, attempt.connection.address)
    ensures var (table, b, outcome) := Publish(up, s.driver.table, s.broker, inputs, attempt, s.clock);
            Finished(up, Begun(s, inputs), attempt)
              == s.(driver := s.driver.(table := table), broker := b, outcome := Some(outcome))
  {
    if GuardedVolume(inputs).Some? {
      var begun := Begun(s, inputs);
      var (reached, c, connected) := EnsurePort(s.driver.table, s.broker, attempt);
      var after := s.(driver := s.driver.(table := reached), broker := c,
                      phase := Deciding(inputs, GuardedVolume(inputs).value, connected));
      if begun.phase.Connecting? {
        FinishedConnecting(up, begun, attempt);
      }
      FinishedDeciding(up, after, attempt);
    }
  }
}
