/**
 The minifilter's connection and mapping tables as values, one function per locked region
 (driver/fswfilter/fswfilter.c). The imperative form is in FilterDriver.dfy; what holds over
 whole runs is in DriverRuns.dfy.
 */
module DriverTable {
  import opened Results
  import opened WideNames

  const MAX_SESSIONS: nat := 16
  const MAX_CONNECTIONS_PER_SESSION: nat := 4
  const MAX_CONNECTIONS: nat := 64

  const PROTOCOL_VERSION: nat := 4
  const MESSAGE_SIZE: nat := 8480
  const OP_REPLACE: nat := 1
  const OP_CLEAR: nat := 2
  const OP_PING: nat := 3

  /** Session, logon id, integrity level and user SID, as read from a token. */
  datatype Identity = Identity(session: nat, logonLow: nat, logonHigh: int, integrity: nat, sid: seq<nat>)

  /** A connection context: where it is allocated and what its token said. */
  datatype Connection = Connection(address: nat, identity: Identity)

  /** An occupied slot. */
  datatype Mapping = Mapping(
    owner: nat,
    identity: Identity,
    generation: nat,
    volume: Wide,
    distributions: seq<Wide>)

  /** A captured port message. The names past `count` are sender-controlled and never read. */
  datatype Message = Message(
    version: nat,
    size: nat,
    operation: nat,
    reserved: nat,
    generation: nat,
    count: nat,
    volume: Wide,
    distributions: seq<Wide>)

  datatype Status =
    | Success
    | InvalidParameter
    | SharingViolation
    | NotFound
    | InsufficientResources
    | RevisionMismatch
    | ConnectionCountLimit

  type Slot = Option<Mapping>
  type Entry = Option<Connection>

  datatype Table = Table(slots: seq<Slot>, connections: seq<Entry>)

  /** The index of the first element satisfying `p`, or the length when there is none. */
  function FirstIndex<T>(xs: seq<T>, p: T -> bool): (index: nat)
    ensures index <= |xs|
    ensures forall i :: 0 <= i < index ==> !p(xs[i])
    ensures index < |xs| ==> p(xs[index])
  {
    if xs == [] || p(xs[0]) then 0 else 1 + FirstIndex(xs[1..], p)
  }

  function IsFree<T>(): Option<T> -> bool {
    (x: Option<T>) => x.None?
  }

  function OwnedBy(address: nat): Slot -> bool {
    (slot: Slot) => slot.Some? && slot.value.owner == address
  }

  function HasIdentity(identity: Identity): Slot -> bool {
    (slot: Slot) => slot.Some? && slot.value.identity == identity
  }

  function IsEntryOf(address: nat): Entry -> bool {
    (entry: Entry) => entry.Some? && entry.value.address == address
  }

  /** How many entries belong to `session`. */
  function SessionCount(connections: seq<Entry>, session: nat): (count: nat)
    ensures count <= |connections|
  {
    if connections == [] then 0
    else
      var last := connections[|connections| - 1];
      SessionCount(connections[..|connections| - 1], session)
      + if last.Some? && last.value.identity.session == session then 1 else 0
  }

  /** FswRegisterConnection. */
  function Register(table: Table, connection: Connection): (Table, Status) {
    var free := FirstIndex(table.connections, IsFree<Connection>());
    if free < |table.connections|
       && SessionCount(table.connections, connection.identity.session) < MAX_CONNECTIONS_PER_SESSION
    then (table.(connections := table.connections[free := Some(connection)]), Success)
    else (table, ConnectionCountLimit)
  }

  /** FswForgetConnection. */
  function Forget(table: Table, address: nat): Table {
    var entry := FirstIndex(table.connections, IsEntryOf(address));
    if entry < |table.connections|
    then table.(connections := table.connections[entry := None])
    else table
  }

  /** FswClearMappingsForOwner. */
  function ClearOwner(table: Table, address: nat): Table {
    var slot := FirstIndex(table.slots, OwnedBy(address));
    if slot < |table.slots|
    then table.(slots := table.slots[slot := None])
    else table
  }

  /** The first `count` names of a message are valid. */
  predicate ValidNames(message: Message) {
    && message.count <= |message.distributions|
    && forall i :: 0 <= i < message.count ==> ValidDistributionField(message.distributions[i])
  }

  /** The message has the shape of the fixed C struct. */
  predicate WellSized(message: Message) {
    && |message.distributions| == MAX_DISTRIBUTIONS
    && |message.volume| == MAX_VOLUME_NAME
    && forall name :: name in message.distributions ==> |name| == MAX_DISTRIBUTION_NAME
  }

  predicate ValidHeader(message: Message) {
    && message.version == PROTOCOL_VERSION
    && message.size == MESSAGE_SIZE
    && message.reserved == 0
    && message.count <= MAX_DISTRIBUTIONS
  }

  /** Everything FswPortMessage checks about a Replace or Clear before it takes the lock. */
  predicate AcceptsMessage(up: u16 -> u16, message: Message) {
    && ValidHeader(message)
    && (message.operation == OP_REPLACE || message.operation == OP_CLEAR)
    && (message.operation == OP_REPLACE ==> ValidVolumeField(up, message.volume))
    && ValidNames(message)
  }

  function MappingOf(connection: Connection, message: Message): Mapping
    requires message.count <= |message.distributions|
  {
    Mapping(connection.address, connection.identity, message.generation, message.volume,
            message.distributions[..message.count])
  }

  /** The locked region of FswPortMessage. */
  function Commit(table: Table, connection: Connection, message: Message): (Table, Status)
    requires message.count <= |message.distributions|
  {
    var own := FirstIndex(table.slots, OwnedBy(connection.address));
    if own < |table.slots| then
      if message.generation < table.slots[own].value.generation then (table, RevisionMismatch)
      else if message.operation == OP_CLEAR then (table.(slots := table.slots[own := None]), Success)
      else (table.(slots := table.slots[own := Some(MappingOf(connection, message))]), Success)
    else if FirstIndex(table.slots, HasIdentity(connection.identity)) < |table.slots| then
      (table, SharingViolation)
    else if message.operation == OP_CLEAR then
      (table, NotFound)
    else
      var free := FirstIndex(table.slots, IsFree<Mapping>());
      if free < |table.slots|
      then (table.(slots := table.slots[free := Some(MappingOf(connection, message))]), Success)
      else (table, InsufficientResources)
  }

  /** FswPortMessage, from the captured message on. */
  function PortMessage(up: u16 -> u16, table: Table, connection: Connection, message: Message): (Table, Status) {
    if ValidHeader(message) && message.operation == OP_PING then (table, Success)
    else if !AcceptsMessage(up, message) then (table, InvalidParameter)
    else Commit(table, connection, message)
  }

  /** One stored name equals a path component, case-insensitively. */
  predicate NamesComponent(up: u16 -> u16, mapping: Mapping, component: Wide) {
    exists i :: 0 <= i < |mapping.distributions| && EqualFolded(up, Text(mapping.distributions[i]), component)
  }

  /** A slot gives `identity` the component on the volume. */
  predicate Grants(up: u16 -> u16, slot: Slot, identity: Identity, volume: Wide, component: Wide) {
    && slot.Some?
    && slot.value.identity == identity
    && EqualFolded(up, Text(slot.value.volume), volume)
    && NamesComponent(up, slot.value, component)
  }

  /** FswOwnsDistribution: the first slot with the identity decides alone. */
  predicate OwnsDistribution(up: u16 -> u16, table: Table, identity: Identity, volume: Wide, component: Wide) {
    var slot := FirstIndex(table.slots, HasIdentity(identity));
    slot < |table.slots| && Grants(up, table.slots[slot], identity, volume, component)
  }

  /** FswIsCandidateDistribution: any slot names the component, whoever owns it. */
  predicate IsCandidate(up: u16 -> u16, table: Table, component: Wide) {
    exists i :: 0 <= i < |table.slots| && table.slots[i].Some? && NamesComponent(up, table.slots[i].value, component)
  }
}
