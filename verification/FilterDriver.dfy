/**
 The minifilter's port and create-path code over its two global arrays
 (driver/fswfilter/fswfilter.c). Each method is one locked region, or a pure scan; what it does to
 the tables is the function of the same name in DriverTable.
 */
module FilterDriver {
  import opened Results
  import opened WideNames
  import opened DriverTable

  /** FswIsValidDistributionName. */
  method IsValidDistributionName(name: Wide) returns (valid: bool)
    requires |name| == MAX_DISTRIBUTION_NAME
    ensures valid <==> ValidDistributionField(name)
  {
    var length := 0;
    while length < MAX_DISTRIBUTION_NAME && name[length] != NUL
      invariant length <= MAX_DISTRIBUTION_NAME
      invariant forall i :: 0 <= i < length ==> name[i] != NUL && !IsForbiddenUnit(name[i])
    {
      if name[length] == 0x5C || name[length] == 0x2F || name[length] == 0x3A || name[length] < 0x20 {
        var text := Text(name);
        assert |text| <= length ==> |text| < |name|;
        assert text[length] == name[length];
        return false;
      }
      length := length + 1;
    }
    TextUnique(name, name[..length]);
    if length == 0 || length == MAX_DISTRIBUTION_NAME {
      return false;
    }
    if (length == 1 && name[0] == DOT) || (length == 2 && name[0] == DOT && name[1] == DOT) {
      return false;
    }
    return true;
  }

  /** FswIsValidVolumeName. */
  method IsValidVolumeName(up: u16 -> u16, name: Wide) returns (valid: bool)
    requires |name| == MAX_VOLUME_NAME
    ensures valid <==> ValidVolumeField(up, name)
  {
    if !EqualFolded(up, DEVICE_PREFIX, name[..|DEVICE_PREFIX|]) {
      return false;
    }
    ghost var rest := name[|DEVICE_PREFIX|..];
    var index := |DEVICE_PREFIX|;
    while index < MAX_VOLUME_NAME
      invariant |DEVICE_PREFIX| <= index <= MAX_VOLUME_NAME
      invariant forall i :: 0 <= i < index - |DEVICE_PREFIX| ==> rest[i] != NUL && !IsForbiddenUnit(rest[i])
    {
      assert name[index] == rest[index - |DEVICE_PREFIX|];
      if name[index] == NUL {
        TextUnique(rest, rest[..index - |DEVICE_PREFIX|]);
        return index > |DEVICE_PREFIX|;
      }
      if name[index] < 0x20 || name[index] == 0x5C || name[index] == 0x2F || name[index] == 0x3A {
        ghost var text := Text(rest);
        assert |text| <= index - |DEVICE_PREFIX| ==> |text| < |rest|;
        assert text[index - |DEVICE_PREFIX|] == name[index];
        return false;
      }
      index := index + 1;
    }
    TextUnique(rest, rest);
    return false;
  }

  class Filter {
    const upcase: u16 -> u16
    const mappings: array<Slot>
    const connections: array<Entry>

    ghost predicate Valid() {
      && mappings.Length == MAX_SESSIONS
      && connections.Length == MAX_CONNECTIONS
      && mappings as object != connections
    }

    ghost function Contents(): Table
      reads mappings, connections
    {
      Table(mappings[..], connections[..])
    }

    /** DriverEntry. */
    constructor (up: u16 -> u16)
      ensures Valid() && fresh(mappings) && fresh(connections) && upcase == up
      ensures forall slot :: slot in Contents().slots ==> slot.None?
      ensures forall entry :: entry in Contents().connections ==> entry.None?
    {
      upcase := up;
      mappings := new Slot[MAX_SESSIONS](_ => None);
      connections := new Entry[MAX_CONNECTIONS](_ => None);
    }

    /** FswRegisterConnection. */
    method RegisterConnection(connection: Connection) returns (status: Status)
      requires Valid()
      modifies connections
      ensures (Contents(), status) == Register(old(Contents()), connection)
    {
      var freeEntry: Option<nat> := None;
      var sessionConnections := 0;
      status := ConnectionCountLimit;
      var index := 0;
      while index < MAX_CONNECTIONS
        invariant index <= MAX_CONNECTIONS
        invariant connections[..] == old(connections[..])
        invariant freeEntry.None? ==> forall i :: 0 <= i < index ==> connections[i].Some?
        invariant freeEntry.Some? ==>
          freeEntry.value < index && connections[freeEntry.value].None?
          && forall i :: 0 <= i < freeEntry.value ==> connections[i].Some?
        invariant sessionConnections == SessionCount(connections[..index], connection.identity.session)
      {
        var live := connections[index];
        if live.None? {
          if freeEntry.None? {
            freeEntry := Some(index);
          }
        } else if live.value.identity.session == connection.identity.session {
          sessionConnections := sessionConnections + 1;
        }
        assert connections[..index + 1][..index] == connections[..index];
        index := index + 1;
      }
      assert connections[..index] == connections[..];
      ghost var free := FirstIndex(connections[..], IsFree<Connection>());
      assert freeEntry.Some? ==> free == freeEntry.value;
      if freeEntry.Some? && sessionConnections < MAX_CONNECTIONS_PER_SESSION {
        connections[freeEntry.value] := Some(connection);
        status := Success;
      }
    }

    /** FswForgetConnection. */
    method ForgetConnection(address: nat)
      requires Valid()
      modifies connections
      ensures Contents() == Forget(old(Contents()), address)
    {
      var index := 0;
      while index < MAX_CONNECTIONS
        invariant index <= MAX_CONNECTIONS
        invariant connections[..] == old(connections[..])
        invariant forall i :: 0 <= i < index ==> !IsEntryOf(address)(connections[i])
      {
        if connections[index].Some? && connections[index].value.address == address {
          assert FirstIndex(connections[..], IsEntryOf(address)) == index;
          connections[index] := None;
          return;
        }
        index := index + 1;
      }
      assert FirstIndex(connections[..], IsEntryOf(address)) == MAX_CONNECTIONS;
    }

    /** FswClearMappingsForOwner. */
    method ClearMappingsForOwner(owner: nat)
      requires Valid()
      modifies mappings
      ensures Contents() == ClearOwner(old(Contents()), owner)
    {
      var index := 0;
      while index < MAX_SESSIONS
        invariant index <= MAX_SESSIONS
        invariant mappings[..] == old(mappings[..])
        invariant forall i :: 0 <= i < index ==> !OwnedBy(owner)(mappings[i])
      {
        if mappings[index].Some? && mappings[index].value.owner == owner {
          assert FirstIndex(mappings[..], OwnedBy(owner)) == index;
          mappings[index] := None;
          return;
        }
        index := index + 1;
      }
      assert FirstIndex(mappings[..], OwnedBy(owner)) == MAX_SESSIONS;
    }

    /** The scan of FswPortMessage: the sender's slot, else a same-identity slot, else a free one. */
    method FindSlots(connection: Connection) returns (own: Option<nat>, same: Option<nat>, free: Option<nat>)
      requires Valid()
      ensures var k := FirstIndex(mappings[..], OwnedBy(connection.address));
              own == if k < MAX_SESSIONS then Some(k) else None
      ensures var k := FirstIndex(mappings[..], HasIdentity(connection.identity));
              own.None? ==> same == if k < MAX_SESSIONS then Some(k) else None
      ensures var k := FirstIndex(mappings[..], IsFree<Mapping>());
              own.None? ==> free == if k < MAX_SESSIONS then Some(k) else None
    {
      own, same, free := None, None, None;
      var index := 0;
      while index < MAX_SESSIONS
        invariant index <= MAX_SESSIONS
        invariant own.None?
        invariant forall i :: 0 <= i < index ==> !OwnedBy(connection.address)(mappings[i])
        invariant same.None? ==> forall i :: 0 <= i < index ==> !HasIdentity(connection.identity)(mappings[i])
        invariant same.Some? ==>
          same.value < index && HasIdentity(connection.identity)(mappings[same.value])
          && forall i :: 0 <= i < same.value ==> !HasIdentity(connection.identity)(mappings[i])
        invariant free.None? ==> forall i :: 0 <= i < index ==> mappings[i].Some?
        invariant free.Some? ==>
          free.value < index && mappings[free.value].None?
          && forall i :: 0 <= i < free.value ==> mappings[i].Some?
      {
        var candidate := mappings[index];
        if candidate.Some? && candidate.value.owner == connection.address {
          own := Some(index);
          assert FirstIndex(mappings[..], OwnedBy(connection.address)) == index;
          return;
        }
        if candidate.None? {
          if free.None? {
            free := Some(index);
          }
        } else if same.None? && candidate.value.identity == connection.identity {
          same := Some(index);
        }
        index := index + 1;
      }
      ghost var k := FirstIndex(mappings[..], OwnedBy(connection.address));
      ghost var s := FirstIndex(mappings[..], HasIdentity(connection.identity));
      ghost var f := FirstIndex(mappings[..], IsFree<Mapping>());
      assert same.Some? ==> s == same.value;
      assert free.Some? ==> f == free.value;
    }

    /** The checks FswPortMessage makes before it takes the lock; None lets the message through. */
    method CheckMessage(message: Message) returns (verdict: Option<Status>)
      requires WellSized(message)
      ensures verdict.None? <==> AcceptsMessage(upcase, message)
      ensures verdict == Some(Success) <==> ValidHeader(message) && message.operation == OP_PING
      ensures verdict in {None, Some(Success), Some(InvalidParameter)}
    {
      if message.version != PROTOCOL_VERSION || message.size != MESSAGE_SIZE || message.reserved != 0
         || message.count > MAX_DISTRIBUTIONS {
        return Some(InvalidParameter);
      }
      if message.operation == OP_PING {
        return Some(Success);
      }
      if message.operation != OP_REPLACE && message.operation != OP_CLEAR {
        return Some(InvalidParameter);
      }
      if message.operation == OP_REPLACE {
        var validVolume := IsValidVolumeName(upcase, message.volume);
        if !validVolume {
          return Some(InvalidParameter);
        }
      }
      var index := 0;
      while index < message.count
        invariant index <= message.count
        invariant forall i :: 0 <= i < index ==> ValidDistributionField(message.distributions[i])
      {
        assert message.distributions[index] in message.distributions;
        var validName := IsValidDistributionName(message.distributions[index]);
        if !validName {
          return Some(InvalidParameter);
        }
        index := index + 1;
      }
      return None;
    }

    /** The locked region of FswPortMessage. */
    method CommitMessage(connection: Connection, message: Message) returns (status: Status)
      requires Valid() && message.count <= |message.distributions|
      modifies mappings
      ensures (Contents(), status) == Commit(old(Contents()), connection, message)
    {
      var own, same, free := FindSlots(connection);
      var slot: Option<nat> := None;
      status := Success;
      if own.Some? {
        slot := own;
      } else if same.Some? {
        status := SharingViolation;
      } else if message.operation == OP_CLEAR {
        status := NotFound;
      } else {
        slot := free;
      }
      if status == Success && slot.None? {
        status := InsufficientResources;
      } else if status == Success && own.Some? && message.generation < mappings[slot.value].value.generation {
        status := RevisionMismatch;
      } else if status == Success && message.operation == OP_CLEAR {
        mappings[slot.value] := None;
      } else if status == Success {
        mappings[slot.value] := Some(MappingOf(connection, message));
      }
    }

    /** FswPortMessage, from the captured message on. */
    method HandleMessage(connection: Connection, message: Message) returns (status: Status)
      requires Valid() && WellSized(message)
      modifies mappings
      ensures (Contents(), status) == PortMessage(upcase, old(Contents()), connection, message)
    {
      var verdict := CheckMessage(message);
      if verdict.Some? {
        return verdict.value;
      }
      status := CommitMessage(connection, message);
    }

    /** FswIsCandidateDistribution. */
    method IsCandidateDistribution(component: Wide) returns (candidate: bool)
      requires Valid()
      ensures candidate <==> IsCandidate(upcase, Contents(), component)
    {
      candidate := false;
      var slotIndex := 0;
      while !candidate && slotIndex < MAX_SESSIONS
        invariant slotIndex <= MAX_SESSIONS
        invariant candidate ==> IsCandidate(upcase, Contents(), component)
        invariant !candidate ==> forall i :: 0 <= i < slotIndex && mappings[i].Some? ==>
          !NamesComponent(upcase, mappings[i].value, component)
      {
        if mappings[slotIndex].Some? {
          candidate := ScanNames(mappings[slotIndex].value, component);
          assert mappings[slotIndex] == Contents().slots[slotIndex];
        }
        slotIndex := slotIndex + 1;
      }
    }

    /** The inner loop of both lookups. */
    method ScanNames(mapping: Mapping, component: Wide) returns (found: bool)
      ensures found <==> NamesComponent(upcase, mapping, component)
    {
      var index := 0;
      while index < |mapping.distributions|
        invariant index <= |mapping.distributions|
        invariant forall i :: 0 <= i < index ==> !EqualFolded(upcase, Text(mapping.distributions[i]), component)
      {
        if EqualFolded(upcase, Text(mapping.distributions[index]), component) {
          return true;
        }
        index := index + 1;
      }
      return false;
    }

    /** FswOwnsDistribution. */
    method Owns(identity: Identity, volume: Wide, component: Wide) returns (found: bool)
      requires Valid()
      ensures found <==> OwnsDistribution(upcase, Contents(), identity, volume, component)
    {
      var slotIndex := 0;
      while slotIndex < MAX_SESSIONS
        invariant slotIndex <= MAX_SESSIONS
        invariant forall i :: 0 <= i < slotIndex ==> !HasIdentity(identity)(mappings[i])
      {
        var slot := mappings[slotIndex];
        if slot.Some? && slot.value.identity == identity {
          assert FirstIndex(Contents().slots, HasIdentity(identity)) == slotIndex;
          if !EqualFolded(upcase, Text(slot.value.volume), volume) {
            return false;
          }
          found := ScanNames(slot.value, component);
          return;
        }
        slotIndex := slotIndex + 1;
      }
      return false;
    }
  }
}
