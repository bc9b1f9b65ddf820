/**
 What the port of the minifilter answers, spelled out on the units of a message and the entries of the
 tables (driver/fswfilter/fswfilter.c, include/fsw_filter_protocol.h).
 */
module DriverLaw {
  import opened Results
  import opened WideNames
  import opened DriverTable
  import opened DriverRuns

  /** A unit a name may hold. */
  predicate IsNameUnit(unit: u16) {
    unit >= 0x20 && unit != 0x5C && unit != 0x2F && unit != 0x3A
  }

  /** The field holds a name of `n` units, ended by a NUL. */
  predicate HoldsName(field: Wide, n: nat) {
    && |field| == 128 && 0 < n < 128 && field[n] == 0
    && (forall i :: 0 <= i < n ==> IsNameUnit(field[i]))
    && !(n == 1 && field[0] == 0x2E) && !(n == 2 && field[0] == 0x2E && field[1] == 0x2E)
  }

  /** The field holds `\Device\`, in some casing, and a root up to a NUL at `n`. */
  predicate HoldsVolume(up: u16 -> u16, field: Wide, n: nat) {
    && |field| == 128 && 8 < n < 128 && field[n] == 0
    && up(field[0]) == up(0x5C) && up(field[1]) == up(0x44) && up(field[2]) == up(0x65) && up(field[3]) == up(0x76)
    && up(field[4]) == up(0x69) && up(field[5]) == up(0x63) && up(field[6]) == up(0x65) && up(field[7]) == up(0x5C)
    && forall i :: 8 <= i < n ==> IsNameUnit(field[i])
  }

  ghost predicate IsNameField(field: Wide) {
    exists n: nat :: HoldsName(field, n)
  }

  ghost predicate IsVolumeField(up: u16 -> u16, field: Wide) {
    exists n: nat :: HoldsVolume(up, field, n)
  }

  lemma NameFieldMeaning(field: Wide)
    ensures ValidDistributionField(field) <==> IsNameField(field)
  {
    var text := Text(field);
    if ValidDistributionField(field) {
      assert forall i :: 0 <= i < |text| ==> field[i] == text[i] && !IsForbiddenUnit(text[i]);
      assert HoldsName(field, |text|);
    }
    if IsNameField(field) {
      var n: nat :| HoldsName(field, n);
      TextUnique(field, field[..n]);
    }
  }

  lemma VolumeFieldMeaning(up: u16 -> u16, field: Wide)
    ensures ValidVolumeField(up, field) <==> IsVolumeField(up, field)
  {
    if |field| == 128 {
      PrefixUnits(up, field);
      var rest := field[8..];
      var text := Text(rest);
      assert forall i :: 8 <= i < 128 ==> field[i] == rest[i - 8];
      if ValidVolumeField(up, field) {
        assert forall i :: 0 <= i < |text| ==> rest[i] == text[i] && !IsForbiddenUnit(text[i]);
        assert HoldsVolume(up, field, 8 + |text|);
      }
      if IsVolumeField(up, field) {
        var n: nat :| HoldsVolume(up, field, n);
        TextUnique(rest, rest[..n - 8]);
      }
    }
  }

  lemma PrefixUnits(up: u16 -> u16, field: Wide)
    requires |field| == 128
    ensures EqualFolded(up, DEVICE_PREFIX, field[..8])
       <==> && up(field[0]) == up(0x5C) && up(field[1]) == up(0x44) && up(field[2]) == up(0x65) && up(field[3]) == up(0x76)
            && up(field[4]) == up(0x69) && up(field[5]) == up(0x63) && up(field[6]) == up(0x65) && up(field[7]) == up(0x5C)
  {
    if EqualFolded(up, DEVICE_PREFIX, field[..8]) {
      assert forall i :: 0 <= i < 8 ==> up(DEVICE_PREFIX[i]) == up(field[..8][i]);
    }
  }

  /** A Replace (1) or Clear (2) nothing is wrong with. */
  ghost predicate IsSound(up: u16 -> u16, m: Message) {
    && m.version == 4 && m.size == 8480 && m.reserved == 0 && m.count <= 32 && m.count <= |m.distributions|
    && (m.operation == 1 || m.operation == 2)
    && (m.operation == 1 ==> IsVolumeField(up, m.volume))
    && forall k :: 0 <= k < m.count ==> IsNameField(m.distributions[k])
  }

  lemma SoundIsAccepted(up: u16 -> u16, m: Message)
    ensures AcceptsMessage(up, m) <==> IsSound(up, m)
  {
    VolumeFieldMeaning(up, m.volume);
    forall k | 0 <= k < m.count && k < |m.distributions|
      ensures ValidDistributionField(m.distributions[k]) <==> IsNameField(m.distributions[k])
    {
      NameFieldMeaning(m.distributions[k]);
    }
  }

  predicate IsPing(m: Message) {
    m.version == 4 && m.size == 8480 && m.reserved == 0 && m.count <= 32 && m.operation == 3
  }

  /** The slot is the sender's. */
  predicate IsMine(slot: Slot, c: Connection) {
    slot.Some? && slot.value.owner == c.address
  }

  predicate OwnsSlot(slots: seq<Slot>, c: Connection) {
    exists k :: 0 <= k < |slots| && IsMine(slots[k], c)
  }

  /** Another connection of the same identity has one. */
  predicate SharesIdentity(slots: seq<Slot>, c: Connection) {
    exists k :: 0 <= k < |slots| && slots[k].Some? && slots[k].value.identity == c.identity
  }

  predicate IsFull(slots: seq<Slot>) {
    forall k :: 0 <= k < |slots| ==> slots[k].Some?
  }

  /** The sender's slot is ahead of the message. */
  predicate IsStale(slots: seq<Slot>, c: Connection, m: Message) {
    exists k :: 0 <= k < |slots| && IsMine(slots[k], c) && m.generation < slots[k].value.generation
  }

  /** Every answer of FswPortMessage and exactly when it is given, in the tables of a run. */
  lemma VerdictIsExact(up: u16 -> u16, w: World, c: Connection, m: Message)
    requires Inv(up, w)
    ensures var status := PortMessage(up, w.table, c, m).1;
            var slots := w.table.slots;
            var (mine, sound) := (OwnsSlot(slots, c), IsSound(up, m));
            && (status == InvalidParameter <==> !sound && !IsPing(m))
            && (status == RevisionMismatch <==> sound && IsStale(slots, c, m))
            && (status == SharingViolation <==> sound && !mine && SharesIdentity(slots, c))
            && (status == NotFound <==> sound && !mine && !SharesIdentity(slots, c) && m.operation == 2)
            && (status == InsufficientResources <==>
                  sound && !mine && !SharesIdentity(slots, c) && m.operation == 1 && IsFull(slots))
            && status in {Success, InvalidParameter, RevisionMismatch, SharingViolation, NotFound, InsufficientResources}
  {
    SoundIsAccepted(up, m);
    var own := FirstIndex(w.table.slots, OwnedBy(c.address));
    var same := FirstIndex(w.table.slots, HasIdentity(c.identity));
    var free := FirstIndex(w.table.slots, IsFree<Mapping>());
    assert own < MAX_SESSIONS ==> IsMine(w.table.slots[own], c);
    assert forall k :: 0 <= k < MAX_SESSIONS ==> (OwnedBy(c.address)(w.table.slots[k]) <==> IsMine(w.table.slots[k], c));
    assert forall k :: 0 <= k < MAX_SESSIONS && IsMine(w.table.slots[k], c) ==> k == own;
  }

  /** What a message leaves in the tables: only a success changes them, and it changes one slot of the sender's. */
  lemma EffectIsExact(up: u16 -> u16, w: World, c: Connection, m: Message)
    requires Inv(up, w)
    ensures var (after, status) := PortMessage(up, w.table, c, m);
            var slots := w.table.slots;
            && after.connections == w.table.connections && |after.slots| == |slots|
            && (status != Success || m.operation == 3 ==> after.slots == slots)
            && (status == Success && m.operation == 2 ==> forall k :: 0 <= k < |slots| ==>
                  after.slots[k] == if IsMine(slots[k], c) then None else slots[k])
            && (status == Success && m.operation == 1 ==>
                  exists k :: 0 <= k < |slots| && (IsMine(slots[k], c) || (slots[k].None? && !OwnsSlot(slots, c)))
                              && IsStored(after.slots[k], c, m)
                              && forall i :: 0 <= i < |slots| && i != k ==> after.slots[i] == slots[i])
  {
    SoundIsAccepted(up, m);
    var (after, status) := PortMessage(up, w.table, c, m);
    var slots := w.table.slots;
    var own := FirstIndex(slots, OwnedBy(c.address));
    assert forall k :: 0 <= k < |slots| ==> (OwnedBy(c.address)(slots[k]) <==> IsMine(slots[k], c));
    assert forall k :: 0 <= k < |slots| && IsMine(slots[k], c) ==> k == own;
    if status == Success && m.operation == 1 {
      var k := if own < |slots| then own else FirstIndex(slots, IsFree<Mapping>());
      assert IsStored(after.slots[k], c, m);
    }
  }

  /** The slot holds exactly what the message said. */
  predicate IsStored(slot: Slot, c: Connection, m: Message) {
    && m.count <= |m.distributions|
    && slot == Some(Mapping(c.address, c.identity, m.generation, m.volume, m.distributions[..m.count]))
  }

  /** The entries of a session. */
  function EntriesOf(connections: seq<Entry>, session: nat): set<nat> {
    set i | 0 <= i < |connections| && connections[i].Some? && connections[i].value.identity.session == session
  }

  lemma {:induction false} CountIsCardinality(connections: seq<Entry>, session: nat)
    ensures SessionCount(connections, session) == |EntriesOf(connections, session)|
  {
    if connections != [] {
      var n := |connections| - 1;
      var front := connections[..n];
      CountIsCardinality(front, session);
      var mine := connections[n].Some? && connections[n].value.identity.session == session;
      assert EntriesOf(connections, session) == EntriesOf(front, session) + if mine then {n} else {};
      assert n !in EntriesOf(front, session);
    }
  }

  /** A connect is admitted exactly if an entry is free and its session has fewer than four; it takes one entry. */
  lemma ConnectIsExact(up: u16 -> u16, w: World, c: Connection)
    requires Inv(up, w)
    ensures var (after, status) := Register(w.table, c);
            var connections := w.table.connections;
            && |connections| == 64 && |after.connections| == 64 && after.slots == w.table.slots
            && status in {Success, ConnectionCountLimit}
            && (status == Success <==>
                  (exists i :: 0 <= i < 64 && connections[i].None?) && |EntriesOf(connections, c.identity.session)| < 4)
            && (status != Success ==> after == w.table)
            && (status == Success ==>
                  exists k :: 0 <= k < 64 && connections[k].None? && after.connections == connections[k := Some(c)])
  {
    CountIsCardinality(w.table.connections, c.identity.session);
    var free := FirstIndex(w.table.connections, IsFree<Connection>());
  }

  /** The end of a disconnect frees the entry of that connection and nothing else. */
  lemma EndIsExact(up: u16 -> u16, w: World, a: nat)
    requires Inv(up, w)
    ensures Forget(w.table, a).slots == w.table.slots && |Forget(w.table, a).connections| == 64
    ensures forall i :: 0 <= i < 64 ==>
      Forget(w.table, a).connections[i]
      == if w.table.connections[i].Some? && w.table.connections[i].value.address == a then None else w.table.connections[i]
  {
    var k := FirstIndex(w.table.connections, IsEntryOf(a));
    assert forall i :: 0 <= i < 64 ==>
      (IsEntryOf(a)(w.table.connections[i]) <==> w.table.connections[i].Some? && w.table.connections[i].value.address == a);
  }
}
