/**
 What a message and a file name mean to the create path (driver/fswfilter/fswfilter.c), spelled out on
 their units: which messages the driver takes, and where each create then goes.
 */
module CreateLaw {
  import opened Results
  import opened WideNames
  import opened DriverTable
  import opened DriverRuns
  import opened NamespaceSplit

  /** A NUL-terminated field carries these units, in some casing. */
  predicate Carries(up: u16 -> u16, field: Wide, units: Wide) {
    && |units| <= |field|
    && (|units| < |field| ==> field[|units|] == 0)
    && forall i :: 0 <= i < |units| ==> field[i] != 0 && up(field[i]) == up(units[i])
  }

  lemma CarriesText(up: u16 -> u16, field: Wide, units: Wide)
    ensures Carries(up, field, units) <==> EqualFolded(up, Text(field), units)
  {
    if Carries(up, field, units) {
      TextUnique(field, field[..|units|]);
    }
  }

  /** The name read as separators, `fwdslash` in any casing, separators, a component, and what follows it. */
  predicate ReadsAs(up: u16 -> u16, name: Wide, lead: Wide, root: Wide, gap: Wide, component: Wide, tail: Wide) {
    && name == lead + root + gap + component + tail
    && (forall i :: 0 <= i < |lead| ==> lead[i] == 0x5C)
    && gap != [] && (forall i :: 0 <= i < |gap| ==> gap[i] == 0x5C)
    && |root| == 8 && (forall i :: 0 <= i < 8 ==> root[i] != 0x5C)
    && up(root[0]) == up(0x66) && up(root[1]) == up(0x77) && up(root[2]) == up(0x64) && up(root[3]) == up(0x73)
    && up(root[4]) == up(0x6C) && up(root[5]) == up(0x61) && up(root[6]) == up(0x73) && up(root[7]) == up(0x68)
    && 0 < |component| < 128 && (forall i :: 0 <= i < |component| ==> component[i] != 0x5C)
    && (tail != [] ==> tail[0] == 0x5C)
  }

  /** The part of the name the target keeps: a tail of separators alone is dropped. */
  predicate Keeps(component: Wide, tail: Wide, typed: Wide) {
    typed == component + if exists i :: 0 <= i < |tail| && tail[i] != 0x5C then tail else []
  }

  lemma Nested(a: Wide, b: Wide, c: Wide, d: Wide, e: Wide)
    ensures a + b + c + d + e == a + (b + (c + (d + e)))
  {
  }

  lemma RootUnits(up: u16 -> u16, root: Wide)
    ensures EqualFolded(up, root, NAMESPACE_ROOT)
       <==> && |root| == 8
            && up(root[0]) == up(0x66) && up(root[1]) == up(0x77) && up(root[2]) == up(0x64) && up(root[3]) == up(0x73)
            && up(root[4]) == up(0x6C) && up(root[5]) == up(0x61) && up(root[6]) == up(0x73) && up(root[7]) == up(0x68)
  {
    if EqualFolded(up, root, NAMESPACE_ROOT) {
      assert forall i :: 0 <= i < 8 ==> up(root[i]) == up(NAMESPACE_ROOT[i]);
    }
  }

  lemma ReadsAsReads(up: u16 -> u16, name: Wide, lead: Wide, root: Wide, gap: Wide, component: Wide, tail: Wide)
    ensures ReadsAs(up, name, lead, root, gap, component, tail) <==> Reads(up, name, lead, root, gap, component, tail)
  {
    Nested(lead, root, gap, component, tail);
    RootUnits(up, root);
  }

  lemma FlattenedKeeps(component: Wide, tail: Wide, typed: Wide)
    ensures Keeps(component, tail, typed) <==> typed == component + Flattened(tail)
  {
  }

  /** The name has that component, and that much of it is kept. */
  ghost predicate IsTyped(up: u16 -> u16, name: Wide, component: Wide, typed: Wide) {
    exists lead, root, gap, tail :: ReadsAs(up, name, lead, root, gap, component, tail) && Keeps(component, tail, typed)
  }

  /** FswSplitNamespace on every name: the component and the rest it returns are what was typed. */
  lemma SplitIsTyped(up: u16 -> u16, name: Wide, component: Wide, rest: Wide)
    ensures Split(up, name) == Some((component, rest)) <==> IsTyped(up, name, component, component + rest)
  {
    SplitIsExact(up, name, component, rest);
    if CanRead(up, name, component, rest) {
      var lead, root, gap, tail :| Reads(up, name, lead, root, gap, component, tail) && rest == Flattened(tail);
      ReadsAsReads(up, name, lead, root, gap, component, tail);
      FlattenedKeeps(component, tail, component + rest);
    }
    if IsTyped(up, name, component, component + rest) {
      var lead, root, gap, tail :|
        ReadsAs(up, name, lead, root, gap, component, tail) && Keeps(component, tail, component + rest);
      ReadsAsReads(up, name, lead, root, gap, component, tail);
      FlattenedKeeps(component, tail, component + rest);
      SamePrefix(component, rest, Flattened(tail));
    }
  }

  lemma SamePrefix(front: Wide, first: Wide, second: Wide)
    requires front + first == front + second
    ensures first == second
  {
    assert (front + first)[|front|..] == first && (front + second)[|front|..] == second;
  }

  /** The target: `\??\UNC\wsl.localhost\` and what was typed, if a counted string can hold it. */
  predicate Spells(target: Wide, typed: Wide) {
    && target == [0x5C, 0x3F, 0x3F, 0x5C, 0x55, 0x4E, 0x43, 0x5C, 0x77, 0x73, 0x6C, 0x2E,
                  0x6C, 0x6F, 0x63, 0x61, 0x6C, 0x68, 0x6F, 0x73, 0x74, 0x5C] + typed
    && 2 * (|target| + 1) <= 65535
  }

  lemma TargetSpells(target: Wide, component: Wide, rest: Wide)
    ensures Spells(target, component + rest)
       <==> target == Target(component, rest) && TargetBytes(component, rest) <= MAXUSHORT
  {
    assert Target(component, rest) == TARGET_PREFIX + (component + rest);
  }

  /** A volume field and name fields offer the component on the volume. */
  predicate Offers(up: u16 -> u16, volumeField: Wide, names: seq<Wide>, volume: Wide, component: Wide) {
    && Carries(up, volumeField, volume)
    && exists k :: 0 <= k < |names| && Carries(up, names[k], component)
  }

  /** The create goes there: the name is one of the namespace, and its component is offered. */
  ghost predicate Goes(up: u16 -> u16, volumeField: Wide, names: seq<Wide>, volume: Wide, name: Wide, target: Wide) {
    exists component, typed ::
      Offers(up, volumeField, names, volume, component) && IsTyped(up, name, component, typed) && Spells(target, typed)
  }

  /** The slot is the identity's, and sends the create there. */
  ghost predicate SlotSends(up: u16 -> u16, slot: Slot, identity: Identity, volume: Wide, name: Wide, target: Wide) {
    slot.Some? && slot.value.identity == identity && Goes(up, slot.value.volume, slot.value.distributions, volume, name, target)
  }

  lemma GrantsOffers(up: u16 -> u16, slot: Slot, identity: Identity, volume: Wide, component: Wide)
    ensures Grants(up, slot, identity, volume, component)
       <==> && slot.Some? && slot.value.identity == identity
            && Offers(up, slot.value.volume, slot.value.distributions, volume, component)
  {
    if slot.Some? {
      CarriesText(up, slot.value.volume, volume);
      forall k | 0 <= k < |slot.value.distributions|
        ensures Carries(up, slot.value.distributions[k], component)
           <==> EqualFolded(up, Text(slot.value.distributions[k]), component)
      {
        CarriesText(up, slot.value.distributions[k], component);
      }
    }
  }

  lemma RedirectIsSent(up: u16 -> u16, w: World, identity: Identity, volume: Wide, name: Wide, target: Wide) returns (k: nat)
    requires Inv(up, w) && Redirect(up, w.table, w.table, Some(identity), volume, name) == Some(target)
    ensures k < MAX_SESSIONS && SlotSends(up, w.table.slots[k], identity, volume, name, target)
  {
    RedirectIsExact(up, w, identity, volume, name, target);
    var component, rest :| Means(up, w.table, identity, volume, name, target, component, rest);
    k :| 0 <= k < MAX_SESSIONS && Grants(up, w.table.slots[k], identity, volume, component);
    GrantsOffers(up, w.table.slots[k], identity, volume, component);
    SplitIsExact(up, name, component, rest);
    SplitIsTyped(up, name, component, rest);
    TargetSpells(target, component, rest);
    SendsThere(up, w.table.slots[k], identity, volume, name, target, component, component + rest);
  }

  lemma SendsThere(up: u16 -> u16, slot: Slot, identity: Identity, volume: Wide, name: Wide, target: Wide,
                   component: Wide, typed: Wide)
    requires slot.Some? && slot.value.identity == identity
    requires Offers(up, slot.value.volume, slot.value.distributions, volume, component)
    requires IsTyped(up, name, component, typed) && Spells(target, typed)
    ensures SlotSends(up, slot, identity, volume, name, target)
  {
  }

  lemma SentIsRedirect(up: u16 -> u16, w: World, k: nat, identity: Identity, volume: Wide, name: Wide, target: Wide)
    requires Inv(up, w) && k < MAX_SESSIONS && SlotSends(up, w.table.slots[k], identity, volume, name, target)
    ensures Redirect(up, w.table, w.table, Some(identity), volume, name) == Some(target)
  {
    var slot := w.table.slots[k].value;
    var component, typed :|
      Offers(up, slot.volume, slot.distributions, volume, component) && IsTyped(up, name, component, typed)
      && Spells(target, typed);
    TypedStarts(up, name, component, typed);
    var rest := typed[|component|..];
    GrantsOffers(up, w.table.slots[k], identity, volume, component);
    SplitIsTyped(up, name, component, rest);
    TargetSpells(target, component, rest);
    FirstMatchAnswersForAll(up, w, identity, volume, component);
  }

  lemma TypedStarts(up: u16 -> u16, name: Wide, component: Wide, typed: Wide)
    requires IsTyped(up, name, component, typed)
    ensures |component| <= |typed| && typed == component + typed[|component|..]
  {
  }

  /**
   Where every create of every run goes: to `\??\UNC\wsl.localhost\` with the component and what follows
   it, as typed, exactly if its name reads `\fwdslash\` with the text of a name field that a slot of the
   requestor's identity holds for that volume; otherwise it passes through.
   */
  lemma CreateIsExact(up: u16 -> u16, w: World, identity: Identity, volume: Wide, name: Wide, target: Wide)
    requires Inv(up, w)
    ensures Redirect(up, w.table, w.table, Some(identity), volume, name) == Some(target)
       <==> exists k :: 0 <= k < MAX_SESSIONS && SlotSends(up, w.table.slots[k], identity, volume, name, target)
    ensures Redirect(up, w.table, w.table, None, volume, name) == None
  {
    if Redirect(up, w.table, w.table, Some(identity), volume, name) == Some(target) {
      var k := RedirectIsSent(up, w, identity, volume, name, target);
    }
    if exists k :: 0 <= k < MAX_SESSIONS && SlotSends(up, w.table.slots[k], identity, volume, name, target) {
      var k :| 0 <= k < MAX_SESSIONS && SlotSends(up, w.table.slots[k], identity, volume, name, target);
      SentIsRedirect(up, w, k, identity, volume, name, target);
    }
  }

  /** In a table of a run an identity has one slot. */
  lemma OneSlotSends(up: u16 -> u16, w: World, k: nat, identity: Identity, volume: Wide, name: Wide, target: Wide)
    requires Inv(up, w) && k < MAX_SESSIONS && HasIdentity(identity)(w.table.slots[k])
    ensures Redirect(up, w.table, w.table, Some(identity), volume, name) == Some(target)
       <==> Goes(up, w.table.slots[k].value.volume, w.table.slots[k].value.distributions, volume, name, target)
  {
    CreateIsExact(up, w, identity, volume, name, target);
    forall i | 0 <= i < MAX_SESSIONS && SlotSends(up, w.table.slots[i], identity, volume, name, target) ensures i == k {
      assert HasIdentity(identity)(w.table.slots[i]);
    }
    assert SlotSends(up, w.table.slots[k], identity, volume, name, target)
      <==> Goes(up, w.table.slots[k].value.volume, w.table.slots[k].value.distributions, volume, name, target);
  }

  /** The slot a Replace that succeeded leaves. */
  lemma ReplaceIsStored(table: Table, c: Connection, m: Message) returns (k: nat)
    requires m.operation == 1 && m.count <= |m.distributions| && Commit(table, c, m).1 == Success
    ensures var after := Commit(table, c, m).0; k < |after.slots| && after.slots[k] == Some(MappingOf(c, m))
  {
    var own := FirstIndex(table.slots, OwnedBy(c.address));
    k := if own < |table.slots| then own else FirstIndex(table.slots, IsFree<Mapping>());
  }

  /**
   So after a Replace the driver took, the volume field and the first `count` name fields of that message
   decide every create of the sender's identity, and no others do.
   */
  lemma MessageDecidesCreate(up: u16 -> u16, w: World, c: Connection, m: Message, volume: Wide, name: Wide, target: Wide)
    requires Inv(up, w) && Enabled(w, Send(c, m)) && m.operation == 1
    requires PortMessage(up, w.table, c, m).1 == Success
    ensures var after := PortMessage(up, w.table, c, m).0;
            && m.count <= |m.distributions|
            && (Redirect(up, after, after, Some(c.identity), volume, name) == Some(target)
                <==> Goes(up, m.volume, m.distributions[..m.count], volume, name, target))
  {
    SendKeepsInv(up, w, c, m);
    var k := ReplaceIsStored(w.table, c, m);
    OneSlotSends(up, Step(up, w, Send(c, m)).0, k, c.identity, volume, name, target);
  }
}
