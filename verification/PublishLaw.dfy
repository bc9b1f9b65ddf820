/**
 What a publish of the broker does (crates/fsw-broker/src/main.rs), spelled out on what it reads: when the
 guard lets it through, what it sends, how it ends, and where creates then go.
 */
module PublishLaw {
  import opened Results
  import opened Ascii
  import opened WideNames
  import opened DriverTable
  import DriverRuns
  import opened FilterMessage
  import opened DistributionNames
  import opened BrokerPublish
  import CreateLaw
  import NamespaceSplit

  /** `\Device\` in any casing and a root. */
  predicate IsDevicePath(name: string) {
    && |name| > 8 && name[0] == '\\' && name[1] in "Dd" && name[2] in "Ee" && name[3] in "Vv" && name[4] in "Ii"
    && name[5] in "Cc" && name[6] in "Ee" && name[7] == '\\'
    && forall i :: 8 <= i < |name| ==> name[i] as int >= 0x20 && name[i] != '\\' && name[i] != '/' && name[i] != ':'
  }

  /** The buffer carries the name in UTF-16, ended by its first NUL. */
  predicate Shows(buffer: Wide, name: string) {
    var units := Encode(name);
    && 0 < |units| < 128 && |units| < |buffer| && buffer[|units|] == 0
    && forall i :: 0 <= i < |units| ==> buffer[i] == units[i] && buffer[i] != 0
  }

  lemma DeviceRootIsPath(name: string)
    ensures IsDeviceRoot(name) <==> IsDevicePath(name)
  {
    assert DEVICE == ['\\', 'D', 'e', 'v', 'i', 'c', 'e', '\\'];
    if |name| > 8 {
      var front := name[..8];
      if EqualIgnoringCase(front, DEVICE) {
        forall i | 0 <= i < 8 ensures Lower(name[i]) == Lower(DEVICE[i]) {
          assert front[i] == name[i];
        }
      }
      if IsDevicePath(name) {
        assert forall i :: 0 <= i < 8 ==> Lower(front[i]) == Lower(DEVICE[i]);
      }
    }
  }

  lemma ShownVolume(buffer: Wide, name: string)
    ensures NativeVolumeName(buffer) == Some(name) <==> Shows(buffer, name) && IsDevicePath(name)
  {
    DeviceRootIsPath(name);
    var text := Text(buffer);
    assert buffer[..|text|] == text;
    if NativeVolumeName(buffer) == Some(name) {
      DecodeInjective(text, name);
    }
    if Shows(buffer, name) {
      assert buffer[..|Encode(name)|] == Encode(name);
      TextUnique(buffer, Encode(name));
      DecodeEncode(name);
    }
  }

  /** The guard's three probes: the same device path before and after, and nothing at `C:\fwdslash`. */
  predicate Allows(inputs: Inputs, name: string) {
    inputs.rootIsFree && IsDevicePath(name) && Shows(inputs.volumeBefore, name) && Shows(inputs.volumeAfter, name)
  }

  ghost predicate IsAllowed(inputs: Inputs) {
    exists name :: Allows(inputs, name)
  }

  lemma GuardIsExact(inputs: Inputs, name: string)
    ensures GuardedVolume(inputs) == Some(name) <==> Allows(inputs, name)
  {
    ShownVolume(inputs.volumeBefore, name);
    ShownVolume(inputs.volumeAfter, name);
  }

  lemma GuardDecides(inputs: Inputs)
    ensures GuardedVolume(inputs).Some? <==> IsAllowed(inputs)
  {
    if GuardedVolume(inputs).Some? {
      GuardIsExact(inputs, GuardedVolume(inputs).value);
    }
    if IsAllowed(inputs) {
      var name :| Allows(inputs, name);
      GuardIsExact(inputs, name);
    }
  }

  /**
   In every run a publish goes on exactly if its probes allow it. One they do not allow ends at once,
   rejected, without a port and without a recorded list, and leaves the driver alone.
   */
  lemma EveryPublishIsGuarded(up: u16 -> u16, states: seq<State>, steps: seq<Step>, n: nat)
    requires FoldsAsciiCase(up) && IsRun(up, states, steps) && n < |steps|
    ensures steps[n].Begin? ==>
      var (inputs, after) := (steps[n].inputs, states[n + 1]);
      && (!after.phase.Quiet? <==> IsAllowed(inputs))
      && (!IsAllowed(inputs) ==>
            && after.outcome == Some(Rejected) && after.broker.port.None? && after.broker.published.None?
            && after.driver == states[n].driver)
    ensures !states[n].phase.Quiet? ==> Allows(states[n].phase.inputs, states[n].phase.volume)
    ensures !states[n].phase.Quiet? && states[n + 1].phase.Quiet? ==> states[n + 1].outcome != Some(Rejected)
  {
    EveryRunAgrees(up, states, steps, n);
    assert CanStep(states[n], steps[n]) && states[n + 1] == Next(up, states[n], steps[n]);
    if steps[n].Begin? {
      GuardDecides(steps[n].inputs);
    }
    if !states[n].phase.Quiet? {
      GuardIsExact(states[n].phase.inputs, states[n].phase.volume);
    }
  }

  /** A field of 128 units: at most 127 units of the text, and NULs. */
  predicate Spells(field: Wide, text: string) {
    && |field| == 128
    && forall i :: 0 <= i < 128 ==> field[i] == if i < |Encode(text)| && i < 127 then Encode(text)[i] else 0
  }

  predicate SpellNames(fields: seq<Wide>, distributions: seq<string>) {
    && |fields| == (if |distributions| < 32 then |distributions| else 32)
    && forall k :: 0 <= k < |fields| ==> Spells(fields[k], distributions[k])
  }

  lemma NameFieldSpells(name: string)
    ensures Spells(FieldOf(name, 128), name)
  {
  }

  lemma NameFieldsSpell(distributions: seq<string>)
    ensures SpellNames(NameFields(distributions)[..|Published(distributions)|], distributions)
  {
    forall k | 0 <= k < |Published(distributions)| ensures Spells(NameFields(distributions)[k], distributions[k]) {
      NameFieldSpells(distributions[k]);
    }
  }

  lemma VolumeFieldSpells(name: string)
    requires |Encode(name)| < 128
    ensures Spells(VolumeField(name), name)
  {
  }

  /** The message a publish sends, unit by unit. */
  lemma MessageIsSpelled(mappings: FilterMappings, clock: nat)
    requires MessageFor(mappings, clock).Some?
    ensures var m := MessageFor(mappings, clock).value;
            && m.version == 4 && m.size == 8480 && m.operation == 1 && m.reserved == 0 && m.generation == clock
            && Spells(m.volume, mappings.volumeName)
            && m.count <= |m.distributions| == 32 && SpellNames(m.distributions[..m.count], mappings.distributions)
  {
    VolumeFits(mappings.volumeName);
    VolumeFieldSpells(mappings.volumeName);
    NameFieldsSpell(mappings.distributions);
  }

  /** The fields a list is sent in. */
  predicate AreFieldsOf(volumeField: Wide, names: seq<Wide>, mappings: FilterMappings) {
    Spells(volumeField, mappings.volumeName) && SpellNames(names, mappings.distributions)
  }

  /**
   From the broker's list to the creates: in every run, while the broker records a list, the creates of
   its identity are decided by that list, whatever other clients have done: they go where its volume and
   its first 32 names, each cut to 127 units, send them.
   */
  lemma PublishedDecidesCreate(up: u16 -> u16, states: seq<State>, steps: seq<Step>, n: nat)
      returns (volumeField: Wide, names: seq<Wide>)
    requires FoldsAsciiCase(up) && IsRun(up, states, steps) && n < |states| && states[n].broker.published.Some?
    ensures states[n].broker.port.Some? && AreFieldsOf(volumeField, names, states[n].broker.published.value)
    ensures forall volume, name, target ::
      NamespaceSplit.Redirect(up, states[n].driver.table, states[n].driver.table,
                              Some(states[n].broker.port.value.identity), volume, name) == Some(target)
      <==> CreateLaw.Goes(up, volumeField, names, volume, name, target)
  {
    EveryRunAgrees(up, states, steps, n);
    var (w, mappings) := (states[n].driver, states[n].broker.published.value);
    var identity := states[n].broker.port.value.identity;
    var k :| 0 <= k < |w.table.slots| && StoredIn(w.table.slots[k], states[n].broker.port.value, mappings);
    volumeField, names := w.table.slots[k].value.volume, w.table.slots[k].value.distributions;
    VolumeFieldSpells(mappings.volumeName);
    NameFieldsSpell(mappings.distributions);
    forall volume, name, target
      ensures NamespaceSplit.Redirect(up, w.table, w.table, Some(identity), volume, name) == Some(target)
         <==> CreateLaw.Goes(up, volumeField, names, volume, name, target)
    {
      CreateLaw.OneSlotSends(up, w, k, identity, volume, name, target);
    }
  }

  /** The broker has or gets a port. */
  predicate Opens(table: Table, b: Broker, attempt: Attempt) {
    b.port.Some? || (attempt.reachable && Register(table, attempt.connection).1 == Success && attempt.pingAnswered)
  }

  /** Nobody insists, and the list was both tried last and taken. */
  predicate MaySkip(b: Broker, list: FilterMappings, force: bool) {
    !force && b.attempted == Some(list) && b.published == Some(list)
  }

  /** An uninterrupted publish is rejected exactly if its probes do not allow it. */
  lemma RejectedIsExact(up: u16 -> u16, table: Table, b: Broker, inputs: Inputs, attempt: Attempt, clock: nat)
    ensures Publish(up, table, b, inputs, attempt, clock).2 == Rejected <==> !IsAllowed(inputs)
  {
    GuardDecides(inputs);
  }

  /** One they do allow stops there exactly if it has no port; a forced one is recorded all the same. */
  lemma NotConnectedIsExact(up: u16 -> u16, table: Table, b: Broker, inputs: Inputs, attempt: Attempt, clock: nat, name: string)
    requires Allows(inputs, name)
    ensures var (_, c, outcome) := Publish(up, table, b, inputs, attempt, clock);
            && (outcome == NotConnected <==> !Opens(table, b, attempt))
            && (outcome == NotConnected ==> c == if inputs.force
                                                 then b.(attempted := Some(FilterMappings(name, inputs.distributions))) else b)
  {
    GuardIsExact(inputs, name);
  }

  /** And of one that has a port: what is sent, and what the broker then records. */
  lemma SendIsExact(up: u16 -> u16, table: Table, b: Broker, inputs: Inputs, attempt: Attempt, clock: nat, name: string)
    requires Allows(inputs, name) && Opens(table, b, attempt)
    ensures var list := FilterMappings(name, inputs.distributions);
            var (_, c, outcome) := Publish(up, table, b, inputs, attempt, clock);
            && c.attempted == Some(list)
            && (outcome == Unchanged <==> MaySkip(b, list, inputs.force))
            && (outcome == Undelivered <==> !MaySkip(b, list, inputs.force) && !inputs.delivered)
            && (outcome.Answered? <==> !MaySkip(b, list, inputs.force) && inputs.delivered)
            && (if outcome == Unchanged || outcome == Answered(Success)
                then c.published == Some(list) && c.port == (if b.port.Some? then b.port else Some(attempt.connection))
                else c.published == None && c.port == None)
  {
    GuardIsExact(inputs, name);
    GuardedVolumeIsSendable(inputs, clock);
  }

  /** An answer is the driver's to the message of that list. */
  lemma AnswerIsDrivers(up: u16 -> u16, table: Table, b: Broker, inputs: Inputs, attempt: Attempt, clock: nat, name: string)
    requires Allows(inputs, name) && Publish(up, table, b, inputs, attempt, clock).2.Answered?
    ensures var list := FilterMappings(name, inputs.distributions);
            var (after, _, outcome) := Publish(up, table, b, inputs, attempt, clock);
            && MessageFor(list, clock).Some?
            && (after, outcome.status)
               == if b.port.Some? then PortMessage(up, table, b.port.value, MessageFor(list, clock).value)
                  else PortMessage(up, Register(table, attempt.connection).0, attempt.connection, MessageFor(list, clock).value)
  {
    GuardIsExact(inputs, name);
    GuardedVolumeIsSendable(inputs, clock);
    var (reached, c, _) := EnsurePort(table, b, attempt);
    var list := FilterMappings(name, inputs.distributions);
    TransmittedAnswer(up, reached, Decide(c, list, true, inputs.force).0, list, clock, inputs.delivered);
  }

  lemma TransmittedAnswer(up: u16 -> u16, table: Table, b: Broker, list: FilterMappings, clock: nat, delivered: bool)
    requires MessageFor(list, clock).Some?
    ensures var (after, _, outcome) := Transmit(up, table, b, list, clock, delivered);
            outcome.Answered? ==>
              b.port.Some? && (after, outcome.status) == PortMessage(up, table, b.port.value, MessageFor(list, clock).value)
  {
  }
}
