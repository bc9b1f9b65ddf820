/**
 How the broker turns its distribution list into a filter message (crates/fsw-broker/src/main.rs),
 and why the driver never finds fault with one.
 */
module FilterMessage {
  import opened Results
  import opened WideNames
  import opened DriverTable
  import opened Ascii
  import opened DistributionNames

  datatype FilterMappings = FilterMappings(volumeName: string, distributions: seq<string>)

  /** UTF-16 of one scalar value. */
  function EncodeChar(c: char): (units: Wide)
    ensures 1 <= |units| <= 2
    ensures |units| == 1 ==> units[0] == c as int && !(0xD800 <= units[0] < 0xE000)
    ensures |units| == 2 ==> 0xD800 <= units[0] < 0xDC00 <= units[1] < 0xE000
    ensures |units| == 2 ==> c as int == 0x1_0000 + (units[0] as int - 0xD800) * 0x400 + (units[1] as int - 0xDC00)
  {
    var code := c as int;
    if code < 0x1_0000 then [code]
    else [0xD800 + (code - 0x1_0000) / 0x400, 0xDC00 + (code - 0x1_0000) % 0x400]
  }

  function Encode(text: string): (units: Wide)
    ensures |units| >= |text|
  {
    if text == [] then [] else EncodeChar(text[0]) + Encode(text[1..])
  }

  /** The scalar value of a surrogate pair. */
  function PairChar(high: int, low: int): char
    requires 0xD800 <= high < 0xDC00 <= low < 0xE000
  {
    (0x1_0000 + (high - 0xD800) * 0x400 + (low - 0xDC00)) as char
  }

  /** String::from_utf16: None on an unpaired surrogate. */
  function Decode(units: Wide): Option<string> {
    if units == [] then Some([])
    else if !(0xD800 <= units[0] < 0xE000) then
      match Decode(units[1..])
      case None => None
      case Some(rest) => Some([units[0] as char] + rest)
    else if units[0] < 0xDC00 && |units| >= 2 && 0xDC00 <= units[1] < 0xE000 then
      match Decode(units[2..])
      case None => None
      case Some(rest) => Some([PairChar(units[0], units[1])] + rest)
    else None
  }

  lemma {:induction false} DecodeEncode(text: string)
    ensures Decode(Encode(text)) == Some(text)
  {
    if text != [] {
      DecodeEncode(text[1..]);
      var head := EncodeChar(text[0]);
      assert Encode(text)[|head|..] == Encode(text[1..]);
      if |head| == 2 {
        assert PairChar(head[0], head[1]) == text[0];
      }
      assert [text[0]] + text[1..] == text;
    }
  }

  lemma {:induction false} DecodeInjective(units: Wide, text: string)
    requires Decode(units) == Some(text)
    ensures Encode(text) == units
    decreases |units|
  {
    if units != [] {
      var n := if 0xD800 <= units[0] < 0xE000 then 2 else 1;
      DecodeInjective(units[n..], text[1..]);
      assert EncodeChar(text[0]) == units[..n];
    }
  }

  /** to_u16_vec. */
  function ToWide(text: string): Wide {
    Encode(text) + [NUL]
  }

  const DEVICE: string := "\\Device\\"

  /** The first NUL of a buffer, or its length. */
  function NulPosition(buffer: Wide): nat {
    |Text(buffer)|
  }

  /** native_volume_name. */
  function NativeVolumeName(buffer: Wide): Option<string> {
    var length := NulPosition(buffer);
    if length == |buffer| || length == 0 || length >= MAX_VOLUME_NAME then None
    else
      match Decode(buffer[..length])
      case None => None
      case Some(name) =>
        if IsDeviceRoot(name) then Some(name) else None
  }

  predicate IsDeviceRoot(name: string) {
    && |name| > |DEVICE|
    && EqualIgnoringCase(name[..|DEVICE|], DEVICE)
    && forall i :: |DEVICE| <= i < |name| ==> !IsForbiddenChar(name[i])
  }

  function Zeros(n: nat): Wide {
    seq(n, (i: nat) => NUL)
  }

  /** What copy_wide_truncated leaves in a zeroed field of `size` units. */
  function FieldOf(text: string, size: nat): (field: Wide)
    requires size > 0
    ensures |field| == size
  {
    var wide := ToWide(text);
    var n := if |wide| < size - 1 then |wide| else size - 1;
    wide[..n] + Zeros(size - n)
  }

  function Published(distributions: seq<string>): seq<string> {
    if |distributions| < MAX_DISTRIBUTIONS then distributions else distributions[..MAX_DISTRIBUTIONS]
  }

  /** The 32 name fields. */
  function NameFields(distributions: seq<string>): (fields: seq<Wide>)
    ensures |fields| == MAX_DISTRIBUTIONS
    ensures forall i :: 0 <= i < |fields| ==> |fields[i]| == MAX_DISTRIBUTION_NAME
  {
    seq(MAX_DISTRIBUTIONS, i requires 0 <= i < MAX_DISTRIBUTIONS => NameField(distributions, i))
  }

  function NameField(distributions: seq<string>, i: nat): (field: Wide)
    ensures |field| == MAX_DISTRIBUTION_NAME
  {
    if i < |Published(distributions)| then FieldOf(distributions[i], MAX_DISTRIBUTION_NAME)
    else Zeros(MAX_DISTRIBUTION_NAME)
  }

  function VolumeField(name: string): Wide
    requires |ToWide(name)| <= MAX_VOLUME_NAME
  {
    ToWide(name) + Zeros(MAX_VOLUME_NAME - |ToWide(name)|)
  }

  function MessageFor(mappings: FilterMappings, generation: nat): (message: Option<Message>)
    ensures message.Some? ==> WellSized(message.value)
  {
    if NativeVolumeName(ToWide(mappings.volumeName)) != Some(mappings.volumeName) then None
    else
      assert |ToWide(mappings.volumeName)| <= MAX_VOLUME_NAME by { VolumeFits(mappings.volumeName); }
      Some(Message(
        PROTOCOL_VERSION, MESSAGE_SIZE, OP_REPLACE, 0, generation, |Published(mappings.distributions)|,
        VolumeField(mappings.volumeName), NameFields(mappings.distributions)))
  }

  /** native_volume_name applied to the broker's own encoding sees the whole name, or rejects it. */
  lemma VolumeFits(name: string)
    ensures NativeVolumeName(ToWide(name)) == Some(name)
       <==> NUL !in Encode(name) && 0 < |Encode(name)| < MAX_VOLUME_NAME && IsDeviceRoot(name)
  {
    var buffer := ToWide(name);
    var text := Text(buffer);
    DecodeEncode(name);
    if NUL !in Encode(name) {
      TextUnique(buffer, Encode(name));
      assert buffer[..|text|] == Encode(name);
    } else if NativeVolumeName(buffer) == Some(name) {
      DecodeInjective(buffer[..|text|], name);
    }
  }

  /** copy_wide_truncated. */
  method CopyWideTruncated(destination: array<u16>, source: Wide)
    modifies destination
    ensures var room := if destination.Length == 0 then 0 else destination.Length - 1;
            var n := if |source| < room then |source| else room;
            destination[..] == source[..n] + old(destination[..])[n..]
  {
    var room := if destination.Length == 0 then 0 else destination.Length - 1;
    var length := if |source| < room then |source| else room;
    forall i | 0 <= i < length {
      destination[i] := source[i];
    }
  }

  /** The name loop of filter_mapping_message. */
  method FillNames(distributions: seq<string>) returns (fields: seq<Wide>)
    ensures fields == NameFields(distributions)
  {
    fields := [];
    while |fields| < MAX_DISTRIBUTIONS
      invariant |fields| <= MAX_DISTRIBUTIONS
      invariant fields == NameFields(distributions)[..|fields|]
      decreases MAX_DISTRIBUTIONS - |fields|
    {
      var destination := new u16[MAX_DISTRIBUTION_NAME](_ => 0);
      assert destination[..] == Zeros(MAX_DISTRIBUTION_NAME);
      if |fields| < |distributions| {
        CopyWideTruncated(destination, ToWide(distributions[|fields|]));
        assert destination[..] == FieldOf(distributions[|fields|], MAX_DISTRIBUTION_NAME);
      }
      assert destination[..] == NameField(distributions, |fields|);
      fields := fields + [destination[..]];
    }
  }

  /** filter_mapping_message. */
  method FilterMappingMessage(mappings: FilterMappings, generation: nat) returns (message: Option<Message>)
    ensures message == MessageFor(mappings, generation)
  {
    var volume := ToWide(mappings.volumeName);
    if NativeVolumeName(volume) != Some(mappings.volumeName) {
      return None;
    }
    VolumeFits(mappings.volumeName);
    var volumeName := new u16[MAX_VOLUME_NAME](_ => 0);
    forall i | 0 <= i < |volume| {
      volumeName[i] := volume[i];
    }
    assert volumeName[..] == VolumeField(mappings.volumeName);
    var units := volumeName[..];
    var count := if |mappings.distributions| < MAX_DISTRIBUTIONS then |mappings.distributions| else MAX_DISTRIBUTIONS;
    var fields := FillNames(mappings.distributions);
    message := Some(Message(PROTOCOL_VERSION, MESSAGE_SIZE, OP_REPLACE, 0, generation, count, units, fields));
  }

  /** The driver's folding identifies the two cases of every ASCII letter. */
  ghost predicate FoldsAsciiCase(up: u16 -> u16) {
    forall unit: u16 :: 0x41 <= unit <= 0x5A ==> up(unit) == up(unit + 0x20)
  }

  /** Encoding neither adds nor hides a forbidden unit. */
  lemma {:induction false} EncodeKeepsAllowed(text: string)
    ensures AllAllowed(Encode(text)) <==> forall i :: 0 <= i < |text| ==> !IsForbiddenChar(text[i])
  {
    if text != [] {
      var head := EncodeChar(text[0]);
      EncodeKeepsAllowed(text[1..]);
      assert forall i :: 0 <= i < |head| ==> Encode(text)[i] == head[i];
      assert forall i :: |head| <= i < |Encode(text)| ==> Encode(text)[i] == Encode(text[1..])[i - |head|];
      if AllAllowed(Encode(text)) {
        assert !IsForbiddenUnit(Encode(text)[0]);
        forall i | 0 <= i < |Encode(text[1..])| ensures !IsForbiddenUnit(Encode(text[1..])[i]) {
          assert !IsForbiddenUnit(Encode(text)[i + |head|]);
        }
        forall i | 0 <= i < |text| ensures !IsForbiddenChar(text[i]) {
          assert i > 0 ==> text[i] == text[1..][i - 1];
        }
      } else {
        var i :| 0 <= i < |Encode(text)| && IsForbiddenUnit(Encode(text)[i]);
        if i >= |head| {
          assert IsForbiddenUnit(Encode(text[1..])[i - |head|]);
          var j :| 0 <= j < |text[1..]| && IsForbiddenChar(text[1..][j]);
          assert text[j + 1] == text[1..][j];
        }
      }
    }
  }

  /** The units of a name the driver gets to see. */
  function Cut(name: string): Wide {
    if |Encode(name)| < MAX_DISTRIBUTION_NAME then Encode(name) else Encode(name)[..MAX_DISTRIBUTION_NAME - 1]
  }

  lemma FieldText(name: string)
    requires NUL !in Encode(name)
    ensures Text(FieldOf(name, MAX_DISTRIBUTION_NAME)) == Cut(name)
  {
    TextUnique(FieldOf(name, MAX_DISTRIBUTION_NAME), Cut(name));
  }

  lemma NameFieldValid(name: string)
    requires IsValidDistributionName(name)
    ensures ValidDistributionField(FieldOf(name, MAX_DISTRIBUTION_NAME))
    ensures Text(FieldOf(name, MAX_DISTRIBUTION_NAME)) == Cut(name)
  {
    EncodeKeepsAllowed(name);
    assert NUL !in Encode(name);
    FieldText(name);
    assert Encode(name) != [];
    DecodeEncode(name);
    DecodeEncode(".");
    DecodeEncode("..");
    assert Encode("..") == EncodeChar('.') + Encode(".");
  }

  lemma {:induction false} EncodeAscii(text: string, n: nat)
    requires n <= |text| && forall i :: 0 <= i < n ==> (text[i] as int) < 0x80
    ensures |Encode(text)| >= n
    ensures forall i :: 0 <= i < n ==> Encode(text)[i] == text[i] as int
    ensures Encode(text)[n..] == Encode(text[n..])
  {
    if n > 0 {
      EncodeAscii(text[1..], n - 1);
      assert text[1..][n - 1..] == text[n..];
      assert Encode(text) == [text[0] as int] + Encode(text[1..]);
    }
  }

  /** The prefix of a device root stays one unit a character, none of them NUL. */
  lemma DeviceFront(name: string)
    requires IsDeviceRoot(name)
    ensures forall i :: 0 <= i < 8 ==> Lower(name[i]) == Lower(DEVICE[i]) && 0 < name[i] as int < 0x80
    ensures |Encode(name)| >= 8 && Encode(name)[8..] == Encode(name[8..])
    ensures forall i :: 0 <= i < 8 ==> Encode(name)[i] == name[i] as int
  {
    forall i | 0 <= i < 8 ensures Lower(name[i]) == Lower(DEVICE[i]) && 0 < name[i] as int < 0x80 {
      assert name[..8][i] == name[i];
      DeviceUnit(i);
    }
    EncodeAscii(name, 8);
  }

  lemma DeviceUnit(i: nat)
    requires i < 8
    ensures |DEVICE| == 8 && DEVICE[i] as int == DEVICE_PREFIX[i] && 0x20 < DEVICE[i] as int < 0x80
  {
    assert DEVICE == ['\\', 'D', 'e', 'v', 'i', 'c', 'e', '\\'];
  }

  lemma FieldParts(name: string)
    requires |ToWide(name)| <= MAX_VOLUME_NAME && |Encode(name)| >= 8
    ensures VolumeField(name)[..8] == Encode(name)[..8]
    ensures VolumeField(name)[8..] == Encode(name)[8..] + [NUL] + Zeros(MAX_VOLUME_NAME - |ToWide(name)|)
  {
  }

  lemma VolumeFieldValid(up: u16 -> u16, name: string)
    requires FoldsAsciiCase(up)
    requires NativeVolumeName(ToWide(name)) == Some(name)
    ensures var wide := ToWide(name);
            |wide| <= MAX_VOLUME_NAME && ValidVolumeField(up, VolumeField(name))
  {
    VolumeFits(name);
    DeviceFront(name);
    FieldParts(name);
    DevicePrefixFolds(up, name, VolumeField(name)[..8]);
    var root := Encode(name[8..]);
    EncodeKeepsAllowed(name[8..]);
    assert NUL !in root;
    TextUnique(VolumeField(name)[8..], root);
  }

  lemma DevicePrefixFolds(up: u16 -> u16, name: string, front: Wide)
    requires FoldsAsciiCase(up) && |name| >= 8 && |front| == 8
    requires forall i :: 0 <= i < 8 ==> Lower(name[i]) == Lower(DEVICE[i]) && front[i] == name[i] as int
    ensures EqualFolded(up, DEVICE_PREFIX, front)
  {
    forall i | 0 <= i < 8 ensures up(DEVICE_PREFIX[i]) == up(front[i]) {
      DeviceUnit(i);
      FoldedUnit(up, DEVICE[i], name[i]);
    }
  }

  lemma FoldedUnit(up: u16 -> u16, a: char, b: char)
    requires FoldsAsciiCase(up) && Lower(a) == Lower(b) && (a as int) < 0x80
    ensures (b as int) < 0x80 && up(a as int) == up(b as int)
  {
  }

  lemma NameFieldsValid(distributions: seq<string>)
    requires forall name :: name in distributions ==> IsValidDistributionName(name)
    ensures forall i :: 0 <= i < |Published(distributions)| ==>
      ValidDistributionField(NameFields(distributions)[i]) && Text(NameFields(distributions)[i]) == Cut(distributions[i])
  {
    forall i | 0 <= i < |Published(distributions)|
      ensures ValidDistributionField(NameFields(distributions)[i]) && Text(NameFields(distributions)[i]) == Cut(distributions[i])
    {
      assert distributions[i] in distributions;
      NameFieldValid(distributions[i]);
    }
  }

  /**
   A message exists exactly for a volume name the preflight accepts; built from registered names, it
   passes every check of the driver, and what the driver stores are the names, cut to 127 units, of
   the first 32 distributions.
   */
  lemma MessageAccepted(up: u16 -> u16, mappings: FilterMappings, generation: nat)
    requires FoldsAsciiCase(up)
    requires forall name :: name in mappings.distributions ==> IsValidDistributionName(name)
    ensures MessageFor(mappings, generation).Some?
       <==> 0 < |Encode(mappings.volumeName)| < MAX_VOLUME_NAME && IsDeviceRoot(mappings.volumeName)
    ensures MessageFor(mappings, generation).Some? ==>
      var message := MessageFor(mappings, generation).value;
      && AcceptsMessage(up, message)
      && message.count == |Published(mappings.distributions)|
      && forall i :: 0 <= i < message.count ==> Text(message.distributions[i]) == Cut(mappings.distributions[i])
  {
    VolumeFits(mappings.volumeName);
    if IsDeviceRoot(mappings.volumeName) {
      DeviceRootHasNoNul(mappings.volumeName);
    }
    if MessageFor(mappings, generation).Some? {
      VolumeFieldValid(up, mappings.volumeName);
      NameFieldsValid(mappings.distributions);
    }
  }

  lemma DeviceRootHasNoNul(name: string)
    requires IsDeviceRoot(name)
    ensures NUL !in Encode(name)
  {
    DeviceFront(name);
    EncodeKeepsAllowed(name[8..]);
    forall i | 0 <= i < |Encode(name)| ensures Encode(name)[i] != NUL {
      assert i >= 8 ==> Encode(name)[i] == Encode(name)[8..][i - 8];
    }
  }
}
