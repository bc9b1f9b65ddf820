/**
 The fixed UTF-16 fields of the filter protocol (include/fsw_filter_protocol.h) and the driver's
 validity rules for them.
 */
module WideNames {

  type u16 = unit: int | 0 <= unit < 0x1_0000

  type Wide = seq<u16>

  const MAX_DISTRIBUTIONS: nat := 32
  const MAX_DISTRIBUTION_NAME: nat := 128
  const MAX_VOLUME_NAME: nat := 128

  const NUL: u16 := 0
  const BACKSLASH: u16 := 0x5C
  const DOT: u16 := 0x2E

  /** The units of `\Device\`. */
  const DEVICE_PREFIX: Wide := [0x5C, 0x44, 0x65, 0x76, 0x69, 0x63, 0x65, 0x5C]

  /** A unit no name may hold: a separator, a colon, or anything below a space (NUL included). */
  predicate IsForbiddenUnit(unit: u16) {
    unit == 0x5C || unit == 0x2F || unit == 0x3A || unit < 0x20
  }

  predicate AllAllowed(text: Wide) {
    forall i :: 0 <= i < |text| ==> !IsForbiddenUnit(text[i])
  }

  /** The text a NUL-terminated field carries. */
  function Text(field: Wide): (text: Wide)
    ensures |text| <= |field| && text == field[..|text|]
    ensures NUL !in text
    ensures |text| < |field| ==> field[|text|] == NUL
  {
    if field == [] || field[0] == NUL then [] else [field[0]] + Text(field[1..])
  }

  /** Text is the only NUL-free prefix that ends at a NUL or fills the field. */
  lemma {:induction false} TextUnique(field: Wide, text: Wide)
    requires text <= field && NUL !in text
    requires |text| < |field| ==> field[|text|] == NUL
    ensures Text(field) == text
  {
  }

  /** A distribution name the driver accepts, as text. */
  predicate ValidDistributionText(text: Wide) {
    && 0 < |text| < MAX_DISTRIBUTION_NAME
    && AllAllowed(text)
    && text != [DOT]
    && text != [DOT, DOT]
  }

  predicate ValidDistributionField(field: Wide) {
    |field| == MAX_DISTRIBUTION_NAME && ValidDistributionText(Text(field))
  }

  /** Units equal under a case-folding map, in lockstep. */
  predicate EqualFolded(up: u16 -> u16, left: Wide, right: Wide) {
    |left| == |right| && forall i :: 0 <= i < |left| ==> up(left[i]) == up(right[i])
  }

  /** A volume name the driver accepts: `\Device\` and one terminated, separator-free component. */
  predicate ValidVolumeField(up: u16 -> u16, field: Wide) {
    && |field| == MAX_VOLUME_NAME
    && EqualFolded(up, DEVICE_PREFIX, field[..|DEVICE_PREFIX|])
    && var root := Text(field[|DEVICE_PREFIX|..]);
       && 0 < |root| < MAX_VOLUME_NAME - |DEVICE_PREFIX|
       && AllAllowed(root)
  }
}
