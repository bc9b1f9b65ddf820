/**
 The create path of the minifilter (driver/fswfilter/fswfilter.c): splitting a volume-relative name into
 the namespace root, a distribution and a remainder, building the redirect target, and the gate in
 between.
 */
module NamespaceSplit {
  import opened Results
  import opened WideNames
  import opened DriverTable
  import opened DriverRuns
  import opened FilterDriver

  /** `fwdslash`. */
  const NAMESPACE_ROOT: Wide := [0x66, 0x77, 0x64, 0x73, 0x6C, 0x61, 0x73, 0x68]

  /** `\??\UNC\wsl.localhost\`. */
  const TARGET_PREFIX: Wide :=
    [0x5C, 0x3F, 0x3F, 0x5C, 0x55, 0x4E, 0x43, 0x5C,
     0x77, 0x73, 0x6C, 0x2E, 0x6C, 0x6F, 0x63, 0x61, 0x6C, 0x68, 0x6F, 0x73, 0x74, 0x5C]

  const MAXUSHORT: nat := 0xFFFF

  predicate AllSeparators(text: Wide) {
    forall i :: 0 <= i < |text| ==> text[i] == BACKSLASH
  }

  /** The text without its leading separators. */
  function Skipped(text: Wide): (rest: Wide)
    ensures |rest| <= |text|
    ensures rest != [] ==> rest[0] != BACKSLASH
  {
    if text != [] && text[0] == BACKSLASH then Skipped(text[1..]) else text
  }

  /** The length of the text's first component. */
  function ComponentLength(text: Wide): (length: nat)
    ensures length <= |text| && BACKSLASH !in text[..length]
    ensures length < |text| ==> text[length] == BACKSLASH
  {
    if text == [] || text[0] == BACKSLASH then 0
    else
      assert text == [text[0]] + text[1..];
      1 + ComponentLength(text[1..])
  }

  /** A remainder of separators alone is no remainder. */
  function Flattened(remainder: Wide): Wide {
    if AllSeparators(remainder) then [] else remainder
  }

  /** What FswSplitNamespace makes of a name. */
  function Split(up: u16 -> u16, name: Wide): Option<(Wide, Wide)> {
    var body := Skipped(name);
    var root := ComponentLength(body);
    if root == 0 || !EqualFolded(up, body[..root], NAMESPACE_ROOT) then None
    else
      var rest := Skipped(body[root..]);
      var length := ComponentLength(rest);
      if length == 0 || length > MAX_DISTRIBUTION_NAME - 1 then None
      else Some((rest[..length], Flattened(rest[length..])))
  }

  /** The loop over leading separators. */
  method SkipSeparators(text: Wide) returns (rest: Wide)
    ensures rest == Skipped(text)
  {
    rest := text;
    while rest != [] && rest[0] == BACKSLASH
      invariant Skipped(rest) == Skipped(text)
    {
      rest := rest[1..];
    }
  }

  /** The loop to the end of a component. */
  method FindSeparator(text: Wide) returns (index: nat)
    ensures index == ComponentLength(text)
  {
    index := 0;
    while index < |text| && text[index] != BACKSLASH
      invariant index <= |text| && BACKSLASH !in text[..index]
    {
      assert text[..index + 1] == text[..index] + [text[index]];
      index := index + 1;
    }
    ComponentIsFirst(text, index);
  }

  lemma {:induction false} ComponentIsFirst(text: Wide, length: nat)
    requires length <= |text| && BACKSLASH !in text[..length] && (length < |text| ==> text[length] == BACKSLASH)
    ensures ComponentLength(text) == length
  {
  }

  /** FswSplitNamespace. */
  method SplitNamespace(up: u16 -> u16, name: Wide) returns (split: Option<(Wide, Wide)>)
    ensures split == Split(up, name)
  {
    var body := SkipSeparators(name);
    if body == [] {
      return None;
    }
    var index := FindSeparator(body);
    if index == 0 || !EqualFolded(up, body[..index], NAMESPACE_ROOT) {
      return None;
    }
    body := SkipSeparators(body[index..]);
    if body == [] {
      return None;
    }
    index := FindSeparator(body);
    if index == 0 || index > MAX_DISTRIBUTION_NAME - 1 {
      return None;
    }
    var distribution := body[..index];
    var remainder := body[index..];
    var i := 0;
    while i < |remainder|
      invariant i <= |remainder|
      invariant forall k :: 0 <= k < i ==> remainder[k] == BACKSLASH
    {
      if remainder[i] != BACKSLASH {
        return Some((distribution, remainder));
      }
      i := i + 1;
    }
    return Some((distribution, []));
  }

  /** A distribution component and what follows it. */
  predicate IsTail(distribution: Wide, tail: Wide) {
    && 0 < |distribution| < MAX_DISTRIBUTION_NAME && BACKSLASH !in distribution
    && (tail != [] ==> tail[0] == BACKSLASH)
  }

  /** The name reads: separators, the namespace root in any casing, separators, the distribution, the tail. */
  predicate Reads(up: u16 -> u16, name: Wide, lead: Wide, root: Wide, gap: Wide, distribution: Wide, tail: Wide) {
    && name == lead + (root + (gap + (distribution + tail)))
    && AllSeparators(lead) && AllSeparators(gap) && gap != []
    && BACKSLASH !in root && EqualFolded(up, root, NAMESPACE_ROOT)
    && IsTail(distribution, tail)
  }

  lemma {:induction false} SkipLead(lead: Wide, rest: Wide)
    requires AllSeparators(lead) && (rest != [] ==> rest[0] != BACKSLASH)
    ensures Skipped(lead + rest) == rest
  {
    if lead == [] {
      assert lead + rest == rest;
    } else {
      SkipLead(lead[1..], rest);
      assert (lead + rest)[1..] == lead[1..] + rest;
    }
  }

  lemma OneMoreSeparator(text: Wide, others: Wide, rest: Wide, n: nat)
    requires text != [] && text[0] == BACKSLASH && others == text[1..] && 1 <= n <= |text|
    requires AllSeparators(others[..n - 1]) && others == others[..n - 1] + rest
    ensures AllSeparators(text[..n]) && text == text[..n] + rest
  {
    assert text[..n] == [text[0]] + others[..n - 1];
    assert text == [text[0]] + others;
  }

  /** What skipping leaves behind is separators. */
  lemma {:induction false} SkippedLead(text: Wide)
    ensures var n := |text| - |Skipped(text)|; AllSeparators(text[..n]) && text == text[..n] + Skipped(text)
  {
    if text != [] && text[0] == BACKSLASH {
      SkippedLead(text[1..]);
      OneMoreSeparator(text, text[1..], Skipped(text), |text| - |Skipped(text)|);
    } else {
      assert text == text[..0] + text;
    }
  }

  lemma ComponentOf(component: Wide, rest: Wide)
    requires BACKSLASH !in component && (rest != [] ==> rest[0] == BACKSLASH)
    ensures ComponentLength(component + rest) == |component|
    ensures (component + rest)[..|component|] == component && (component + rest)[|component|..] == rest
  {
  }

  /** Every name that reads that way is split into its distribution and its tail. */
  lemma ReadsSplits(up: u16 -> u16, name: Wide, lead: Wide, root: Wide, gap: Wide, distribution: Wide, tail: Wide)
    requires Reads(up, name, lead, root, gap, distribution, tail)
    ensures Split(up, name) == Some((distribution, Flattened(tail)))
  {
    var last := distribution + tail;
    var middle := gap + last;
    assert root[0] in root && (root + middle)[0] == root[0];
    SkipLead(lead, root + middle);
    assert middle[0] == gap[0];
    ComponentOf(root, middle);
    assert distribution[0] in distribution && last[0] == distribution[0];
    SkipLead(gap, last);
    ComponentOf(distribution, tail);
  }

  /** And only those. */
  lemma SplitReads(up: u16 -> u16, name: Wide) returns (lead: Wide, root: Wide, gap: Wide, tail: Wide)
    requires Split(up, name).Some?
    ensures Reads(up, name, lead, root, gap, Split(up, name).value.0, tail)
    ensures Split(up, name).value.1 == Flattened(tail)
  {
    var body := Skipped(name);
    var n := ComponentLength(body);
    var rest := Skipped(body[n..]);
    var m := ComponentLength(rest);
    SkippedLead(name);
    SkippedLead(body[n..]);
    lead, root := name[..|name| - |body|], body[..n];
    gap, tail := body[n..][..|body[n..]| - |rest|], rest[m..];
    CutInTwo(body, n);
    CutInTwo(rest, m);
    SomeGap(body[n..], rest, gap);
  }

  lemma CutInTwo(text: Wide, n: nat)
    requires n <= |text|
    ensures text == text[..n] + text[n..]
  {
  }

  lemma SomeGap(text: Wide, rest: Wide, gap: Wide)
    requires text == gap + rest && rest != [] && rest[0] != BACKSLASH && (text != [] ==> text[0] == BACKSLASH)
    ensures gap != []
  {
  }

  /** Some reading of the name gives this distribution and remainder. */
  ghost predicate CanRead(up: u16 -> u16, name: Wide, distribution: Wide, remainder: Wide) {
    exists lead, root, gap, tail ::
      Reads(up, name, lead, root, gap, distribution, tail) && remainder == Flattened(tail)
  }

  /** FswSplitNamespace answers exactly for the names of the namespace, with the one reading they have. */
  lemma SplitIsExact(up: u16 -> u16, name: Wide, distribution: Wide, remainder: Wide)
    ensures Split(up, name) == Some((distribution, remainder)) <==> CanRead(up, name, distribution, remainder)
  {
    if Split(up, name) == Some((distribution, remainder)) {
      var lead, root, gap, tail := SplitReads(up, name);
    }
    if CanRead(up, name, distribution, remainder) {
      var lead, root, gap, tail :|
        Reads(up, name, lead, root, gap, distribution, tail) && remainder == Flattened(tail);
      ReadsSplits(up, name, lead, root, gap, distribution, tail);
    }
  }

  /** The bytes of a target name and its terminator. */
  function TargetBytes(distribution: Wide, remainder: Wide): nat {
    2 * (|TARGET_PREFIX| + |distribution| + |remainder| + 1)
  }

  function Target(distribution: Wide, remainder: Wide): Wide {
    TARGET_PREFIX + distribution + remainder
  }

  datatype BuildStatus = Built(target: Wide) | NameTooLong | NoMemory

  /** FswBuildTargetName, given whether the allocation succeeds. */
  method BuildTargetName(distribution: Wide, remainder: Wide, havePool: bool) returns (status: BuildStatus)
    ensures status ==
      if TargetBytes(distribution, remainder) > MAXUSHORT then NameTooLong
      else if !havePool then NoMemory
      else Built(Target(distribution, remainder))
  {
    var required := 2 * |TARGET_PREFIX| + 2 * |distribution| + 2 * |remainder| + 2;
    if required > MAXUSHORT {
      return NameTooLong;
    }
    if !havePool {
      return NoMemory;
    }
    var name: Wide := [];
    name := name + TARGET_PREFIX;
    name := name + distribution;
    name := name + remainder;
    return Built(name);
  }

  /** A target determines the distribution and the remainder it was built from. */
  lemma TargetIsInjective(first: Wide, firstTail: Wide, second: Wide, secondTail: Wide)
    requires IsTail(first, firstTail) && IsTail(second, secondTail)
    requires Target(first, firstTail) == Target(second, secondTail)
    ensures first == second && firstTail == secondTail
  {
    var n := |TARGET_PREFIX|;
    assert Target(first, firstTail)[n..] == first + firstTail;
    assert Target(second, secondTail)[n..] == second + secondTail;
    ComponentOf(first, firstTail);
    ComponentOf(second, secondTail);
  }

  /** The remainder of a split is empty or starts at a separator. */
  lemma SplitTail(up: u16 -> u16, name: Wide)
    requires Split(up, name).Some?
    ensures IsTail(Split(up, name).value.0, Split(up, name).value.1)
  {
  }

  /**
   Where FswPreCreate sends a create: nowhere (it passes through), or to a target. The two lookups take
   the lock separately, so each sees its own table.
   */
  function Redirect(up: u16 -> u16, gate: Table, owners: Table, identity: Option<Identity>, volume: Wide, name: Wide)
      : Option<Wide>
  {
    match Split(up, name)
    case None => None
    case Some((distribution, remainder)) =>
      if !IsCandidate(up, gate, distribution) then None
      else if identity.None? || !OwnsDistribution(up, owners, identity.value, volume, distribution) then None
      else if TargetBytes(distribution, remainder) > MAXUSHORT then None
      else Some(Target(distribution, remainder))
  }

  /**
   FswPreCreate from the parsed name on; `identity` is None for an ineligible requestor. A failed
   allocation or name replacement passes the create through.
   */
  method PreCreate(filter: Filter, identity: Option<Identity>, volume: Wide, name: Wide, havePool: bool, replaced: bool)
      returns (target: Option<Wide>)
    requires filter.Valid()
    ensures target == if havePool && replaced
                      then Redirect(filter.upcase, filter.Contents(), filter.Contents(), identity, volume, name)
                      else None
  {
    var split := SplitNamespace(filter.upcase, name);
    if split.None? {
      return None;
    }
    var (distribution, remainder) := split.value;
    var candidate := filter.IsCandidateDistribution(distribution);
    if !candidate || identity.None? {
      return None;
    }
    var owns := filter.Owns(identity.value, volume, distribution);
    if !owns {
      return None;
    }
    var built := BuildTargetName(distribution, remainder, havePool);
    if !built.Built? || !replaced {
      return None;
    }
    return Some(built.target);
  }

  /** Some slot of the table gives the requestor the component. */
  predicate GrantedBySome(up: u16 -> u16, table: Table, identity: Identity, volume: Wide, component: Wide)
    requires |table.slots| == MAX_SESSIONS
  {
    exists i :: 0 <= i < MAX_SESSIONS && Grants(up, table.slots[i], identity, volume, component)
  }

  /** The name means that distribution and remainder, the requestor owns it, and the target fits. */
  ghost predicate Means(up: u16 -> u16, table: Table, identity: Identity, volume: Wide, name: Wide, target: Wide,
                        distribution: Wide, remainder: Wide)
    requires |table.slots| == MAX_SESSIONS
  {
    && CanRead(up, name, distribution, remainder)
    && GrantedBySome(up, table, identity, volume, distribution)
    && TargetBytes(distribution, remainder) <= MAXUSHORT
    && target == Target(distribution, remainder)
  }

  /**
   In every reachable table a create is redirected exactly when its name reads as one of the namespace
   and some slot grants the requestor that distribution on that volume: the cheap gate in front of the
   identity query loses no redirect.
   */
  lemma RedirectIsExact(up: u16 -> u16, w: World, identity: Identity, volume: Wide, name: Wide, target: Wide)
    requires Inv(up, w)
    ensures Redirect(up, w.table, w.table, Some(identity), volume, name) == Some(target)
       <==> exists distribution, remainder :: Means(up, w.table, identity, volume, name, target, distribution, remainder)
  {
    if Redirect(up, w.table, w.table, Some(identity), volume, name) == Some(target) {
      var (distribution, remainder) := Split(up, name).value;
      SplitIsExact(up, name, distribution, remainder);
      FirstMatchAnswersForAll(up, w, identity, volume, distribution);
      assert Means(up, w.table, identity, volume, name, target, distribution, remainder);
    }
    if exists distribution, remainder :: Means(up, w.table, identity, volume, name, target, distribution, remainder) {
      var distribution, remainder :| Means(up, w.table, identity, volume, name, target, distribution, remainder);
      SplitIsExact(up, name, distribution, remainder);
      FirstMatchAnswersForAll(up, w, identity, volume, distribution);
    }
  }
}
