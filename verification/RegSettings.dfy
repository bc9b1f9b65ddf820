/**
 The settings key in two hives (crates/fsw-core/src/settings_write.rs): dual writes, deletes and the
 self-heal that mirrors a packaged process's view into the real hive. A hive is the list of values
 `reg query` would print; which child processes succeed is given.
 */
module RegSettings {
  import opened Results
  import opened Ascii
  import opened RegText
  import opened RegNumbers
  import opened RegShown

  type Hive = seq<(string, RawSetting)>
  type Merged = seq<(string, SettingValue)>

  /** The first value of that name, in any casing. */
  function Lookup(hive: Hive, name: string): Option<RawSetting> {
    if hive == [] then None
    else if EqualIgnoringCase(hive[0].0, name) then Some(hive[0].1)
    else Lookup(hive[1..], name)
  }

  /** Writing a value: the stored spelling of an existing name stays. */
  function Written(hive: Hive, name: string, raw: RawSetting): Hive {
    if hive == [] then [(name, raw)]
    else if EqualIgnoringCase(hive[0].0, name) then [(hive[0].0, raw)] + hive[1..]
    else [hive[0]] + Written(hive[1..], name, raw)
  }

  function Removed(hive: Hive, name: string): Hive {
    if hive == [] then []
    else if EqualIgnoringCase(hive[0].0, name) then Removed(hive[1..], name)
    else [hive[0]] + Removed(hive[1..], name)
  }

  /** A packaged reader sees the package hive over the real one. */
  function MergedLookup(packageHive: Hive, realHive: Hive, name: string): Option<RawSetting> {
    if Lookup(packageHive, name).Some? then Lookup(packageHive, name) else Lookup(realHive, name)
  }

  lemma {:induction false} LookupWritten(hive: Hive, name: string, raw: RawSetting, asked: string)
    ensures Lookup(Written(hive, name, raw), asked)
         == if EqualIgnoringCase(name, asked) then Some(raw) else Lookup(hive, asked)
  {
    if hive != [] {
      if EqualIgnoringCase(hive[0].0, name) {
        assert Written(hive, name, raw)[1..] == hive[1..];
      } else {
        LookupWritten(hive[1..], name, raw, asked);
        assert Written(hive, name, raw)[1..] == Written(hive[1..], name, raw);
      }
    }
  }

  lemma {:induction false} LookupRemoved(hive: Hive, name: string, asked: string)
    ensures Lookup(Removed(hive, name), asked)
         == if EqualIgnoringCase(name, asked) then None else Lookup(hive, asked)
  {
    if hive != [] {
      LookupRemoved(hive[1..], name, asked);
      if !EqualIgnoringCase(hive[0].0, name) {
        assert Removed(hive, name)[1..] == Removed(hive[1..], name);
      }
    }
  }

  /** sync_plan: the names the real hive lacks or holds differently, in order. */
  function SyncPlan(merged: Merged, realHive: Hive): seq<string> {
    if merged == [] then []
    else
      var (name, value) := merged[0];
      var raw := Lookup(realHive, name);
      (if raw.Some? && value.MatchesRaw(raw.value) then [] else [name]) + SyncPlan(merged[1..], realHive)
  }

  /** The value the sync writes for a planned name. */
  function ValueFor(merged: Merged, name: string): Option<SettingValue> {
    if merged == [] then None else if merged[0].0 == name then Some(merged[0].1) else ValueFor(merged[1..], name)
  }

  /** The hive after the writes of a plan, of which those that land change it. */
  function Mirrored(realHive: Hive, merged: Merged, plan: seq<string>, lands: string -> bool): Hive {
    if plan == [] then realHive
    else
      var before := Mirrored(realHive, merged, plan[..|plan| - 1], lands);
      var name := plan[|plan| - 1];
      if ValueFor(merged, name).Some? && lands(name) then Written(before, name, ValueFor(merged, name).value.Rendered())
      else before
  }

  predicate AnyWritten(merged: Merged, plan: seq<string>, lands: string -> bool) {
    exists i :: 0 <= i < |plan| && ValueFor(merged, plan[i]).Some? && lands(plan[i])
  }

  lemma OneMoreWritten(merged: Merged, plan: seq<string>, name: string, lands: string -> bool)
    ensures AnyWritten(merged, plan + [name], lands)
       <==> AnyWritten(merged, plan, lands) || (ValueFor(merged, name).Some? && lands(name))
  {
    assert (plan + [name])[|plan|] == name;
    assert forall i :: 0 <= i < |plan| ==> (plan + [name])[i] == plan[i];
  }

  /** What a child `reg query` of the key is read as; a query that fails reads as an empty key. */
  function Queried(header: string, hive: Hive, answered: bool): Hive {
    if answered then ValuesOf(Lines(PrintedQuery(header, hive))) else []
  }

  /** What a query for one name is read as. */
  function QueriedValue(header: string, hive: Hive, name: string, answered: bool): Option<RawSetting> {
    var raw := Lookup(hive, name);
    Lookup(Queried(header, if raw.Some? then [(name, raw.value)] else [], answered), name)
  }

  /** Both hives after an operation, and whether it reported success. */
  datatype Hives = Hives(realHive: Hive, packageHive: Hive, ok: bool)

  /** A packaged delete: a child asks and deletes in the real hive, the process itself in what it sees. */
  function Deleted(header: string, realHive: Hive, packageHive: Hive, name: string,
                   answered: bool, realLands: bool, ownLands: bool): Hives
  {
    var found := QueriedValue(header, realHive, name, answered).Some?;
    var realAfter := if found && realLands then Removed(realHive, name) else realHive;
    var visible := MergedLookup(packageHive, realAfter, name).Some?;
    Hives(realAfter,
          if visible && ownLands then Removed(packageHive, name) else packageHive,
          (found ==> realLands) && (visible ==> ownLands))
  }

  /** Unpackaged, the one hive there is. */
  function DeletedUnpackaged(realHive: Hive, packageHive: Hive, name: string, ownLands: bool): Hives {
    var visible := Lookup(realHive, name).Some?;
    Hives(if visible && ownLands then Removed(realHive, name) else realHive, packageHive, visible ==> ownLands)
  }

  class Settings {
    const header: string
    var realHive: Hive
    var packageHive: Hive

    constructor (header: string, realHive: Hive, packageHive: Hive)
      ensures this.header == header && this.realHive == realHive && this.packageHive == packageHive
    {
      this.header := header;
      this.realHive := realHive;
      this.packageHive := packageHive;
    }

    /** set_setting: unpackaged, the one hive there is; packaged, both, whatever the first write does. */
    method SetSetting(packaged: bool, name: string, value: SettingValue, realLands: bool, ownLands: bool) returns (ok: bool)
      modifies this
      ensures ok == (ownLands && (packaged ==> realLands))
      ensures realHive == if (if packaged then realLands else ownLands)
                          then Written(old(realHive), name, value.Rendered()) else old(realHive)
      ensures packageHive == if packaged && ownLands
                             then Written(old(packageHive), name, value.Rendered()) else old(packageHive)
    {
      if !packaged {
        if ownLands {
          realHive := Written(realHive, name, value.Rendered());
        }
        return ownLands;
      }
      if realLands {
        realHive := Written(realHive, name, value.Rendered());
      }
      if ownLands {
        packageHive := Written(packageHive, name, value.Rendered());
      }
      ok := realLands && ownLands;
    }

    /** delete_setting: in each hive the value is asked for first, and an absent one is success. */
    method DeleteSetting(packaged: bool, name: string, answered: bool, realLands: bool, ownLands: bool) returns (ok: bool)
      modifies this
      ensures Hives(realHive, packageHive, ok)
           == if packaged then Deleted(header, old(realHive), old(packageHive), name, answered, realLands, ownLands)
              else DeletedUnpackaged(old(realHive), old(packageHive), name, ownLands)
    {
      if !packaged {
        if Lookup(realHive, name).None? {
          return true;
        }
        if ownLands {
          realHive := Removed(realHive, name);
        }
        return ownLands;
      }
      var realGone := true;
      if QueriedValue(header, realHive, name, answered).Some? {
        realGone := realLands;
        if realLands {
          realHive := Removed(realHive, name);
        }
      }
      var ownGone := true;
      if MergedLookup(packageHive, realHive, name).Some? {
        ownGone := ownLands;
        if ownLands {
          packageHive := Removed(packageHive, name);
        }
      }
      ok := realGone && ownGone;
    }

    /** sync_settings_to_real_hive, given the merged view, whether the query answers and which writes land. */
    method SyncToRealHive(merged: Merged, answered: bool, lands: string -> bool) returns (wrote: bool)
      modifies this`realHive
      ensures var plan := SyncPlan(merged, Queried(header, old(realHive), answered));
              realHive == Mirrored(old(realHive), merged, plan, lands) && wrote == AnyWritten(merged, plan, lands)
    {
      wrote := false;
      if merged == [] {
        return;
      }
      wrote := WritePlanned(merged, SyncPlan(merged, Queried(header, realHive, answered)), lands);
    }

    /** The loop over the planned names: a write that fails leaves the others to be attempted. */
    method WritePlanned(merged: Merged, plan: seq<string>, lands: string -> bool) returns (wrote: bool)
      modifies this`realHive
      ensures realHive == Mirrored(old(realHive), merged, plan, lands) && wrote == AnyWritten(merged, plan, lands)
    {
      wrote := false;
      for i := 0 to |plan|
        invariant realHive == Mirrored(old(realHive), merged, plan[..i], lands)
        invariant wrote == AnyWritten(merged, plan[..i], lands)
      {
        assert plan[..i + 1] == plan[..i] + [plan[i]];
        assert plan[..i + 1][..i] == plan[..i];
        OneMoreWritten(merged, plan[..i], plan[i], lands);
        var value := ValueFor(merged, plan[i]);
        if value.Some? && lands(plan[i]) {
          realHive := Written(realHive, plan[i], value.value.Rendered());
          wrote := true;
        }
      }
      assert plan[..|plan|] == plan;
    }
  }

  /** No two names are the same in another casing. */
  predicate AreDistinct(merged: Merged) {
    forall i, j :: 0 <= i < j < |merged| ==> !EqualIgnoringCase(merged[i].0, merged[j].0)
  }

  /** The real hive holds the value under the name. */
  predicate Holds(hive: Hive, name: string, value: SettingValue) {
    Lookup(hive, name).Some? && value.MatchesRaw(Lookup(hive, name).value)
  }

  /** A name is planned exactly when the hive the plan saw does not hold its value. */
  lemma {:induction false} PlanIsExact(merged: Merged, seen: Hive, i: nat)
    requires AreDistinct(merged) && i < |merged|
    ensures merged[i].0 in SyncPlan(merged, seen) <==> !Holds(seen, merged[i].0, merged[i].1)
    ensures ValueFor(merged, merged[i].0) == Some(merged[i].1)
  {
    var rest := SyncPlan(merged[1..], seen);
    if i > 0 {
      assert !EqualIgnoringCase(merged[0].0, merged[i].0);
      PlanIsExact(merged[1..], seen, i - 1);
    } else {
      PlanNamesAreMerged(merged[1..], seen);
      forall name | name in rest ensures name != merged[0].0 {
        var j :| 0 <= j < |merged[1..]| && merged[1..][j].0 == name;
        assert !EqualIgnoringCase(merged[0].0, merged[j + 1].0);
      }
    }
  }

  lemma {:induction false} PlanNamesAreMerged(merged: Merged, seen: Hive)
    ensures forall name :: name in SyncPlan(merged, seen) ==> exists j :: 0 <= j < |merged| && merged[j].0 == name
  {
    if merged != [] {
      PlanNamesAreMerged(merged[1..], seen);
      forall name | name in SyncPlan(merged, seen) ensures exists j :: 0 <= j < |merged| && merged[j].0 == name {
        if name in SyncPlan(merged[1..], seen) {
          var j :| 0 <= j < |merged[1..]| && merged[1..][j].0 == name;
          assert merged[j + 1].0 == name;
        } else {
          assert merged[0].0 == name;
        }
      }
    }
  }

  /** Names of the merged view. */
  predicate FromMerged(merged: Merged, plan: seq<string>) {
    forall k :: 0 <= k < |plan| ==> exists j :: 0 <= j < |merged| && merged[j].0 == plan[k]
  }

  lemma PlanIsFromMerged(merged: Merged, seen: Hive)
    ensures FromMerged(merged, SyncPlan(merged, seen))
  {
  }

  /** What a synced name holds afterwards. */
  lemma {:induction false} MirroredLookup(realHive: Hive, merged: Merged, plan: seq<string>, lands: string -> bool, i: nat)
    requires AreDistinct(merged) && FromMerged(merged, plan) && i < |merged|
    requires ValueFor(merged, merged[i].0) == Some(merged[i].1)
    ensures Lookup(Mirrored(realHive, merged, plan, lands), merged[i].0)
         == if merged[i].0 in plan && lands(merged[i].0) then Some(merged[i].1.Rendered()) else Lookup(realHive, merged[i].0)
  {
    if plan != [] {
      var n := |plan| - 1;
      MirroredLookup(realHive, merged, plan[..n], lands, i);
      assert plan == plan[..n] + [plan[n]];
      var j :| 0 <= j < |merged| && merged[j].0 == plan[n];
      if i != j {
        Apart(merged, i, j);
      }
      if ValueFor(merged, plan[n]).Some? {
        var raw := ValueFor(merged, plan[n]).value.Rendered();
        LookupWritten(Mirrored(realHive, merged, plan[..n], lands), plan[n], raw, merged[i].0);
      }
    }
  }

  lemma Apart(merged: Merged, i: nat, j: nat)
    requires AreDistinct(merged) && i < |merged| && j < |merged| && i != j
    ensures !EqualIgnoringCase(merged[j].0, merged[i].0) && merged[i].0 != merged[j].0
  {
  }

  /** A name the merged view does not hold keeps what it had. */
  lemma {:induction false} ForeignKept(realHive: Hive, merged: Merged, plan: seq<string>, lands: string -> bool, name: string)
    requires forall k :: 0 <= k < |plan| ==> !EqualIgnoringCase(plan[k], name)
    ensures Lookup(Mirrored(realHive, merged, plan, lands), name) == Lookup(realHive, name)
  {
    if plan != [] {
      var n := |plan| - 1;
      ForeignKept(realHive, merged, plan[..n], lands, name);
      if ValueFor(merged, plan[n]).Some? {
        var raw := ValueFor(merged, plan[n]).value.Rendered();
        LookupWritten(Mirrored(realHive, merged, plan[..n], lands), plan[n], raw, name);
      }
    }
  }

  /** A sync deletes nothing. */
  lemma {:induction false} NothingDeleted(realHive: Hive, merged: Merged, plan: seq<string>, lands: string -> bool, name: string)
    requires Lookup(realHive, name).Some?
    ensures Lookup(Mirrored(realHive, merged, plan, lands), name).Some?
  {
    if plan != [] {
      var n := |plan| - 1;
      NothingDeleted(realHive, merged, plan[..n], lands, name);
      if ValueFor(merged, plan[n]).Some? {
        var raw := ValueFor(merged, plan[n]).value.Rendered();
        LookupWritten(Mirrored(realHive, merged, plan[..n], lands), plan[n], raw, name);
      }
    }
  }

  /** Values that print one to a line and read back as themselves. */
  predicate IsReadable(hive: Hive) {
    AllOneLine(hive) && AllPlainNames(hive)
  }

  predicate AreInRange(merged: Merged) {
    forall i :: 0 <= i < |merged| ==> merged[i].1.InRange()
  }

  /** The hive after a sync. */
  function Synced(header: string, realHive: Hive, merged: Merged, answered: bool, lands: string -> bool): Hive {
    Mirrored(realHive, merged, SyncPlan(merged, Queried(header, realHive, answered)), lands)
  }

  predicate IsHeader(header: string) {
    ' ' !in header && '\n' !in header
  }

  /**
   After a sync the real hive holds a synced value exactly if it already did, or if the hive read back
   did not show it and its write landed: for every hive, whatever it holds.
   */
  lemma SyncOutcome(header: string, realHive: Hive, merged: Merged, answered: bool, lands: string -> bool, i: nat)
    requires AreDistinct(merged) && AreInRange(merged) && i < |merged|
    ensures Holds(Synced(header, realHive, merged, answered, lands), merged[i].0, merged[i].1)
       <==> || Holds(realHive, merged[i].0, merged[i].1)
            || (lands(merged[i].0) && !Holds(Queried(header, realHive, answered), merged[i].0, merged[i].1))
  {
    var seen := Queried(header, realHive, answered);
    var (name, value) := merged[i];
    PlanIsExact(merged, seen, i);
    PlanIsFromMerged(merged, seen);
    MirroredLookup(realHive, merged, SyncPlan(merged, seen), lands, i);
    RenderedMatches(value, value);
  }

  /** A hive whose values print one to a line is read back as it is, so then the landed writes decide. */
  lemma ReadableSyncOutcome(header: string, realHive: Hive, merged: Merged, answered: bool, lands: string -> bool, i: nat)
    requires IsHeader(header) && IsReadable(realHive) && AreDistinct(merged) && AreInRange(merged) && i < |merged|
    ensures Holds(Synced(header, realHive, merged, answered, lands), merged[i].0, merged[i].1)
       <==> Holds(realHive, merged[i].0, merged[i].1) || lands(merged[i].0)
  {
    QueryRoundTrip(header, realHive);
    SyncOutcome(header, realHive, merged, answered, lands, i);
  }

  /** A sync reports a write exactly if some value the hive read back did not show was written. */
  lemma WroteIsExact(merged: Merged, seen: Hive, lands: string -> bool)
    requires AreDistinct(merged)
    ensures AnyWritten(merged, SyncPlan(merged, seen), lands)
       <==> exists i :: 0 <= i < |merged| && !Holds(seen, merged[i].0, merged[i].1) && lands(merged[i].0)
  {
    var plan := SyncPlan(merged, seen);
    if AnyWritten(merged, plan, lands) {
      var k :| 0 <= k < |plan| && ValueFor(merged, plan[k]).Some? && lands(plan[k]);
      PlanIsFromMerged(merged, seen);
      var i :| 0 <= i < |merged| && merged[i].0 == plan[k];
      PlanIsExact(merged, seen, i);
      assert merged[i].0 in plan;
    }
    if exists i :: 0 <= i < |merged| && !Holds(seen, merged[i].0, merged[i].1) && lands(merged[i].0) {
      var i :| 0 <= i < |merged| && !Holds(seen, merged[i].0, merged[i].1) && lands(merged[i].0);
      PlanIsExact(merged, seen, i);
      var k :| 0 <= k < |plan| && plan[k] == merged[i].0;
    }
  }

  /** Unpackaged, a delete clears the one hive unless it fails, and that is what it reports. */
  lemma UnpackagedDelete(realHive: Hive, packageHive: Hive, name: string, ownLands: bool)
    ensures var after := DeletedUnpackaged(realHive, packageHive, name, ownLands);
            && (after.ok <==> Lookup(after.realHive, name).None?)
            && (after.ok <==> Lookup(realHive, name).None? || ownLands)
            && after.packageHive == packageHive
  {
    LookupRemoved(realHive, name, name);
  }

  lemma SyncTouchesOnlyMerged(header: string, realHive: Hive, merged: Merged, answered: bool, lands: string -> bool, name: string)
    ensures Lookup(realHive, name).Some? ==> Lookup(Synced(header, realHive, merged, answered, lands), name).Some?
    ensures (forall j :: 0 <= j < |merged| ==> !EqualIgnoringCase(merged[j].0, name)) ==>
      Lookup(Synced(header, realHive, merged, answered, lands), name) == Lookup(realHive, name)
  {
    var seen := Queried(header, realHive, answered);
    var plan := SyncPlan(merged, seen);
    if Lookup(realHive, name).Some? {
      NothingDeleted(realHive, merged, plan, lands, name);
    }
    if forall j :: 0 <= j < |merged| ==> !EqualIgnoringCase(merged[j].0, name) {
      PlanIsFromMerged(merged, seen);
      ForeignKept(realHive, merged, plan, lands, name);
    }
  }

  predicate HasLineFeed(value: SettingValue) {
    value.Sz? && '\n' in value.text
  }

  /** Nothing read from a query holds a line feed. */
  lemma {:induction false} QueriedData(header: string, hive: Hive, answered: bool)
    ensures forall k :: 0 <= k < |Queried(header, hive, answered)| ==> '\n' !in Queried(header, hive, answered)[k].1.data
  {
    if answered {
      LinesHoldNoFeed(PrintedQuery(header, hive));
      ValuesHoldNoFeed(Lines(PrintedQuery(header, hive)));
    }
  }

  lemma {:induction false} LinesHoldNoFeed(text: string)
    ensures forall k :: 0 <= k < |Lines(text)| ==> '\n' !in Lines(text)[k]
    decreases |text|
  {
    var found := FindText(text, "\n");
    if text != "" && found.Some? {
      LinesHoldNoFeed(text[found.value + 1..]);
    }
    forall i | 0 <= i < |text| && text[i] == '\n' ensures OccursAt(text, "\n", i) {
      assert text[i..i + 1] == "\n";
    }
  }

  lemma {:induction false} ValuesHoldNoFeed(lines: seq<string>)
    requires forall k :: 0 <= k < |lines| ==> '\n' !in lines[k]
    ensures forall k :: 0 <= k < |ValuesOf(lines)| ==> '\n' !in ValuesOf(lines)[k].1.data
  {
    if lines != [] {
      ValuesHoldNoFeed(lines[1..]);
      var best := BestCut(lines[0], REG_TYPES);
      if best.Some? {
        var from := best.value.at + best.value.consumed;
        assert forall i :: from <= i < |lines[0]| ==> lines[0][i] in lines[0];
      }
    }
  }

  lemma {:induction false} LookupIsEntry(hive: Hive, name: string)
    requires Lookup(hive, name).Some?
    ensures exists k :: 0 <= k < |hive| && hive[k].1 == Lookup(hive, name).value
  {
    if EqualIgnoringCase(hive[0].0, name) {
      assert hive[0].1 == Lookup(hive, name).value;
    } else {
      LookupIsEntry(hive[1..], name);
      var k :| 0 <= k < |hive[1..]| && hive[1..][k].1 == Lookup(hive, name).value;
      assert hive[k + 1] == hive[1..][k];
    }
  }

  /** A text with a line feed is never seen as stored: every later sync plans it again. */
  lemma LineFeedIsAlwaysPlanned(header: string, hive: Hive, merged: Merged, i: nat)
    requires AreDistinct(merged) && i < |merged| && HasLineFeed(merged[i].1)
    ensures merged[i].0 in SyncPlan(merged, Queried(header, hive, true))
  {
    var seen := Queried(header, hive, true);
    QueriedData(header, hive, true);
    PlanIsExact(merged, seen, i);
    if Lookup(seen, merged[i].0).Some? {
      LookupIsEntry(seen, merged[i].0);
    }
  }

  lemma {:induction false} EmptyPlan(merged: Merged, seen: Hive)
    ensures SyncPlan(merged, seen) == [] <==> forall i :: 0 <= i < |merged| ==> Holds(seen, merged[i].0, merged[i].1)
  {
    if merged != [] {
      EmptyPlan(merged[1..], seen);
      assert forall i :: 1 <= i < |merged| ==> merged[i] == merged[1..][i - 1];
      assert forall i :: 0 <= i < |merged[1..]| ==> merged[1..][i] == merged[i + 1];
    }
  }

  /** After a dual write that reports success both views answer alike; other names keep theirs. */
  lemma DualWriteAgrees(realHive: Hive, packageHive: Hive, name: string, value: SettingValue, asked: string)
    ensures var raw := value.Rendered();
            var newReal := Written(realHive, name, raw);
            var newPackage := Written(packageHive, name, raw);
            && MergedLookup(newPackage, newReal, name) == Lookup(newReal, name) == Some(raw)
            && (!EqualIgnoringCase(name, asked) ==>
                  MergedLookup(newPackage, newReal, asked) == MergedLookup(packageHive, realHive, asked)
                  && Lookup(newReal, asked) == Lookup(realHive, asked))
  {
    LookupWritten(realHive, name, value.Rendered(), name);
    LookupWritten(packageHive, name, value.Rendered(), name);
    LookupWritten(realHive, name, value.Rendered(), asked);
    LookupWritten(packageHive, name, value.Rendered(), asked);
  }

  /** Writing the real hive alone shows to a packaged reader exactly if its own hive has no other value. */
  lemma ShadowedWrite(realHive: Hive, packageHive: Hive, name: string, value: SettingValue)
    ensures MergedLookup(packageHive, Written(realHive, name, value.Rendered()), name) == Some(value.Rendered())
       <==> Lookup(packageHive, name).None? || Lookup(packageHive, name) == Some(value.Rendered())
  {
    LookupWritten(realHive, name, value.Rendered(), name);
  }

  /** Whether the text a stored value prints shows a value of its name: its type is listed, or its data spell one. */
  predicate IsRecognised(name: string, raw: RawSetting) {
    raw.kind in REG_TYPES || Lookup(LaterShown(raw.data), name).Some?
  }

  /** A query for one name finds what is stored exactly if it is answered and the value is recognised. */
  lemma QueryFinds(header: string, realHive: Hive, name: string, answered: bool)
    requires IsHeader(header) && IsReadableName(name)
    requires Lookup(realHive, name).Some? ==> IsToken(Lookup(realHive, name).value.kind)
    ensures QueriedValue(header, realHive, name, answered).Some?
       <==> answered && Lookup(realHive, name).Some? && IsRecognised(name, Lookup(realHive, name).value)
  {
    var stored := Lookup(realHive, name);
    if stored.Some? {
      OneEntryQuery(header, (name, stored.value));
      EntryFinds(name, stored.value.kind, stored.value.data);
    } else {
      QueryIsShown(header, []);
    }
  }

  lemma OneEntryQuery(header: string, entry: (string, RawSetting))
    requires IsHeader(header)
    ensures Queried(header, [entry], true) == ShownBy(entry)
  {
    QueryIsShown(header, [entry]);
    assert [entry][1..] == [];
  }

  lemma EntryFinds(name: string, kind: string, data: string)
    requires IsReadableName(name) && IsToken(kind)
    ensures Lookup(ShownBy((name, RawSetting(kind, data))), name).Some? <==> IsRecognised(name, RawSetting(kind, data))
  {
    if kind in REG_TYPES {
      ListedShowsFirst(name, kind, data);
    } else {
      RegTypesAreTypes();
      assert '\n' !in kind by { assert forall i :: 0 <= i < |kind| ==> !IsWhitespace(kind[i]); }
      ShownByParts(name, kind, data);
      UnlistedName(name, kind, FirstPart(data), REG_TYPES);
      var first := LineShows(PrintedLine(name, RawSetting(kind, FirstPart(data))));
      if first != [] {
        assert (first + LaterShown(data))[1..] == LaterShown(data);
      } else {
        assert first + LaterShown(data) == LaterShown(data);
      }
    }
  }

  /**
   What a packaged delete leaves, for every stored value: the value is out of the real hive exactly if it
   was not there, or the query was answered, recognised it and the delete landed; and success is reported
   exactly if each delete that was attempted landed.
   */
  lemma DeleteIsExact(header: string, realHive: Hive, packageHive: Hive, name: string,
                      answered: bool, realLands: bool, ownLands: bool)
    requires IsHeader(header) && IsReadableName(name)
    requires Lookup(realHive, name).Some? ==> IsToken(Lookup(realHive, name).value.kind)
    ensures var stored := Lookup(realHive, name);
            var found := answered && stored.Some? && IsRecognised(name, stored.value);
            var after := Deleted(header, realHive, packageHive, name, answered, realLands, ownLands);
            && (Lookup(after.realHive, name).None? <==> stored.None? || (found && realLands))
            && (Lookup(after.packageHive, name).None? <==> Lookup(packageHive, name).None? || ownLands)
            && (after.ok <==>
                  && (found ==> realLands)
                  && (Lookup(packageHive, name).Some? || (stored.Some? && !found) ==> ownLands))
  {
    QueryFinds(header, realHive, name, answered);
    LookupRemoved(realHive, name, name);
    LookupRemoved(packageHive, name, name);
  }

  /**
   So a delete that reports success leaves the value in the real hive exactly if the query went
   unanswered or did not recognise it, and the process's own delete landed.
   */
  lemma SilentlyKept(header: string, realHive: Hive, packageHive: Hive, name: string,
                     answered: bool, realLands: bool, ownLands: bool)
    requires IsHeader(header) && IsReadableName(name)
    requires Lookup(realHive, name).Some? && IsToken(Lookup(realHive, name).value.kind)
    ensures var after := Deleted(header, realHive, packageHive, name, answered, realLands, ownLands);
            after.ok && Lookup(after.realHive, name).Some?
            <==> ownLands && !(answered && IsRecognised(name, Lookup(realHive, name).value))
  {
    DeleteIsExact(header, realHive, packageHive, name, answered, realLands, ownLands);
  }

  lemma RootNameReads()
    ensures IsReadableName("BareSlashRoot")
  {
    PlainWithoutSpaces("BareSlashRoot");
  }

  /** It is reached: a link is answered for, deleted with success, and still there. */
  lemma LinkIsKept(header: string, realHive: Hive, packageHive: Hive)
    requires IsHeader(header) && Lookup(realHive, "BareSlashRoot") == Some(RawSetting("REG_LINK", "x"))
    ensures var after := Deleted(header, realHive, packageHive, "BareSlashRoot", true, true, true);
            after.ok && Lookup(after.realHive, "BareSlashRoot") == Some(RawSetting("REG_LINK", "x"))
  {
    RootNameReads();
    SilentlyKept(header, realHive, packageHive, "BareSlashRoot", true, true, true);
    LookupRemoved(realHive, "BareSlashRoot", "BareSlashRoot");
  }
}
