/**
 Syncing twice (crates/fsw-core/src/settings_write.rs): when the second self-heal finds nothing left to
 do, for every hive, whatever its other values print.
 */
module RegResync {
  import opened Results
  import opened Ascii
  import opened RegText
  import opened RegNumbers
  import opened RegShown
  import opened RegSettings

  /** The names of the settings key: letters. */
  predicate IsSettingName(name: string) {
    name != "" && forall i :: 0 <= i < |name| ==> IsAlphabetic(name[i])
  }

  predicate HasSettingNames(merged: Merged) {
    forall i :: 0 <= i < |merged| ==> IsSettingName(merged[i].0)
  }

  lemma SettingNameReads(name: string)
    requires IsSettingName(name)
    ensures IsReadableName(name)
  {
    assert REG_TYPES[0][3] == '_' && REG_TYPES[1][3] == '_' && REG_TYPES[2][3] == '_' && REG_TYPES[3][3] == '_';
    assert REG_TYPES[4][3] == '_' && REG_TYPES[5][3] == '_' && REG_TYPES[6][3] == '_';
    assert forall i :: 0 <= i < |REG_TYPES| ==> REG_TYPES[i] != name;
    PlainWithoutSpaces(name);
  }

  lemma SettingNameInAnyCase(name: string, spelling: string)
    requires IsSettingName(name) && EqualIgnoringCase(spelling, name)
    ensures IsSettingName(spelling)
  {
    assert forall i :: 0 <= i < |name| ==> Lower(spelling[i]) == Lower(name[i]);
  }

  /** What a sync writes, in order. */
  type Writes = seq<(string, RawSetting)>

  function WritesOf(merged: Merged, plan: seq<string>): Writes {
    if plan == [] then []
    else
      var name := plan[|plan| - 1];
      WritesOf(merged, plan[..|plan| - 1])
      + match ValueFor(merged, name) { case None => [] case Some(value) => [(name, value.Rendered())] }
  }

  function Applied(hive: Hive, writes: Writes): Hive {
    if writes == [] then hive
    else
      var (name, raw) := writes[|writes| - 1];
      Written(Applied(hive, writes[..|writes| - 1]), name, raw)
  }

  /** The last of the writes under that name. */
  function WriteFor(writes: Writes, name: string): Option<RawSetting> {
    if writes == [] then None
    else if EqualIgnoringCase(writes[|writes| - 1].0, name) then Some(writes[|writes| - 1].1)
    else WriteFor(writes[..|writes| - 1], name)
  }

  function Without(writes: Writes, name: string): Writes {
    if writes == [] then []
    else
      var last := writes[|writes| - 1];
      Without(writes[..|writes| - 1], name) + if EqualIgnoringCase(last.0, name) then [] else [last]
  }

  lemma {:induction false} MirroredIsApplied(realHive: Hive, merged: Merged, plan: seq<string>, lands: string -> bool)
    requires forall k :: 0 <= k < |plan| ==> lands(plan[k])
    ensures Mirrored(realHive, merged, plan, lands) == Applied(realHive, WritesOf(merged, plan))
  {
    if plan != [] {
      var front, name := plan[..|plan| - 1], plan[|plan| - 1];
      MirroredIsApplied(realHive, merged, front, lands);
      if ValueFor(merged, name).Some? {
        var write := (name, ValueFor(merged, name).value.Rendered());
        assert WritesOf(merged, plan) == WritesOf(merged, front) + [write];
        assert (WritesOf(merged, front) + [write])[..|WritesOf(merged, front)|] == WritesOf(merged, front);
      } else {
        assert WritesOf(merged, plan) == WritesOf(merged, front);
      }
    }
  }

  /** The first entry of a hive is rewritten or kept, and the writes left over go to the others. */
  lemma {:induction false} AppliedCons(entry: (string, RawSetting), rest: Hive, writes: Writes)
    ensures Applied([entry] + rest, writes)
         == match WriteFor(writes, entry.0)
            case Some(raw) => [(entry.0, raw)] + Applied(rest, Without(writes, entry.0))
            case None => [entry] + Applied(rest, writes)
  {
    if writes != [] {
      var front, last := writes[..|writes| - 1], writes[|writes| - 1];
      assert writes == front + [last];
      AppliedCons(entry, rest, front);
      WithoutSnoc(front, last, entry.0);
      if WriteFor(front, entry.0).Some? {
        WrittenCons((entry.0, WriteFor(front, entry.0).value), Applied(rest, Without(front, entry.0)), last.0, last.1);
        AppliedSnoc(rest, Without(front, entry.0), last);
      } else {
        WrittenCons(entry, Applied(rest, front), last.0, last.1);
        WithoutNone(front, entry.0);
      }
    }
  }

  lemma AppliedSnoc(hive: Hive, writes: Writes, last: (string, RawSetting))
    ensures Applied(hive, writes + [last]) == Written(Applied(hive, writes), last.0, last.1)
  {
    assert (writes + [last])[..|writes|] == writes;
  }

  lemma WithoutSnoc(writes: Writes, last: (string, RawSetting), name: string)
    ensures Without(writes + [last], name)
         == if EqualIgnoringCase(last.0, name) then Without(writes, name) else Without(writes, name) + [last]
  {
    assert (writes + [last])[..|writes|] == writes;
  }

  lemma {:induction false} WithoutNone(writes: Writes, name: string)
    requires WriteFor(writes, name) == None
    ensures Without(writes, name) == writes
  {
    if writes != [] {
      WithoutNone(writes[..|writes| - 1], name);
    }
  }

  lemma WrittenCons(entry: (string, RawSetting), rest: Hive, name: string, raw: RawSetting)
    ensures Written([entry] + rest, name, raw)
         == if EqualIgnoringCase(entry.0, name) then [(entry.0, raw)] + rest else [entry] + Written(rest, name, raw)
  {
    assert ([entry] + rest)[1..] == rest;
  }

  lemma {:induction false} WithoutOthers(writes: Writes, gone: string, name: string)
    requires !EqualIgnoringCase(gone, name)
    ensures WriteFor(Without(writes, gone), name) == WriteFor(writes, name)
  {
    if writes != [] {
      var front, last := writes[..|writes| - 1], writes[|writes| - 1];
      assert writes == front + [last];
      WithoutOthers(front, gone, name);
      WithoutSnoc(front, last, gone);
      assert (Without(front, gone) + [last])[..|Without(front, gone)|] == Without(front, gone);
    }
  }

  /** Writes of setting names, one line each. */
  predicate AreSettings(writes: Writes) {
    forall k :: 0 <= k < |writes| ==>
      IsSettingName(writes[k].0) && writes[k].1.kind in REG_TYPES && '\n' !in writes[k].1.data
  }

  lemma {:induction false} WithoutAreSettings(writes: Writes, gone: string)
    requires AreSettings(writes)
    ensures AreSettings(Without(writes, gone))
  {
    if writes != [] {
      WithoutAreSettings(writes[..|writes| - 1], gone);
    }
  }

  lemma {:induction false} WriteForIsWrite(writes: Writes, name: string)
    requires WriteFor(writes, name).Some?
    ensures exists k :: 0 <= k < |writes| && EqualIgnoringCase(writes[k].0, name) && writes[k].1 == WriteFor(writes, name).value
  {
    var n := |writes| - 1;
    if !EqualIgnoringCase(writes[n].0, name) {
      WriteForIsWrite(writes[..n], name);
      var k :| 0 <= k < n && EqualIgnoringCase(writes[..n][k].0, name) && writes[..n][k].1 == WriteFor(writes, name).value;
      assert EqualIgnoringCase(writes[k].0, name) && writes[k].1 == WriteFor(writes, name).value;
    }
  }

  /** A rewritten entry shows itself, in whatever case its name is stored. */
  lemma RewrittenShowsItself(writes: Writes, stored: string)
    requires AreSettings(writes) && WriteFor(writes, stored).Some?
    ensures ShownBy((stored, WriteFor(writes, stored).value)) == [(stored, WriteFor(writes, stored).value)]
  {
    WriteForIsWrite(writes, stored);
    var k :| 0 <= k < |writes| && EqualIgnoringCase(writes[k].0, stored) && writes[k].1 == WriteFor(writes, stored).value;
    SettingNameInAnyCase(writes[k].0, stored);
    SettingNameReads(stored);
    OneLineShowsItself((stored, writes[k].1));
  }

  lemma {:induction false} LookupApplied(hive: Hive, writes: Writes, name: string)
    ensures Lookup(Applied(hive, writes), name)
         == if WriteFor(writes, name).Some? then WriteFor(writes, name) else Lookup(hive, name)
  {
    if writes != [] {
      var front, last := writes[..|writes| - 1], writes[|writes| - 1];
      LookupApplied(hive, front, name);
      LookupWritten(Applied(hive, front), last.0, last.1, name);
    }
  }

  lemma {:induction false} WrittenIsReadable(hive: Hive, name: string, raw: RawSetting)
    requires IsReadable(hive) && IsOneLine((name, raw)) && IsPlainName(name)
    ensures IsReadable(Written(hive, name, raw))
  {
    if hive != [] {
      assert IsOneLine(hive[0]) && IsPlainName(hive[0].0);
      if !EqualIgnoringCase(hive[0].0, name) {
        assert IsReadable(hive[1..]);
        WrittenIsReadable(hive[1..], name, raw);
      }
    }
  }

  lemma {:induction false} AppliedIsReadable(hive: Hive, writes: Writes)
    requires IsReadable(hive) && AreSettings(writes)
    ensures IsReadable(Applied(hive, writes))
  {
    if writes != [] {
      var front, last := writes[..|writes| - 1], writes[|writes| - 1];
      AppliedIsReadable(hive, front);
      SettingNameReads(last.0);
      WrittenIsReadable(Applied(hive, front), last.0, last.1);
    }
  }

  lemma {:induction false} ReadableShowsItself(hive: Hive)
    requires IsReadable(hive)
    ensures Shown(hive) == hive
  {
    if hive != [] {
      assert IsOneLine(hive[0]) && IsPlainName(hive[0].0);
      OneLineShowsItself(hive[0]);
      ReadableShowsItself(hive[1..]);
    }
  }

  lemma {:induction false} LookupAppend(first: Hive, second: Hive, name: string)
    ensures Lookup(first + second, name) == if Lookup(first, name).Some? then Lookup(first, name) else Lookup(second, name)
  {
    if first == [] {
      assert first + second == second;
    } else {
      assert (first + second)[1..] == first[1..] + second;
      LookupAppend(first[1..], second, name);
    }
  }

  lemma ShownCons(entry: (string, RawSetting), rest: Hive)
    ensures Shown([entry] + rest) == ShownBy(entry) + Shown(rest)
  {
    assert ([entry] + rest)[1..] == rest;
  }

  /**
   Whether the hive, once those writes are in, answers for a name with its value: going down the hive as it
   is before, the first entry that decides is the name's own if it is among the writes, or else the first
   one that is not rewritten and prints a line under the name, which must then be that value's.
   */
  predicate Undisturbed(hive: Hive, writes: Writes, name: string, value: SettingValue) {
    if hive == [] then WriteFor(writes, name).Some?
    else if WriteFor(writes, hive[0].0).Some? then
      EqualIgnoringCase(hive[0].0, name) || Undisturbed(hive[1..], Without(writes, hive[0].0), name, value)
    else if Lookup(ShownBy(hive[0]), name).Some? then value.MatchesRaw(Lookup(ShownBy(hive[0]), name).value)
    else Undisturbed(hive[1..], writes, name, value)
  }

  lemma {:induction false} AnswersAfterwards(hive: Hive, writes: Writes, name: string, value: SettingValue)
    requires AreSettings(writes) && value.InRange()
    requires WriteFor(writes, name).Some? ==> WriteFor(writes, name).value == value.Rendered()
    ensures Holds(Shown(Applied(hive, writes)), name, value) <==> Undisturbed(hive, writes, name, value)
    decreases |hive|
  {
    RenderedMatches(value, value);
    if hive == [] {
      AppliedIsReadable([], writes);
      ReadableShowsItself(Applied([], writes));
      LookupApplied([], writes, name);
    } else {
      var entry, rest := hive[0], hive[1..];
      assert hive == [entry] + rest;
      AppliedCons(entry, rest, writes);
      match WriteFor(writes, entry.0)
      case Some(raw) =>
        var left := Without(writes, entry.0);
        RewrittenShowsItself(writes, entry.0);
        ShownCons((entry.0, raw), Applied(rest, left));
        LookupAppend([(entry.0, raw)], Shown(Applied(rest, left)), name);
        if EqualIgnoringCase(entry.0, name) {
          SameWrite(writes, entry.0, name);
        } else {
          WithoutOthers(writes, entry.0, name);
          WithoutAreSettings(writes, entry.0);
          AnswersAfterwards(rest, left, name, value);
        }
      case None =>
        ShownCons(entry, Applied(rest, writes));
        LookupAppend(ShownBy(entry), Shown(Applied(rest, writes)), name);
        AnswersAfterwards(rest, writes, name, value);
    }
  }

  lemma {:induction false} SameWrite(writes: Writes, spelling: string, name: string)
    requires EqualIgnoringCase(spelling, name)
    ensures WriteFor(writes, spelling) == WriteFor(writes, name)
  {
    if writes != [] {
      SameWrite(writes[..|writes| - 1], spelling, name);
    }
  }

  lemma {:induction false} ValueForIsMerged(merged: Merged, name: string)
    requires ValueFor(merged, name).Some?
    ensures exists j :: 0 <= j < |merged| && merged[j] == (name, ValueFor(merged, name).value)
  {
    if merged[0].0 == name {
      assert merged[0] == (name, ValueFor(merged, name).value);
    } else {
      ValueForIsMerged(merged[1..], name);
      var j :| 0 <= j < |merged[1..]| && merged[1..][j] == (name, ValueFor(merged, name).value);
      assert merged[j + 1] == merged[1..][j];
    }
  }

  lemma {:induction false} WritesAreSettings(merged: Merged, plan: seq<string>)
    requires HasSettingNames(merged) && forall i :: 0 <= i < |merged| ==> !HasLineFeed(merged[i].1)
    ensures AreSettings(WritesOf(merged, plan))
  {
    if plan != [] {
      var name := plan[|plan| - 1];
      WritesAreSettings(merged, plan[..|plan| - 1]);
      if ValueFor(merged, name).Some? {
        ValueForIsMerged(merged, name);
        RenderedLine(ValueFor(merged, name).value);
      }
    }
  }

  /** What the plan writes under a synced name. */
  lemma PlannedWrite(merged: Merged, seen: Hive, i: nat)
    requires AreDistinct(merged) && i < |merged|
    ensures WriteFor(WritesOf(merged, SyncPlan(merged, seen)), merged[i].0)
         == if Holds(seen, merged[i].0, merged[i].1) then None else Some(merged[i].1.Rendered())
  {
    var plan := SyncPlan(merged, seen);
    PlanIsExact(merged, seen, i);
    PlanIsFromMerged(merged, seen);
    MirroredIsApplied([], merged, plan, name => true);
    MirroredLookup([], merged, plan, name => true, i);
    LookupApplied([], WritesOf(merged, plan), merged[i].0);
  }

  /** What the first sync writes. */
  function FirstWrites(header: string, realHive: Hive, merged: Merged, answered: bool): Writes {
    WritesOf(merged, SyncPlan(merged, Queried(header, realHive, answered)))
  }

  /** The text of the hive after a sync, read back. */
  lemma SyncedShows(header: string, realHive: Hive, merged: Merged, answered: bool, lands: string -> bool)
    requires IsHeader(header) && forall i :: 0 <= i < |merged| ==> lands(merged[i].0)
    ensures Queried(header, Synced(header, realHive, merged, answered, lands), true)
         == Shown(Applied(realHive, FirstWrites(header, realHive, merged, answered)))
  {
    var seen := Queried(header, realHive, answered);
    PlanIsFromMerged(merged, seen);
    MirroredIsApplied(realHive, merged, SyncPlan(merged, seen), lands);
    QueryIsShown(header, Synced(header, realHive, merged, answered, lands));
  }

  /**
   After a sync whose writes all landed, a second sync plans nothing exactly when no synced text holds a
   line feed and every synced name is undisturbed: for every hive, whatever it holds.
   */
  lemma SecondSyncPlansNothing(header: string, realHive: Hive, merged: Merged, answered: bool, lands: string -> bool)
    requires IsHeader(header) && HasSettingNames(merged) && AreDistinct(merged) && AreInRange(merged)
    requires forall i :: 0 <= i < |merged| ==> lands(merged[i].0)
    ensures SyncPlan(merged, Queried(header, Synced(header, realHive, merged, answered, lands), true)) == []
       <==> forall i :: 0 <= i < |merged| ==>
              && !HasLineFeed(merged[i].1)
              && Undisturbed(realHive, FirstWrites(header, realHive, merged, answered), merged[i].0, merged[i].1)
  {
    var after := Synced(header, realHive, merged, answered, lands);
    var writes := FirstWrites(header, realHive, merged, answered);
    if forall i :: 0 <= i < |merged| ==> !HasLineFeed(merged[i].1) {
      SyncedShows(header, realHive, merged, answered, lands);
      WritesAreSettings(merged, SyncPlan(merged, Queried(header, realHive, answered)));
      EmptyPlan(merged, Shown(Applied(realHive, writes)));
      forall i | 0 <= i < |merged|
        ensures Holds(Shown(Applied(realHive, writes)), merged[i].0, merged[i].1)
           <==> Undisturbed(realHive, writes, merged[i].0, merged[i].1)
      {
        PlannedWrite(merged, Queried(header, realHive, answered), i);
        AnswersAfterwards(realHive, writes, merged[i].0, merged[i].1);
      }
    } else {
      var i :| 0 <= i < |merged| && HasLineFeed(merged[i].1);
      LineFeedIsAlwaysPlanned(header, after, merged, i);
    }
  }

  /** No value prints a line under the name except one of that name. */
  predicate IsQuiet(hive: Hive, name: string) {
    forall k :: 0 <= k < |hive| ==> EqualIgnoringCase(hive[k].0, name) || Lookup(ShownBy(hive[k]), name).None?
  }

  lemma {:induction false} QuietIsUndisturbed(hive: Hive, writes: Writes, name: string, value: SettingValue)
    requires IsQuiet(hive, name) && (WriteFor(writes, name).Some? || Holds(Shown(hive), name, value))
    ensures Undisturbed(hive, writes, name, value)
    decreases |hive|
  {
    if hive != [] {
      var entry, rest := hive[0], hive[1..];
      LookupAppend(ShownBy(entry), Shown(rest), name);
      if EqualIgnoringCase(entry.0, name) {
        SameWrite(writes, entry.0, name);
      } else {
        WithoutOthers(writes, entry.0, name);
        QuietIsUndisturbed(rest, Without(writes, entry.0), name, value);
      }
      if WriteFor(writes, entry.0).None? && Lookup(ShownBy(entry), name).None? {
        QuietIsUndisturbed(rest, writes, name, value);
      }
    }
  }

  /** In a hive where no other value prints a line under a synced name, only a line feed is planned again. */
  lemma QuietSecondSync(header: string, realHive: Hive, merged: Merged, answered: bool, lands: string -> bool)
    requires IsHeader(header) && HasSettingNames(merged) && AreDistinct(merged) && AreInRange(merged)
    requires forall i :: 0 <= i < |merged| ==> lands(merged[i].0) && IsQuiet(realHive, merged[i].0)
    ensures SyncPlan(merged, Queried(header, Synced(header, realHive, merged, answered, lands), true)) == []
       <==> forall i :: 0 <= i < |merged| ==> !HasLineFeed(merged[i].1)
  {
    SecondSyncPlansNothing(header, realHive, merged, answered, lands);
    QueryIsShown(header, realHive);
    forall i | 0 <= i < |merged|
      ensures Undisturbed(realHive, FirstWrites(header, realHive, merged, answered), merged[i].0, merged[i].1)
    {
      PlannedWrite(merged, Queried(header, realHive, answered), i);
      QuietIsUndisturbed(realHive, FirstWrites(header, realHive, merged, answered), merged[i].0, merged[i].1);
    }
  }

  /** A hive whose values print one to a line is quiet. */
  lemma ReadableIsQuiet(hive: Hive, name: string)
    requires IsReadable(hive)
    ensures IsQuiet(hive, name)
  {
    forall k | 0 <= k < |hive| ensures EqualIgnoringCase(hive[k].0, name) || Lookup(ShownBy(hive[k]), name).None? {
      assert IsOneLine(hive[k]) && IsPlainName(hive[k].0);
      OneLineShowsItself(hive[k]);
      assert [hive[k]][1..] == [];
    }
  }

  lemma SamePrint(foreign: string, name: string, raw: RawSetting)
    ensures PrintedLines([(foreign, RawSetting("REG_SZ", "\r\n" + PrintedLine(name, raw)))])
         == PrintedLines([(foreign, RawSetting("REG_SZ", "")), (name, raw)])
  {
    var front := GAP + foreign + GAP + "REG_SZ" + GAP;
    var line := PrintedLine(name, raw);
    var one := [(foreign, RawSetting("REG_SZ", "\r\n" + line))];
    var two := [(foreign, RawSetting("REG_SZ", "")), (name, raw)];
    assert one[1..] == [] && two[1..] == [(name, raw)];
    assert [(name, raw)][1..] == [];
    assert PrintedLines(one) == front + ("\r\n" + line) + "\r\n" + "\r\n";
    assert PrintedLines(two) == front + "" + "\r\n" + (line + "\r\n" + "\r\n");
    Regrouped(front, line);
  }

  lemma Regrouped(front: string, line: string)
    ensures front + ("\r\n" + line) + "\r\n" + "\r\n" == front + "" + "\r\n" + (line + "\r\n" + "\r\n")
  {
  }

  lemma LookupSecond(hive: Hive, name: string)
    requires |hive| == 2 && !EqualIgnoringCase(hive[0].0, name) && hive[1].0 == name
    ensures Lookup(hive, name) == Some(hive[1].1)
  {
    assert hive[1..] == [hive[1]];
  }

  /** What a foreign text behind a line feed shows: an empty text, and the value whose line it spells. */
  lemma ForeignTextShows(foreign: string, name: string, value: SettingValue)
    requires IsReadableName(foreign) && IsReadableName(name) && !HasLineFeed(value)
    ensures ShownBy((foreign, RawSetting("REG_SZ", "\r\n" + PrintedLine(name, value.Rendered()))))
         == [(foreign, RawSetting("REG_SZ", "")), (name, value.Rendered())]
  {
    var raw := value.Rendered();
    var entry := (foreign, RawSetting("REG_SZ", "\r\n" + PrintedLine(name, raw)));
    var shown := [(foreign, RawSetting("REG_SZ", "")), (name, raw)];
    SamePrint(foreign, name, raw);
    RenderedLine(value);
    assert "REG_SZ" == REG_TYPES[0];
    ReadableShowsItself(shown);
    LinesAreShown(shown);
    LinesAreShown([entry]);
    ShownCons(entry, []);
    assert [entry] + [] == [entry];
  }

  /**
   One foreign text with a line feed in it can so print as the line of a value that is not there, and the
   sync then leaves that value out.
   */
  lemma ForeignTextFools(header: string, foreign: string, name: string, value: SettingValue)
    requires IsHeader(header) && IsReadableName(foreign) && IsReadableName(name) && !HasLineFeed(value)
    requires value.InRange() && !EqualIgnoringCase(foreign, name)
    ensures var realHive := [(foreign, RawSetting("REG_SZ", "\r\n" + PrintedLine(name, value.Rendered())))];
            && Lookup(realHive, name) == None
            && SyncPlan([(name, value)], Queried(header, realHive, true)) == []
  {
    var entry := (foreign, RawSetting("REG_SZ", "\r\n" + PrintedLine(name, value.Rendered())));
    ForeignTextShows(foreign, name, value);
    OneEntryQuery(header, entry);
    LookupSecond(ShownBy(entry), name);
    RenderedMatches(value, value);
    EmptyPlan([(name, value)], ShownBy(entry));
  }

  /** With another value spelled there, every sync writes the same name again. */
  lemma ForeignTextRepeats(header: string, foreign: string, name: string, value: SettingValue, other: SettingValue, lands: string -> bool)
    requires IsHeader(header) && IsReadableName(foreign) && IsSettingName(name) && !EqualIgnoringCase(foreign, name)
    requires value.InRange() && other.InRange() && other != value && !HasLineFeed(other) && lands(name)
    ensures var realHive := [(foreign, RawSetting("REG_SZ", "\r\n" + PrintedLine(name, other.Rendered())))];
            var merged := [(name, value)];
            SyncPlan(merged, Queried(header, Synced(header, realHive, merged, true, lands), true)) == [name]
  {
    var entry := (foreign, RawSetting("REG_SZ", "\r\n" + PrintedLine(name, other.Rendered())));
    var merged := [(name, value)];
    var seen := Queried(header, [entry], true);
    ForeignDisturbs(foreign, name, value, other, WritesOf(merged, SyncPlan(merged, seen)), merged, seen);
    SecondSyncPlansNothing(header, [entry], merged, true, lands);
    OneNamePlan(name, value, Queried(header, Synced(header, [entry], merged, true, lands), true));
    assert merged[0] == (name, value);
  }

  lemma OneNamePlan(name: string, value: SettingValue, seen: Hive)
    ensures SyncPlan([(name, value)], seen) == [] || SyncPlan([(name, value)], seen) == [name]
  {
    assert [(name, value)][1..] == [];
  }

  lemma ForeignDisturbs(foreign: string, name: string, value: SettingValue, other: SettingValue, writes: Writes,
                        merged: Merged, seen: Hive)
    requires IsReadableName(foreign) && IsSettingName(name) && !EqualIgnoringCase(foreign, name)
    requires value.InRange() && other.InRange() && other != value && !HasLineFeed(other)
    requires merged == [(name, value)] && writes == WritesOf(merged, SyncPlan(merged, seen))
    ensures !Undisturbed([(foreign, RawSetting("REG_SZ", "\r\n" + PrintedLine(name, other.Rendered())))], writes, name, value)
  {
    var entry := (foreign, RawSetting("REG_SZ", "\r\n" + PrintedLine(name, other.Rendered())));
    SettingNameReads(name);
    ForeignTextShows(foreign, name, other);
    LookupSecond(ShownBy(entry), name);
    RenderedMatches(other, value);
    PlanIsFromMerged(merged, seen);
    NothingForForeign(merged, SyncPlan(merged, seen), foreign);
  }

  lemma NothingForForeign(merged: Merged, plan: seq<string>, foreign: string)
    requires FromMerged(merged, plan) && forall j :: 0 <= j < |merged| ==> !EqualIgnoringCase(merged[j].0, foreign)
    ensures WriteFor(WritesOf(merged, plan), foreign) == None
  {
    MirroredIsApplied([], merged, plan, name => true);
    ForeignKept([], merged, plan, name => true, foreign);
    LookupApplied([], WritesOf(merged, plan), foreign);
  }
}
