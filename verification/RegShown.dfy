/**
 What each stored value shows when `reg query` prints it and the text is parsed again
 (crates/fsw-core/src/settings_write.rs): for every value, also those whose data hold line feeds and
 those of a type the parser does not list.
 */
module RegShown {
  import opened Results
  import opened RegText

  /** The values read out of the text one value prints. */
  function ShownBy(entry: (string, RawSetting)): seq<(string, RawSetting)> {
    ValuesOf(Lines(PrintedLine(entry.0, entry.1) + "\r\n"))
  }

  function Shown(values: seq<(string, RawSetting)>): seq<(string, RawSetting)> {
    if values == [] then [] else ShownBy(values[0]) + Shown(values[1..])
  }

  lemma FirstFeed(text: string, at: nat)
    requires at < |text| && text[at] == '\n' && '\n' !in text[..at]
    ensures FindText(text, "\n") == Some(at)
  {
    assert text[at..at + 1] == "\n";
    assert OccursAt(text, "\n", at);
    forall i | 0 <= i < at ensures !OccursAt(text, "\n", i) {
      assert text[i] == text[..at][i];
      assert text[i..i + 1][0] == text[i];
    }
  }

  lemma FoundFeed(text: string)
    ensures match FindText(text, "\n")
            case None => '\n' !in text
            case Some(at) => at < |text| && text[at] == '\n' && '\n' !in text[..at]
  {
    forall i | 0 <= i < |text| && text[i] == '\n' ensures OccursAt(text, "\n", i) {
      assert text[i..i + 1] == "\n";
    }
    if FindText(text, "\n").Some? {
      assert text[FindText(text, "\n").value..][0] == '\n';
    }
  }

  lemma LinesAt(text: string, at: nat, line: string, rest: string)
    requires at < |text| && text[at] == '\n' && '\n' !in text[..at]
    requires line == text[..at] && rest == text[at + 1..]
    ensures Lines(text) == [WithoutReturn(line)] + Lines(rest)
  {
    FirstFeed(text, at);
  }

  /** Lines end at their line feed whatever follows. */
  lemma {:induction false} LinesAppend(text: string, rest: string)
    ensures Lines(text + "\n" + rest) == Lines(text + "\n") + Lines(rest)
    decreases |text|
  {
    FoundFeed(text);
    var found := FindText(text, "\n");
    if found.Some? {
      LinesAppend(text[found.value + 1..], rest);
      AppendAt(text, found.value, rest);
    } else {
      AppendLast(text, rest, text + "\n" + rest, text + "\n");
    }
  }

  lemma AppendLast(text: string, rest: string, whole: string, front: string)
    requires '\n' !in text && whole == text + "\n" + rest && front == text + "\n"
    ensures Lines(whole) == Lines(front) + Lines(rest)
  {
    assert whole[..|text|] == text == front[..|text|] && whole[|text| + 1..] == rest && front[|text| + 1..] == "";
    LinesAt(whole, |text|, text, rest);
    LinesAt(front, |text|, text, "");
    Regroup([WithoutReturn(text)], Lines(""), Lines(rest));
  }

  lemma PartsAt(text: string, at: nat, rest: string)
    requires at < |text|
    ensures (text + "\n" + rest)[..at] == text[..at] == (text + "\n")[..at]
    ensures (text + "\n" + rest)[at + 1..] == text[at + 1..] + "\n" + rest
    ensures (text + "\n")[at + 1..] == text[at + 1..] + "\n"
  {
  }

  lemma Regroup<T>(head: seq<T>, middle: seq<T>, last: seq<T>)
    ensures head + (middle + last) == (head + middle) + last
  {
  }

  lemma AppendAt(text: string, at: nat, rest: string)
    requires at < |text| && text[at] == '\n' && '\n' !in text[..at]
    requires Lines(text[at + 1..] + "\n" + rest) == Lines(text[at + 1..] + "\n") + Lines(rest)
    ensures Lines(text + "\n" + rest) == Lines(text + "\n") + Lines(rest)
  {
    PartsAt(text, at, rest);
    LinesAt(text + "\n" + rest, at, text[..at], text[at + 1..] + "\n" + rest);
    LinesAt(text + "\n", at, text[..at], text[at + 1..] + "\n");
    Regroup([WithoutReturn(text[..at])], Lines(text[at + 1..] + "\n"), Lines(rest));
  }

  /** What one line is read as. */
  function LineShows(line: string): seq<(string, RawSetting)> {
    match ValueOf(line)
    case None => []
    case Some(value) => [value]
  }

  lemma ValuesStep(line: string, rest: seq<string>)
    ensures ValuesOf([line] + rest) == LineShows(line) + ValuesOf(rest)
  {
    assert ([line] + rest)[1..] == rest;
  }

  lemma {:induction false} ValuesAppend(lines: seq<string>, more: seq<string>)
    ensures ValuesOf(lines + more) == ValuesOf(lines) + ValuesOf(more)
  {
    if lines == [] {
      assert lines + more == more;
    } else {
      var first, rest := lines[0], lines[1..];
      assert lines == [first] + rest;
      ValuesAppend(rest, more);
      Regroup([first], rest, more);
      ValuesStep(first, rest + more);
      ValuesStep(first, rest);
      Regroup(LineShows(first), ValuesOf(rest), ValuesOf(more));
    }
  }

  lemma ShownFirst(line: string, rest: string)
    ensures ValuesOf(Lines(line + "\r\n" + rest)) == ValuesOf(Lines(line + "\r\n")) + ValuesOf(Lines(rest))
  {
    var text := line + "\r";
    assert line + "\r\n" + rest == text + "\n" + rest;
    assert line + "\r\n" == text + "\n";
    LinesAppend(text, rest);
    ValuesAppend(Lines(line + "\r\n"), Lines(rest));
  }

  /** What a query of the whole key is read as: what its values show, one after the other. */
  lemma {:induction false} LinesAreShown(values: seq<(string, RawSetting)>)
    ensures ValuesOf(Lines(PrintedLines(values))) == Shown(values)
  {
    if values == [] {
      BlankEnd();
    } else {
      LinesAreShown(values[1..]);
      ShownFirst(PrintedLine(values[0].0, values[0].1), PrintedLines(values[1..]));
    }
  }

  lemma QueryIsShown(header: string, values: seq<(string, RawSetting)>)
    requires ' ' !in header && '\n' !in header
    ensures ValuesOf(Lines(PrintedQuery(header, values))) == Shown(values)
  {
    SkipHeader(header, values);
    LinesAreShown(values);
  }

  /** A name that comes back from its line. */
  predicate IsReadableName(name: string) {
    IsTrimmed(name) && '\n' !in name && IsPlainName(name)
  }

  /** A value on one line shows itself alone. */
  lemma OneLineShowsItself(entry: (string, RawSetting))
    requires IsOneLine(entry) && IsPlainName(entry.0)
    ensures ShownBy(entry) == [entry]
  {
    var line := PrintedLine(entry.0, entry.1);
    OneLine(entry);
    LinesStep(line + "\r\n", line, "");
    assert Lines(line + "\r\n") == [line];
    LineRoundTrip(entry.0, entry.1.kind, entry.1.data);
    ValuesStep(line, []);
    assert [line] + [] == [line];
  }

  /** The data up to its first line feed, as printed on the first line. */
  function FirstPart(data: string): (part: string)
    ensures '\n' !in data ==> part == data
  {
    FoundFeed(data);
    match FindText(data, "\n")
    case None => data
    case Some(at) => WithoutReturn(data[..at])
  }

  /** What follows that line feed. */
  function LaterText(data: string): (text: string)
    ensures '\n' !in data ==> text == ""
  {
    FoundFeed(data);
    match FindText(data, "\n")
    case None => ""
    case Some(at) => data[at + 1..] + "\r\n"
  }

  /** What the further lines of such data are read as. */
  function LaterShown(data: string): seq<(string, RawSetting)> {
    ValuesOf(Lines(LaterText(data)))
  }

  /** A value shows what its first printed line shows and what the further lines of its data do. */
  lemma ShownByParts(name: string, kind: string, data: string)
    requires '\n' !in name && '\n' !in kind
    ensures ShownBy((name, RawSetting(kind, data)))
         == LineShows(PrintedLine(name, RawSetting(kind, FirstPart(data)))) + LaterShown(data)
  {
    var front := GAP + name + GAP + kind + GAP;
    assert '\n' !in front;
    FoundFeed(data);
    SplitAtFeed(front, data);
    ValuesStep(front + FirstPart(data), Lines(LaterText(data)));
  }

  lemma SplitAtFeed(front: string, data: string)
    requires '\n' !in front && front != "" && front[|front| - 1] == ' '
    ensures Lines(front + data + "\r\n") == [front + FirstPart(data)] + Lines(LaterText(data))
  {
    FoundFeed(data);
    match FindText(data, "\n")
    case None => LinesStep(front + data + "\r\n", front + data, "");
    case Some(at) => SplitAt(front, data, at, front + data + "\r\n", data[at + 1..] + "\r\n");
  }

  lemma SplitAt(front: string, data: string, at: nat, text: string, later: string)
    requires '\n' !in front && front != "" && front[|front| - 1] == ' '
    requires at < |data| && data[at] == '\n' && '\n' !in data[..at]
    requires text == front + data + "\r\n" && later == data[at + 1..] + "\r\n"
    ensures Lines(text) == [front + WithoutReturn(data[..at])] + Lines(later)
  {
    PartsAfter(front, data, at);
    LinesAt(text, |front| + at, front + data[..at], later);
  }

  lemma PartsAfter(front: string, data: string, at: nat)
    requires '\n' !in front && front != "" && front[|front| - 1] == ' '
    requires at < |data| && data[at] == '\n' && '\n' !in data[..at]
    ensures var text, end := front + data + "\r\n", |front| + at;
            && end < |text| && text[end] == '\n' && '\n' !in text[..end]
            && text[..end] == front + data[..at] && text[end + 1..] == data[at + 1..] + "\r\n"
            && WithoutReturn(front + data[..at]) == front + WithoutReturn(data[..at])
  {
    assert (front + data + "\r\n")[..|front| + at] == front + data[..at];
  }

  /** A value of a listed type shows its own name first, whatever its data. */
  lemma ListedShowsFirst(name: string, kind: string, data: string)
    requires IsReadableName(name) && kind in REG_TYPES
    ensures ShownBy((name, RawSetting(kind, data))) == [(name, RawSetting(kind, FirstPart(data)))] + LaterShown(data)
  {
    OneLine((name, RawSetting(kind, "")));
    KindHasNoFeed(name, kind);
    ShownByParts(name, kind, data);
    LineRoundTrip(name, kind, FirstPart(data));
  }

  lemma KindHasNoFeed(name: string, kind: string)
    requires '\n' !in PrintedLine(name, RawSetting(kind, ""))
    ensures '\n' !in kind
  {
    assert forall i :: 0 <= i < |kind| ==> kind[i] == PrintedLine(name, RawSetting(kind, ""))[8 + |name| + i];
  }

  /** A type as `reg query` prints one. */
  predicate IsToken(kind: string) {
    kind != "" && forall i :: 0 <= i < |kind| ==> !IsWhitespace(kind[i])
  }

  lemma {:induction false} CutIsCandidate(line: string, kinds: seq<string>)
    requires BestCut(line, kinds).Some?
    ensures var cut := BestCut(line, kinds).value;
            cut.kind in kinds && Candidate(line, cut.kind) == Some((cut.at, cut.consumed))
  {
    var n := |kinds| - 1;
    if BestCut(line, kinds[..n]).Some? {
      CutIsCandidate(line, kinds[..n]);
    }
  }

  /** The line has the type between gaps, or at its end, behind a text that trims to the name. */
  predicate IsReadFrom(line: string, front: string, name: string, raw: RawSetting) {
    && Trim(front) == name
    && (line == front + (GAP + raw.kind + GAP) + raw.data || (line == front + (GAP + raw.kind) + raw.data && IsBlank(raw.data)))
  }

  /** Whatever the line, a value read from it has a name, a listed type and the rest of the line as its data. */
  lemma ValueIsInLine(line: string) returns (front: string)
    requires ValueOf(line).Some?
    ensures var (name, raw) := ValueOf(line).value;
            name != "" && raw.kind in REG_TYPES && IsReadFrom(line, front, name, raw)
  {
    CutIsCandidate(line, REG_TYPES);
    var cut := BestCut(line, REG_TYPES).value;
    front := line[..cut.at];
    CandidateCuts(line, cut.kind);
  }

  lemma CandidateCuts(line: string, kind: string)
    requires Candidate(line, kind).Some?
    ensures var (at, consumed) := Candidate(line, kind).value;
            var data := line[at + consumed..];
            || line == line[..at] + (GAP + kind + GAP) + data
            || (line == line[..at] + (GAP + kind) + data && IsBlank(data))
  {
    var (at, consumed) := Candidate(line, kind).value;
    assert line == line[..at] + line[at..at + consumed] + line[at + consumed..];
  }

  /** A token in its place in a line: behind a gap, and in front of another or of nothing. */
  predicate StandsAt(line: string, kind: string, at: nat) {
    && OccursAt(line, GAP + kind, at)
    && (OccursAt(line, GAP + kind + GAP, at) || IsBlank(line[at + 4 + |kind|..]))
  }

  lemma PrefixChars(prefix: string, text: string)
    requires prefix <= text
    ensures forall i :: 0 <= i < |prefix| ==> text[i] == prefix[i]
  {
  }

  lemma NoLongerToken(text: string, kind: string, other: string)
    requires IsToken(other) && kind <= text && other <= text
    requires |kind| < |text| ==> IsWhitespace(text[|kind|])
    ensures |other| <= |kind|
  {
    PrefixChars(other, text);
  }

  lemma SameToken(text: string, kind: string, other: string)
    requires IsToken(kind) && IsToken(other) && kind <= text && other <= text
    requires |kind| < |text| ==> IsWhitespace(text[|kind|])
    requires |other| < |text| ==> IsWhitespace(text[|other|])
    ensures kind == other
  {
    NoLongerToken(text, kind, other);
    NoLongerToken(text, other, kind);
  }

  lemma TokenEnds(line: string, kind: string, at: nat)
    requires StandsAt(line, kind, at)
    ensures kind <= line[at + 4..]
    ensures |line[at + 4..]| > |kind| ==> IsWhitespace(line[at + 4..][|kind|])
  {
    assert line[at + 4..][..|kind|] == line[at..at + 4 + |kind|][4..] == kind;
    if OccursAt(line, GAP + kind + GAP, at) {
      SliceAt(line, at, GAP + kind + GAP, 4 + |kind|);
    } else if |line[at + 4..]| > |kind| {
      assert line[at + 4..][|kind|] == line[at + 4 + |kind|..][0];
    }
  }

  /** Only the line's own type stands in its place. */
  lemma OwnPlace(line: string, p: nat, kind: string, data: string, other: string)
    requires p + 4 <= |line| && line[p + 4..] == kind + (GAP + data)
    requires IsToken(kind) && IsToken(other) && StandsAt(line, other, p)
    ensures kind == other
  {
    TokenEnds(line, other, p);
    assert (kind + (GAP + data))[|kind|] == ' ';
    SameToken(line[p + 4..], kind, other);
  }

  lemma NotInGap(line: string, at: nat, kind: string, i: nat)
    requires OccursAt(line, GAP + kind, at) && i < |line| && !IsWhitespace(line[i])
    ensures i < at || i >= at + 4
  {
    if at <= i < at + 4 {
      SliceAt(line, at, GAP + kind, i - at);
    }
  }

  lemma {:induction false} TrimRightReaches(text: string, i: nat)
    requires i < |text| && !IsWhitespace(text[i])
    ensures |TrimRight(text)| > i
  {
    if IsWhitespace(text[|text| - 1]) {
      TrimRightReaches(text[..|text| - 1], i);
    }
  }

  lemma TrimReaches(text: string, i: nat)
    requires i < |text| && !IsWhitespace(text[0]) && !IsWhitespace(text[i])
    ensures |Trim(GAP + text)| > i
  {
    TrimGap(text);
    TrimRightReaches(text, i);
  }

  /** A line of an unlisted type is never read as a value of that name. */
  lemma UnlistedName(name: string, kind: string, data: string, kinds: seq<string>)
    requires IsTrimmed(name) && IsToken(kind) && kind !in kinds
    requires forall i :: 0 <= i < |kinds| ==> IsToken(kinds[i])
    ensures var value := ValueWith(PrintedLine(name, RawSetting(kind, data)), kinds);
            value.Some? ==> |value.value.0| != |name|
  {
    var line := PrintedLine(name, RawSetting(kind, data));
    if BestCut(line, kinds).Some? {
      CutIsCandidate(line, kinds);
      var cut := BestCut(line, kinds).value;
      CandidateOccurs(line, cut.kind);
      CutElsewhere(line, name, kind, data, cut.kind, cut.at);
    }
  }

  lemma PrintedParts(line: string, name: string, kind: string, data: string)
    requires line == PrintedLine(name, RawSetting(kind, data))
    ensures |line| == 12 + |name| + |kind| + |data| && line[..4] == GAP && line[4..4 + |name|] == name
    ensures line[..4 + |name|] == GAP + name && line[8 + |name|..] == kind + (GAP + data)
  {
  }

  /** So the text in front of the cut trims to something shorter or longer. */
  lemma CutElsewhere(line: string, name: string, kind: string, data: string, other: string, at: nat)
    requires line == PrintedLine(name, RawSetting(kind, data))
    requires IsTrimmed(name) && IsToken(kind) && IsToken(other) && kind != other && StandsAt(line, other, at)
    ensures |Trim(line[..at])| != |name|
  {
    var p := 4 + |name|;
    PrintedParts(line, name, kind, data);
    if at < p {
      assert line[..at] == line[..p][..at];
      TrimShrinks(line[..at], name);
    } else if at == p {
      OwnPlace(line, p, kind, data, other);
    } else {
      assert line[p + 4] == line[p + 4..][0] == kind[0];
      NotInGap(line, at, other, p + 4);
      LongerName(line, name, kind, at);
    }
  }

  lemma LongerName(line: string, name: string, kind: string, at: nat)
    requires 8 + |name| < at <= |line| && IsTrimmed(name) && IsToken(kind)
    requires line[..4] == GAP && line[4..4 + |name|] == name && line[8 + |name|] == kind[0]
    ensures |Trim(line[..at])| > |name|
  {
    var text := line[4..at];
    assert line[..at] == line[..4] + text;
    assert text[0] == line[4..4 + |name|][0];
    TrimReaches(text, 4 + |name|);
  }
}
