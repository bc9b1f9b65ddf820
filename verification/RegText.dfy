/**
 The text `reg query` prints and how it is read back (crates/fsw-core/src/settings_write.rs): one
 indented `name    TYPE    data` line a value, split at its leftmost type token.
 */
module RegText {
  import opened Results

  datatype RawSetting = RawSetting(kind: string, data: string)

  const REG_TYPES: seq<string> :=
    ["REG_SZ", "REG_DWORD", "REG_QWORD", "REG_EXPAND_SZ", "REG_MULTI_SZ", "REG_BINARY", "REG_NONE"]

  const GAP: string := "    "

  /** char::is_whitespace. */
  predicate IsWhitespace(c: char) {
    var code := c as int;
    || 0x09 <= code <= 0x0D || code == 0x20 || code == 0x85 || code == 0xA0 || code == 0x1680
    || 0x2000 <= code <= 0x200A || code == 0x2028 || code == 0x2029 || code == 0x202F || code == 0x205F
    || code == 0x3000
  }

  predicate IsBlank(text: string) {
    forall i :: 0 <= i < |text| ==> IsWhitespace(text[i])
  }

  function TrimLeft(text: string): (rest: string)
    ensures |rest| <= |text|
    ensures rest != "" ==> !IsWhitespace(rest[0])
    ensures rest == "" <==> IsBlank(text)
  {
    if text != "" && IsWhitespace(text[0]) then
      assert forall i :: 1 <= i < |text| ==> text[i] == text[1..][i - 1];
      TrimLeft(text[1..])
    else text
  }

  function TrimRight(text: string): (rest: string)
    ensures rest <= text
    ensures rest != "" ==> !IsWhitespace(rest[|rest| - 1])
  {
    if text != "" && IsWhitespace(text[|text| - 1]) then TrimRight(text[..|text| - 1]) else text
  }

  /** str::trim. */
  function Trim(text: string): (trimmed: string)
    ensures |trimmed| <= |text|
  {
    TrimRight(TrimLeft(text))
  }

  /** Text that trimming leaves as it is, and that is not empty. */
  predicate IsTrimmed(text: string) {
    text != "" && !IsWhitespace(text[0]) && !IsWhitespace(text[|text| - 1])
  }

  predicate OccursAt(text: string, pattern: string, at: nat) {
    at + |pattern| <= |text| && text[at..at + |pattern|] == pattern
  }

  function FindFrom(text: string, pattern: string, from: nat): (at: Option<nat>)
    requires from <= |text|
    ensures at.Some? ==> from <= at.value && OccursAt(text, pattern, at.value)
    ensures at.Some? ==> forall i :: from <= i < at.value ==> !OccursAt(text, pattern, i)
    ensures at.None? ==> forall i :: from <= i ==> !OccursAt(text, pattern, i)
    decreases |text| - from
  {
    if OccursAt(text, pattern, from) then Some(from)
    else if from < |text| then FindFrom(text, pattern, from + 1)
    else None
  }

  /** str::find with a string: the leftmost occurrence. */
  function FindText(text: string, pattern: string): (at: Option<nat>)
    ensures at.Some? ==> OccursAt(text, pattern, at.value)
    ensures at.Some? ==> forall i :: 0 <= i < at.value ==> !OccursAt(text, pattern, i)
    ensures at.None? ==> forall i :: 0 <= i ==> !OccursAt(text, pattern, i)
  {
    FindFrom(text, pattern, 0)
  }

  /** Where one type token splits the line, and how much the token and its gaps take. */
  function Candidate(line: string, kind: string): (found: Option<(nat, nat)>)
    ensures found.Some? ==> found.value.0 + found.value.1 <= |line|
  {
    var separated := GAP + kind + GAP;
    var bare := GAP + kind;
    match FindText(line, separated)
    case Some(at) => Some((at, |separated|))
    case None =>
      match FindText(line, bare)
      case Some(at) => if IsBlank(line[at + |bare|..]) then Some((at, |bare|)) else None
      case None => None
  }

  datatype Cut = Cut(at: nat, consumed: nat, kind: string)

  /** The better of what the earlier types gave and what the next one gives: strictly further left wins. */
  function Better(best: Option<Cut>, kind: string, found: Option<(nat, nat)>): Option<Cut> {
    if found.Some? && (best.None? || found.value.0 < best.value.at)
    then Some(Cut(found.value.0, found.value.1, kind))
    else best
  }

  function BestCut(line: string, kinds: seq<string>): (best: Option<Cut>)
    ensures best.Some? ==> best.value.at + best.value.consumed <= |line|
  {
    if kinds == [] then None
    else
      var last := kinds[|kinds| - 1];
      Better(BestCut(line, kinds[..|kinds| - 1]), last, Candidate(line, last))
  }

  /** The value a cut makes of a line; a blank name is no value. */
  function ValueAt(line: string, best: Option<Cut>): Option<(string, RawSetting)>
    requires best.Some? ==> best.value.at + best.value.consumed <= |line|
  {
    match best
    case None => None
    case Some(cut) =>
      var name := Trim(line[..cut.at]);
      if name == "" then None else Some((name, RawSetting(cut.kind, line[cut.at + cut.consumed..])))
  }

  /** What split_value_line returns, over any list of type tokens. */
  function ValueWith(line: string, kinds: seq<string>): Option<(string, RawSetting)> {
    ValueAt(line, BestCut(line, kinds))
  }

  function ValueOf(line: string): Option<(string, RawSetting)> {
    ValueWith(line, REG_TYPES)
  }

  /** The loop of split_value_line over the type tokens. */
  method LeftmostCut(line: string, kinds: seq<string>) returns (best: Option<(nat, nat)>, bestKind: string)
    ensures BestCut(line, kinds)
         == match best { case None => None case Some((at, consumed)) => Some(Cut(at, consumed, bestKind)) }
  {
    best := None;
    bestKind := "";
    var i := 0;
    while i < |kinds|
      invariant i <= |kinds|
      invariant BestCut(line, kinds[..i])
             == match best { case None => None case Some((at, consumed)) => Some(Cut(at, consumed, bestKind)) }
    {
      var kind := kinds[i];
      var found := Candidate(line, kind);
      assert kinds[..i + 1][..i] == kinds[..i];
      if found.Some? && (best.None? || found.value.0 < best.value.0) {
        best := found;
        bestKind := kind;
      }
      i := i + 1;
    }
    assert kinds[..i] == kinds;
  }

  /** split_value_line. */
  method SplitValueLine(line: string) returns (value: Option<(string, RawSetting)>)
    ensures value == ValueOf(line)
  {
    var best, bestKind := LeftmostCut(line, REG_TYPES);
    if best.None? {
      return None;
    }
    var (at, consumed) := best.value;
    var name := Trim(line[..at]);
    if name == "" {
      return None;
    }
    return Some((name, RawSetting(bestKind, line[at + consumed..])));
  }

  /** A token without white space. */
  predicate IsWord(kind: string) {
    |kind| >= 5 && forall i :: 0 <= i < |kind| ==> !IsWhitespace(kind[i])
  }

  /** Type tokens: words that their fifth letter tells apart. */
  predicate IsTypeTable(kinds: seq<string>) {
    && (forall i :: 0 <= i < |kinds| ==> IsWord(kinds[i]))
    && (forall i, j :: 0 <= i < |kinds| && 0 <= j < |kinds| && kinds[i][4] == kinds[j][4] ==> kinds[i] == kinds[j])
  }

  lemma ShortTypesAreWords()
    ensures IsWord("REG_SZ") && IsWord("REG_DWORD") && IsWord("REG_QWORD") && IsWord("REG_NONE")
  {
  }

  lemma LongTypesAreWords()
    ensures IsWord("REG_EXPAND_SZ") && IsWord("REG_MULTI_SZ") && IsWord("REG_BINARY")
  {
  }

  lemma RegTypesAreTypes()
    ensures IsTypeTable(REG_TYPES)
  {
    ShortTypesAreWords();
    LongTypesAreWords();
    assert REG_TYPES[0][4] == 'S' && REG_TYPES[1][4] == 'D' && REG_TYPES[2][4] == 'Q' && REG_TYPES[3][4] == 'E';
    assert REG_TYPES[4][4] == 'M' && REG_TYPES[5][4] == 'B' && REG_TYPES[6][4] == 'N';
  }

  /** The token nowhere stands between two gaps. */
  predicate Absent(text: string, kind: string) {
    forall at :: 0 <= at <= |text| ==> !OccursAt(text, GAP + kind + GAP, at)
  }

  predicate NoneOf(text: string, kinds: seq<string>) {
    forall i :: 0 <= i < |kinds| ==> Absent(text, kinds[i])
  }

  /** No type token stands between two gaps in the name, its own gaps included. */
  predicate IsPlainName(name: string) {
    NoneOf(GAP + name + GAP, REG_TYPES)
  }

  /** The line `reg query` prints. */
  function PrintedLine(name: string, raw: RawSetting): string {
    GAP + name + GAP + raw.kind + GAP + raw.data
  }

  /** A line that holds a value; `tail` is what follows the type. */
  predicate IsValueLine(line: string, name: string, kind: string, tail: string) {
    IsWord(kind) && line == GAP + name + GAP + kind + tail
  }

  lemma LineParts(line: string, name: string, kind: string, tail: string)
    requires IsValueLine(line, name, kind, tail)
    ensures var p := 4 + |name|;
            && |line| == p + 4 + |kind| + |tail|
            && line[..p] == GAP + name && line[..p + 4] == GAP + name + GAP
            && line[p..p + 4] == GAP && line[p + 4..p + 4 + |kind|] == kind && line[p + 4 + |kind|..] == tail
  {
  }

  lemma SliceAt(text: string, from: nat, piece: string, i: nat)
    requires from + |piece| <= |text| && text[from..from + |piece|] == piece && i < |piece|
    ensures text[from + i] == piece[i]
  {
  }

  /** A token that starts before the line's own one ends before the gap in front of it. */
  lemma EarlierToken(line: string, p: nat, other: string, at: nat)
    requires p + 4 <= |line| && line[p..p + 4] == GAP
    requires IsWord(other) && OccursAt(line, GAP + other, at) && at < p
    ensures at + 4 + |other| <= p
  {
    var pattern := GAP + other;
    assert forall j :: 4 <= j < |pattern| ==> pattern[j] == other[j - 4];
    var k := if at + 4 >= p then at + 4 else p;
    if at + 4 + |other| > p {
      SliceAt(line, at, pattern, k - at);
      SliceAt(line, p, GAP, k - p);
    }
  }

  /** A token that starts where the line's own one does shares its fifth letter. */
  lemma SamePlace(line: string, p: nat, kind: string, other: string)
    requires IsWord(kind) && IsWord(other)
    requires OccursAt(line, kind, p + 4) && OccursAt(line, GAP + other, p)
    ensures other[4] == kind[4]
  {
    SliceAt(line, p + 4, kind, 4);
    SliceAt(line, p, GAP + other, 8);
    assert (GAP + other)[8] == other[4];
  }

  /** What a type other than the line's own can offer lies to the right. */
  lemma OtherCandidate(line: string, name: string, kind: string, tail: string, other: string)
    requires IsValueLine(line, name, kind, tail) && Absent(GAP + name + GAP, other)
    requires IsWord(other) && other[4] != kind[4]
    ensures Candidate(line, other).Some? ==> Candidate(line, other).value.0 > 4 + |name|
  {
    var p := 4 + |name|;
    LineParts(line, name, kind, tail);
    assert OccursAt(line, kind, p + 4);
    var found := Candidate(line, other);
    if found.Some? {
      var at := found.value.0;
      CandidateOccurs(line, other);
      if at == p {
        SamePlace(line, p, kind, other);
      } else if at < p {
        EarlierToken(line, p, other, at);
        EarlierIsInName(line, name, kind, tail, other, at);
      }
    }
  }

  lemma CandidateOccurs(line: string, kind: string)
    requires Candidate(line, kind).Some?
    ensures OccursAt(line, GAP + kind, Candidate(line, kind).value.0)
    ensures OccursAt(line, GAP + kind + GAP, Candidate(line, kind).value.0)
         || IsBlank(line[Candidate(line, kind).value.0 + 4 + |kind|..])
  {
    var at := Candidate(line, kind).value.0;
    if OccursAt(line, GAP + kind + GAP, at) {
      TokenStart(line, kind, at);
    }
  }

  lemma TokenStart(line: string, kind: string, at: nat)
    requires OccursAt(line, GAP + kind + GAP, at)
    ensures OccursAt(line, GAP + kind, at)
  {
    assert line[at..at + 4 + |kind|] == line[at..at + 8 + |kind|][..4 + |kind|];
    assert (GAP + kind + GAP)[..4 + |kind|] == GAP + kind;
  }

  /** A token before the line's own one would be a token of the padded name. */
  lemma EarlierIsInName(line: string, name: string, kind: string, tail: string, other: string, at: nat)
    requires IsValueLine(line, name, kind, tail)
    requires at + 4 + |other| <= 4 + |name|
    requires OccursAt(line, GAP + other + GAP, at) || (OccursAt(line, GAP + other, at) && IsBlank(line[at + 4 + |other|..]))
    ensures OccursAt(line, GAP + other + GAP, at) && OccursAt(GAP + name + GAP, GAP + other + GAP, at)
  {
    var p := 4 + |name|;
    LineParts(line, name, kind, tail);
    SliceAt(line, p + 4, kind, 0);
    assert !IsWhitespace(kind[0]);
    assert line[at + 4 + |other|..][p - at - |other|] == line[p + 4];
    assert line[..p + 4][at..at + 8 + |other|] == line[at..at + 8 + |other|];
  }

  /** A whole token before the line's own one would be a token of the padded name. */
  lemma NoEarlierToken(line: string, name: string, kind: string, tail: string, at: nat)
    requires IsValueLine(line, name, kind, tail) && Absent(GAP + name + GAP, kind) && at < 4 + |name|
    ensures !OccursAt(line, GAP + kind + GAP, at)
  {
    if OccursAt(line, GAP + kind + GAP, at) {
      TokenStart(line, kind, at);
      LineParts(line, name, kind, tail);
      EarlierToken(line, 4 + |name|, kind, at);
      EarlierIsInName(line, name, kind, tail, kind, at);
    }
  }

  lemma OwnOccurs(line: string, name: string, kind: string, tail: string)
    requires IsValueLine(line, name, kind, tail) && GAP <= tail
    ensures OccursAt(line, GAP + kind + GAP, 4 + |name|)
  {
  }

  /** The line's own type cuts at its own place, with the gap behind it. */
  lemma OwnCandidate(line: string, name: string, kind: string, tail: string)
    requires IsValueLine(line, name, kind, tail) && Absent(GAP + name + GAP, kind) && GAP <= tail
    ensures Candidate(line, kind) == Some((4 + |name|, 8 + |kind|))
  {
    OwnOccurs(line, name, kind, tail);
    var at := FindText(line, GAP + kind + GAP).value;
    if at < 4 + |name| {
      NoEarlierToken(line, name, kind, tail, at);
    }
  }

  /** Every other type, if it cuts the line at all, cuts it further right. */
  predicate OthersLater(line: string, kinds: seq<string>, kind: string, at: nat) {
    forall i :: 0 <= i < |kinds| && kinds[i] != kind && Candidate(line, kinds[i]).Some? ==>
      Candidate(line, kinds[i]).value.0 > at
  }

  /** Then the best cut is that type's own once it has been tried, and lies right of it before. */
  lemma {:induction false} OwnCutWins(line: string, kinds: seq<string>, kind: string, at: nat, consumed: nat)
    requires OthersLater(line, kinds, kind, at) && Candidate(line, kind) == Some((at, consumed))
    ensures if kind in kinds then BestCut(line, kinds) == Some(Cut(at, consumed, kind))
            else BestCut(line, kinds).Some? ==> BestCut(line, kinds).value.at > at
  {
    if kinds != [] {
      var n := |kinds| - 1;
      OwnCutWins(line, kinds[..n], kind, at, consumed);
      assert kinds == kinds[..n] + [kinds[n]];
    }
  }

  lemma TrimStep(text: string, rest: string)
    requires text != "" && IsWhitespace(text[0]) && rest == text[1..]
    ensures Trim(text) == Trim(rest)
  {
  }

  lemma TrimGap(text: string)
    ensures Trim(GAP + text) == Trim(text)
  {
    var padded := GAP + text;
    TrimStep(padded, padded[1..]);
    TrimStep(padded[1..], padded[2..]);
    TrimStep(padded[2..], padded[3..]);
    TrimStep(padded[3..], padded[4..]);
    assert padded[4..] == text;
  }

  lemma TrimPadded(name: string)
    requires IsTrimmed(name)
    ensures Trim(GAP + name) == name
  {
    TrimGap(name);
  }

  /** The best cut is at least as far left as any type's own. */
  lemma {:induction false} BestIsLeftmost(line: string, kinds: seq<string>, kind: string)
    requires kind in kinds && Candidate(line, kind).Some?
    ensures BestCut(line, kinds).Some? && BestCut(line, kinds).value.at <= Candidate(line, kind).value.0
  {
    var n := |kinds| - 1;
    assert kinds == kinds[..n] + [kinds[n]];
    if kinds[n] != kind {
      BestIsLeftmost(line, kinds[..n], kind);
    }
  }

  /** A cut further left leaves less than the name. */
  lemma TrimShrinks(front: string, name: string)
    requires |front| < 4 + |name| && front == (GAP + name)[..|front|] && name != ""
    ensures |Trim(front)| < |name|
  {
    if |front| >= 4 {
      assert front == GAP + name[..|front| - 4];
      TrimGap(name[..|front| - 4]);
    } else {
      assert IsBlank(front);
    }
  }

  lemma PlainNameReturns(line: string, name: string, kind: string, tail: string, consumed: nat, kinds: seq<string>)
    requires IsTrimmed(name) && IsValueLine(line, name, kind, tail) && NoneOf(GAP + name + GAP, kinds)
    requires IsTypeTable(kinds) && kind in kinds
    requires Candidate(line, kind) == Some((4 + |name|, consumed))
    ensures 4 + |name| + consumed <= |line|
    ensures ValueWith(line, kinds) == Some((name, RawSetting(kind, line[4 + |name| + consumed..])))
  {
    OthersAreLater(line, name, kind, tail, kinds);
    OwnCutWins(line, kinds, kind, 4 + |name|, consumed);
    LineParts(line, name, kind, tail);
    NameOfCut(line, name, Cut(4 + |name|, consumed, kind));
  }

  lemma NameOfCut(line: string, name: string, cut: Cut)
    requires IsTrimmed(name) && cut.at == 4 + |name| && cut.at + cut.consumed <= |line|
    requires line[..cut.at] == GAP + name
    ensures ValueAt(line, Some(cut)) == Some((name, RawSetting(cut.kind, line[cut.at + cut.consumed..])))
  {
    TrimPadded(name);
  }

  lemma OthersAreLater(line: string, name: string, kind: string, tail: string, kinds: seq<string>)
    requires IsValueLine(line, name, kind, tail) && NoneOf(GAP + name + GAP, kinds)
    requires IsTypeTable(kinds) && kind in kinds
    ensures OthersLater(line, kinds, kind, 4 + |name|)
  {
    forall i | 0 <= i < |kinds| && kinds[i] != kind && Candidate(line, kinds[i]).Some?
      ensures Candidate(line, kinds[i]).value.0 > 4 + |name|
    {
      var j :| 0 <= j < |kinds| && kinds[j] == kind;
      assert kinds[i][4] != kinds[j][4];
      OtherCandidate(line, name, kind, tail, kinds[i]);
    }
  }

  lemma TokenHidesName(line: string, name: string, kind: string, tail: string, other: string, kinds: seq<string>)
    requires IsTrimmed(name) && IsValueLine(line, name, kind, tail) && other in kinds && IsWord(other)
    requires !Absent(GAP + name + GAP, other)
    ensures ValueWith(line, kinds).Some? ==> ValueWith(line, kinds).value.0 != name
  {
    LineParts(line, name, kind, tail);
    TokenInLine(line, name, other);
    BestIsLeftmost(line, kinds, other);
    var cut := BestCut(line, kinds).value;
    assert line[..cut.at] == line[..4 + |name|][..cut.at];
    TrimShrinks(line[..cut.at], name);
  }

  lemma TokenInLine(line: string, name: string, other: string)
    requires |line| >= 8 + |name| && line[..8 + |name|] == GAP + name + GAP && IsWord(other)
    requires !Absent(GAP + name + GAP, other)
    ensures Candidate(line, other).Some? && Candidate(line, other).value.0 < 4 + |name|
  {
    var at :| 0 <= at <= |GAP + name + GAP| && OccursAt(GAP + name + GAP, GAP + other + GAP, at);
    assert line[at..at + 8 + |other|] == line[..8 + |name|][at..at + 8 + |other|];
    assert OccursAt(line, GAP + other + GAP, at);
  }

  lemma LineReturns(name: string, kind: string, data: string, kinds: seq<string>)
    requires IsTrimmed(name) && IsTypeTable(kinds) && kind in kinds
    ensures ValueWith(PrintedLine(name, RawSetting(kind, data)), kinds) == Some((name, RawSetting(kind, data)))
       <==> NoneOf(GAP + name + GAP, kinds)
  {
    var line := PrintedLine(name, RawSetting(kind, data));
    assert line == GAP + name + GAP + kind + (GAP + data);
    if NoneOf(GAP + name + GAP, kinds) {
      OwnCandidate(line, name, kind, GAP + data);
      PlainNameReturns(line, name, kind, GAP + data, 8 + |kind|, kinds);
      assert line[12 + |name| + |kind|..] == data;
    } else {
      var i :| 0 <= i < |kinds| && !Absent(GAP + name + GAP, kinds[i]);
      TokenHidesName(line, name, kind, GAP + data, kinds[i], kinds);
    }
  }

  /**
   Exactly the names that come back from their line: those whose padded text holds no type token
   between gaps, whatever the data holds.
   */
  lemma LineRoundTrip(name: string, kind: string, data: string)
    requires IsTrimmed(name) && kind in REG_TYPES
    ensures ValueOf(PrintedLine(name, RawSetting(kind, data))) == Some((name, RawSetting(kind, data)))
       <==> IsPlainName(name)
  {
    RegTypesAreTypes();
    LineReturns(name, kind, data, REG_TYPES);
  }

  /** The start of the line's own type in front of the name, closed by nothing. */
  predicate OpensLike(name: string, kind: string) {
    exists at :: 0 <= at <= |name| && OccursAt(GAP + name, GAP + kind, at)
  }

  lemma BareReturns(name: string, kind: string, kinds: seq<string>)
    requires IsTrimmed(name) && IsTypeTable(kinds) && kind in kinds
    ensures ValueWith(GAP + name + GAP + kind, kinds) == Some((name, RawSetting(kind, "")))
       <==> NoneOf(GAP + name + GAP, kinds) && !OpensLike(name, kind)
  {
    var line := GAP + name + GAP + kind;
    assert line == line + "";
    if !NoneOf(GAP + name + GAP, kinds) {
      var i :| 0 <= i < |kinds| && !Absent(GAP + name + GAP, kinds[i]);
      TokenHidesName(line, name, kind, "", kinds[i], kinds);
    } else {
      BareCandidate(line, name, kind);
      if OpensLike(name, kind) {
        BareHidden(line, kind, kinds);
      } else {
        PlainNameReturns(line, name, kind, "", 4 + |kind|, kinds);
      }
    }
  }

  /**
   The line printed for empty data with nothing behind the type: the name must not open with that type
   anywhere either.
   */
  lemma BareLineRoundTrip(name: string, kind: string)
    requires IsTrimmed(name) && kind in REG_TYPES
    ensures ValueOf(GAP + name + GAP + kind) == Some((name, RawSetting(kind, "")))
       <==> IsPlainName(name) && !OpensLike(name, kind)
  {
    RegTypesAreTypes();
    BareReturns(name, kind, REG_TYPES);
  }

  lemma BareCandidate(line: string, name: string, kind: string)
    requires IsValueLine(line, name, kind, "") && Absent(GAP + name + GAP, kind)
    ensures Candidate(line, kind) == if OpensLike(name, kind) then None else Some((4 + |name|, 4 + |kind|))
  {
    NoWholeToken(line, name, kind);
    OwnBare(line, name, kind);
    var at := FindText(line, GAP + kind).value;
    if at < 4 + |name| {
      EarlyIsInName(line, name, kind, at);
    } else if OpensLike(name, kind) {
      var early :| 0 <= early <= |name| && OccursAt(GAP + name, GAP + kind, early);
      EarlyIsInLine(line, name, kind, early);
    }
  }

  lemma NoWholeToken(line: string, name: string, kind: string)
    requires IsValueLine(line, name, kind, "") && Absent(GAP + name + GAP, kind)
    ensures FindText(line, GAP + kind + GAP) == None
  {
    var found := FindText(line, GAP + kind + GAP);
    if found.Some? && found.value < 4 + |name| {
      NoEarlierToken(line, name, kind, "", found.value);
    }
  }

  lemma OwnBare(line: string, name: string, kind: string)
    requires IsValueLine(line, name, kind, "")
    ensures OccursAt(line, GAP + kind, 4 + |name|) && |line| == 8 + |name| + |kind|
  {
  }

  lemma EarlyIsInName(line: string, name: string, kind: string, at: nat)
    requires IsValueLine(line, name, kind, "") && OccursAt(line, GAP + kind, at) && at < 4 + |name|
    ensures OpensLike(name, kind) && !IsBlank(line[at + 4 + |kind|..])
  {
    var p := 4 + |name|;
    LineParts(line, name, kind, "");
    EarlierToken(line, p, kind, at);
    assert line[..p][at..at + 4 + |kind|] == line[at..at + 4 + |kind|];
    assert OccursAt(GAP + name, GAP + kind, at);
    assert line[at + 4 + |kind|..][p - at - |kind|] == line[p + 4];
    SliceAt(line, p + 4, kind, 0);
    assert !IsWhitespace(kind[0]);
  }

  lemma EarlyIsInLine(line: string, name: string, kind: string, early: nat)
    requires IsValueLine(line, name, kind, "") && OccursAt(GAP + name, GAP + kind, early)
    ensures OccursAt(line, GAP + kind, early) && early < 4 + |name|
  {
  }

  lemma {:induction false} BareHidden(line: string, kind: string, kinds: seq<string>)
    requires Candidate(line, kind) == None
    ensures BestCut(line, kinds).Some? ==> BestCut(line, kinds).value.kind != kind
  {
    if kinds != [] {
      BareHidden(line, kind, kinds[..|kinds| - 1]);
    }
  }

  /** A name without spaces, as every name the product writes, is plain unless it spells a type itself. */
  lemma PlainWithoutSpaces(name: string)
    requires ' ' !in name && name != ""
    ensures IsPlainName(name) <==> name !in REG_TYPES
  {
    RegTypesAreTypes();
    var text := GAP + name + GAP;
    if name in REG_TYPES {
      var i :| 0 <= i < |REG_TYPES| && REG_TYPES[i] == name;
      assert OccursAt(text, GAP + name + GAP, 0);
    } else {
      forall i, at | 0 <= i < |REG_TYPES| && 0 <= at <= |text| ensures !OccursAt(text, GAP + REG_TYPES[i] + GAP, at) {
        OnlyItself(name, REG_TYPES[i], at);
      }
    }
  }

  lemma OnlyItself(name: string, kind: string, at: nat)
    requires ' ' !in name && IsWord(kind) && name != kind
    ensures !OccursAt(GAP + name + GAP, GAP + kind + GAP, at)
  {
    if OccursAt(GAP + name + GAP, GAP + kind + GAP, at) {
      SameWord(name, kind, at);
    }
  }

  lemma SameWord(name: string, kind: string, at: nat)
    requires ' ' !in name && IsWord(kind) && OccursAt(GAP + name + GAP, GAP + kind + GAP, at)
    ensures name == kind
  {
    var text, pattern := GAP + name + GAP, GAP + kind + GAP;
    SliceAt(text, at, pattern, 3);
    SliceAt(text, at, pattern, 4);
    SliceAt(text, at, pattern, 4 + |kind|);
    assert !IsWhitespace(kind[0]) && pattern[4] == kind[0] && pattern[4 + |kind|] == ' ';
    assert forall j :: 4 <= j < 4 + |name| ==> text[j] == name[j - 4] && text[j] != ' ';
    assert at == 0 && |kind| >= |name|;
    SliceAt(text, at, pattern, 3 + |kind|);
    assert pattern[3 + |kind|] == kind[|kind| - 1] && !IsWhitespace(kind[|kind| - 1]);
    assert text[4..4 + |name|] == name && pattern[4..4 + |kind|] == kind;
  }

  /** str::lines: split at each line feed, without one carriage return in front of it. */
  function Lines(text: string): seq<string> {
    if text == "" then []
    else
      match FindText(text, "\n")
      case None => [text]
      case Some(at) => [WithoutReturn(text[..at])] + Lines(text[at + 1..])
  }

  function WithoutReturn(line: string): string {
    if line != "" && line[|line| - 1] == '\r' then line[..|line| - 1] else line
  }

  /** The values of the lines that are value lines, in order. */
  function ValuesOf(lines: seq<string>): (values: seq<(string, RawSetting)>)
    ensures |values| <= |lines|
  {
    if lines == [] then []
    else
      match ValueOf(lines[0])
      case None => ValuesOf(lines[1..])
      case Some(value) => [value] + ValuesOf(lines[1..])
  }

  lemma {:induction false} ValuesSnoc(lines: seq<string>, last: string)
    ensures ValuesOf(lines + [last])
         == ValuesOf(lines) + match ValueOf(last) { case None => [] case Some(value) => [value] }
  {
    if lines == [] {
      assert lines + [last] == [last];
      assert ValuesOf([]) == [];
    } else {
      ValuesSnoc(lines[1..], last);
      assert (lines + [last])[1..] == lines[1..] + [last];
    }
  }

  /** parse_reg_query. */
  method ParseRegQuery(output: string) returns (values: seq<(string, RawSetting)>)
    ensures values == ValuesOf(Lines(output))
  {
    values := [];
    var lines := Lines(output);
    for i := 0 to |lines|
      invariant values == ValuesOf(lines[..i])
    {
      assert lines[..i + 1] == lines[..i] + [lines[i]];
      ValuesSnoc(lines[..i], lines[i]);
      var value := SplitValueLine(lines[i]);
      if value.Some? {
        values := values + [value.value];
      }
    }
    assert lines[..|lines|] == lines;
  }

  /** The lines of the values and the blank line after them. */
  function PrintedLines(values: seq<(string, RawSetting)>): string {
    if values == [] then "\r\n" else PrintedLine(values[0].0, values[0].1) + "\r\n" + PrintedLines(values[1..])
  }

  /** What `reg query` prints for a key: a blank line, the key, its values. */
  function PrintedQuery(header: string, values: seq<(string, RawSetting)>): string {
    "" + "\r\n" + (header + "\r\n" + PrintedLines(values))
  }

  lemma LinesStep(text: string, line: string, rest: string)
    requires '\n' !in line && text == line + "\r\n" + rest
    ensures Lines(text) == [line] + Lines(rest)
  {
    var at := |line| + 1;
    assert text[at..at + 1] == "\n" && OccursAt(text, "\n", at);
    forall i | 0 <= i < at ensures !OccursAt(text, "\n", i) {
      assert text[i] != '\n';
      assert text[i..i + 1][0] == text[i];
    }
    assert FindText(text, "\n") == Some(at);
    assert text[..at] == line + ['\r'];
    assert WithoutReturn(line + ['\r']) == line;
    assert text[at + 1..] == rest;
  }

  /** A value whose line stays one line. */
  predicate IsOneLine(value: (string, RawSetting)) {
    IsTrimmed(value.0) && value.1.kind in REG_TYPES && '\n' !in value.0 && '\n' !in value.1.data
  }

  predicate AllOneLine(values: seq<(string, RawSetting)>) {
    forall i :: 0 <= i < |values| ==> IsOneLine(values[i])
  }

  predicate AllPlainNames(values: seq<(string, RawSetting)>) {
    forall i :: 0 <= i < |values| ==> IsPlainName(values[i].0)
  }

  lemma OneLine(value: (string, RawSetting))
    requires IsOneLine(value)
    ensures '\n' !in PrintedLine(value.0, value.1)
  {
    var kind := value.1.kind;
    RegTypesAreTypes();
    assert IsWord(kind);
    forall i | 0 <= i < |kind| ensures kind[i] != '\n' {
      assert !IsWhitespace(kind[i]);
    }
    assert '\n' !in GAP;
  }

  lemma BlankEnd()
    ensures Lines("\r\n") == [""] && ValuesOf([""]) == []
  {
    LinesStep("\r\n", "", "");
    NoGapNoValue("");
    assert [""][1..] == [];
  }

  /** Parsing printed lines gives the values back exactly when every name is plain. */
  lemma {:induction false} LinesRoundTrip(values: seq<(string, RawSetting)>)
    requires AllOneLine(values)
    ensures ValuesOf(Lines(PrintedLines(values))) == values <==> AllPlainNames(values)
    ensures |ValuesOf(Lines(PrintedLines(values)))| <= |values|
  {
    if values == [] {
      BlankEnd();
    } else {
      var rest := values[1..];
      LinesRoundTrip(rest);
      var line := PrintedLine(values[0].0, values[0].1);
      OneLine(values[0]);
      LinesStep(PrintedLines(values), line, PrintedLines(rest));
      LineRoundTrip(values[0].0, values[0].1.kind, values[0].1.data);
      LinesCons(values, Lines(PrintedLines(rest)), line);
    }
  }

  lemma LinesCons(values: seq<(string, RawSetting)>, others: seq<string>, line: string)
    requires values != [] && |ValuesOf(others)| <= |values| - 1
    requires ValuesOf(others) == values[1..] <==> AllPlainNames(values[1..])
    requires ValueOf(line) == Some(values[0]) <==> IsPlainName(values[0].0)
    ensures |ValuesOf([line] + others)| <= |values|
    ensures ValuesOf([line] + others) == values <==> AllPlainNames(values)
  {
  }

  /** Lines without spaces hold no value: the key's own line, and blank ones. */
  lemma {:induction false} NoGapNoValue(line: string)
    requires ' ' !in line
    ensures ValueOf(line) == None
  {
    NoGapNoCut(line, REG_TYPES);
  }

  lemma NoSpaceNoMatch(line: string, pattern: string, at: nat)
    requires ' ' !in line && pattern != "" && pattern[0] == ' '
    ensures !OccursAt(line, pattern, at)
  {
  }

  lemma {:induction false} NoGapNoCut(line: string, kinds: seq<string>)
    requires ' ' !in line
    ensures BestCut(line, kinds) == None
  {
    if kinds != [] {
      var kind := kinds[|kinds| - 1];
      NoGapNoCut(line, kinds[..|kinds| - 1]);
      forall at | 0 <= at ensures !OccursAt(line, GAP + kind, at) {
        NoSpaceNoMatch(line, GAP + kind, at);
      }
      forall at | 0 <= at ensures !OccursAt(line, GAP + kind + GAP, at) {
        NoSpaceNoMatch(line, GAP + kind + GAP, at);
      }
    }
  }

  lemma SkipHeader(header: string, values: seq<(string, RawSetting)>)
    requires ' ' !in header && '\n' !in header
    ensures ValuesOf(Lines(PrintedQuery(header, values))) == ValuesOf(Lines(PrintedLines(values)))
  {
    var body := header + "\r\n" + PrintedLines(values);
    LinesStep(PrintedQuery(header, values), "", body);
    LinesStep(body, header, PrintedLines(values));
    NoGapNoValue("");
    NoGapNoValue(header);
    SkipLine("", [header] + Lines(PrintedLines(values)));
    SkipLine(header, Lines(PrintedLines(values)));
  }

  /**
   parse_reg_query inverts what `reg query` prints for every list of values whose names and data hold no
   line feed, exactly when no name holds a type token between gaps: spaces and type words in the data do
   not matter.
   */
  lemma QueryRoundTrip(header: string, values: seq<(string, RawSetting)>)
    requires AllOneLine(values) && ' ' !in header && '\n' !in header
    ensures ValuesOf(Lines(PrintedQuery(header, values))) == values <==> AllPlainNames(values)
  {
    SkipHeader(header, values);
    LinesRoundTrip(values);
  }

  lemma SkipLine(line: string, others: seq<string>)
    requires ValueOf(line) == None
    ensures ValuesOf([line] + others) == ValuesOf(others)
  {
  }
}
