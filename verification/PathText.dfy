/** String operations of the resolver: splitting, joining, searching from the right, swapping separators. */
module PathText {
  import opened Results

  /** str::find: the index of the first `c`, or the length. */
  function Find(text: string, c: char): (index: nat)
    ensures index <= |text| && c !in text[..index]
    ensures index < |text| ==> text[index] == c
    ensures index == |text| <==> c !in text
  {
    if text == "" || text[0] == c then 0
    else
      assert text == [text[0]] + text[1..];
      1 + Find(text[1..], c)
  }

  /** str::split on one character: always at least one part. */
  function Split(text: string, separator: char): (parts: seq<string>)
    ensures |parts| >= 1
    decreases |text|
  {
    var at := Find(text, separator);
    if at == |text| then [text] else [text[..at]] + Split(text[at + 1..], separator)
  }

  /** The parts hold no separator, and nothing the text does not hold. */
  lemma {:induction false} SplitParts(text: string, separator: char)
    ensures forall part :: part in Split(text, separator) ==> separator !in part
    ensures forall part, c :: part in Split(text, separator) && c in part ==> c in text
    decreases |text|
  {
    var at := Find(text, separator);
    if at < |text| {
      SplitParts(text[at + 1..], separator);
    }
  }

  function Join(parts: seq<string>, separator: char): string
    requires parts != []
  {
    if |parts| == 1 then parts[0] else parts[0] + [separator] + Join(parts[1..], separator)
  }

  function Swap(text: string, from: char, to: char): (swapped: string)
    ensures |swapped| == |text|
    ensures forall i :: 0 <= i < |text| ==> swapped[i] == if text[i] == from then to else text[i]
  {
    seq(|text|, i requires 0 <= i < |text| => if text[i] == from then to else text[i])
  }

  /** Joining what was split swaps the separators, so with one separator it gives the text back. */
  lemma {:induction false} JoinSplit(text: string, from: char, to: char)
    ensures Join(Split(text, from), to) == Swap(text, from, to)
    decreases |text|
  {
    var at := Find(text, from);
    if at == |text| {
      JoinLast(text, from, to);
    } else {
      JoinSplit(text[at + 1..], from, to);
      CutAt(text, at);
      JoinStep(text[..at], from, text[at + 1..], to, text);
    }
  }

  lemma JoinLast(text: string, from: char, to: char)
    requires from !in text
    ensures Join(Split(text, from), to) == Swap(text, from, to)
  {
    SwapNone(text, from, to);
  }

  lemma CutAt(text: string, at: nat)
    requires at < |text|
    ensures text == text[..at] + [text[at]] + text[at + 1..]
  {
  }

  lemma JoinStep(head: string, from: char, rest: string, to: char, text: string)
    requires from !in head && text == head + [from] + rest
    requires Join(Split(rest, from), to) == Swap(rest, from, to)
    ensures Join(Split(text, from), to) == Swap(text, from, to)
  {
    SplitFront(head, from, rest);
    JoinOneMore(head, Split(rest, from), to);
    SwapFront(head, from, rest, to, text);
  }

  lemma JoinOneMore(first: string, others: seq<string>, to: char)
    requires others != []
    ensures Join([first] + others, to) == first + [to] + Join(others, to)
  {
    assert ([first] + others)[1..] == others;
  }

  lemma SwapFront(head: string, from: char, rest: string, to: char, text: string)
    requires from !in head && text == head + [from] + rest
    ensures Swap(text, from, to) == head + [to] + Swap(rest, from, to)
  {
  }

  lemma SwapNone(text: string, from: char, to: char)
    requires from !in text
    ensures Swap(text, from, to) == text
  {
  }

  /** A separator-free front and a separator split off as one part. */
  lemma SplitFront(front: string, separator: char, rest: string)
    requires separator !in front
    ensures Split(front + [separator] + rest, separator) == [front] + Split(rest, separator)
  {
    var text := front + [separator] + rest;
    var at := Find(text, separator);
    assert text[|front|] == separator && text[..|front|] == front;
    FindUnique(text, separator, |front|);
    assert text[at + 1..] == rest;
  }

  /** Two texts around a separator split apart. */
  lemma {:induction false} SplitAppend(front: string, separator: char, back: string, text: string)
    requires text == front + [separator] + back
    ensures Split(text, separator) == Split(front, separator) + Split(back, separator)
    decreases |front|
  {
    var at := Find(front, separator);
    if at == |front| {
      SplitFront(front, separator, back);
    } else {
      var head, rest := front[..at], front[at + 1..];
      SplitAppend(rest, separator, back, rest + [separator] + back);
      HeadAndRest(front, at, separator, back, text, head, rest);
      AppendStep(head, separator, rest, back, rest + [separator] + back, front, text);
    }
  }

  lemma HeadAndRest(front: string, at: nat, separator: char, back: string, text: string, head: string, rest: string)
    requires at < |front| && front[at] == separator && head == front[..at] && rest == front[at + 1..]
    requires text == front + [separator] + back
    ensures front == head + [separator] + rest && text == head + [separator] + (rest + [separator] + back)
  {
  }

  lemma AppendStep(head: string, separator: char, rest: string, back: string, more: string, front: string, text: string)
    requires separator !in head && front == head + [separator] + rest && text == head + [separator] + more
    requires Split(more, separator) == Split(rest, separator) + Split(back, separator)
    ensures Split(text, separator) == Split(front, separator) + Split(back, separator)
  {
    SplitFront(head, separator, rest);
    SplitFront(head, separator, more);
    Associated([head], Split(rest, separator), Split(back, separator));
  }

  lemma Associated<T>(first: seq<T>, second: seq<T>, third: seq<T>)
    ensures first + (second + third) == first + second + third
  {
  }

  lemma FindUnique(text: string, c: char, index: nat)
    requires index < |text| && text[index] == c && c !in text[..index]
    ensures Find(text, c) == index
  {
  }

  /** str::rfind. */
  function RFind(text: string, c: char): (index: Option<nat>)
    ensures index.None? <==> forall i :: 0 <= i < |text| ==> text[i] != c
    ensures index.Some? ==>
      index.value < |text| && text[index.value] == c && forall i :: index.value < i < |text| ==> text[i] != c
  {
    RFindBelow(text, c, |text|)
  }

  function RFindBelow(text: string, c: char, n: nat): (index: Option<nat>)
    requires n <= |text|
    ensures index.None? <==> forall i :: 0 <= i < n ==> text[i] != c
    ensures index.Some? ==>
      index.value < n && text[index.value] == c && forall i :: index.value < i < n ==> text[i] != c
  {
    if n == 0 then None else if text[n - 1] == c then Some(n - 1) else RFindBelow(text, c, n - 1)
  }

  lemma RFindLast(front: string, c: char, back: string)
    requires c !in back
    ensures RFind(front + [c] + back, c) == Some(|front|)
  {
    var text := front + [c] + back;
    assert text[|front|] == c;
    forall i | |front| < i < |text| ensures text[i] != c {
      assert text[i] == back[i - |front| - 1];
    }
  }

  predicate StartsWith(text: string, prefix: string) {
    prefix <= text
  }

  predicate EndsWithChar(text: string, c: char) {
    text != "" && text[|text| - 1] == c
  }

  /** str::trim_end_matches on one character. */
  function TrimEnd(text: string, c: char): (trimmed: string)
    ensures trimmed <= text && !EndsWithChar(trimmed, c)
    ensures forall i :: |trimmed| <= i < |text| ==> text[i] == c
  {
    if EndsWithChar(text, c) then TrimEnd(text[..|text| - 1], c) else text
  }
}
