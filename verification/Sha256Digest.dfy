/**
 The digest of a release asset (sha256_hex of crates/fsw-core/src/update.rs): padding by a growing byte
 vector, the schedule and the state in arrays, the registers in locals. It computes what FIPS 180-4
 defines.
 */
module Sha256Digest {
  import opened Results
  import opened Widths
  import opened Sha256Spec

  /** The padding loop. */
  method PadMessage(input: seq<u8>) returns (bytes: seq<u8>)
    ensures bytes == PaddedMessage(input)
  {
    bytes := input + [0x80];
    ghost var zeros := 0;
    while |bytes| % 64 != 56
      invariant zeros <= ZeroCount(|input|)
      invariant bytes == input + [0x80] + ZeroBytes(zeros)
      decreases ZeroCount(|input|) - zeros
    {
      FewerZeros(|input|, zeros);
      bytes := bytes + [0];
      zeros := zeros + 1;
    }
    FewerZeros(|input|, zeros);
    bytes := bytes + BigEndian(8 * |input|, 8);
  }

  /** Below the count the length is not yet right, and at the count it is. */
  lemma FewerZeros(length: nat, zeros: nat)
    requires zeros <= ZeroCount(length)
    ensures (length + 1 + zeros) % 64 == 56 <==> zeros == ZeroCount(length)
  {
  }

  /** The expansion of one block. */
  method Expand<W(!new)>(ops: WordOps<W>, block: seq<u8>, words: array<W>)
    requires |block| == 64 && words.Length == 64
    modifies words
    ensures forall t :: 0 <= t < 64 ==> words[t] == Schedule(ops, block, t)
  {
    for index := 0 to 16
      invariant forall t :: 0 <= t < index ==> words[t] == Schedule(ops, block, t)
    {
      words[index] := Word(ops, block, index);
    }
    ExtendWords(ops, block, words);
  }

  lemma NextWord<W(!new)>(ops: WordOps<W>, block: seq<u8>, words: seq<W>, index: nat, word: W)
    requires |block| == 64 && 16 <= index < |words|
    requires forall t :: 0 <= t < index ==> words[t] == Schedule(ops, block, t)
    requires word == ops.add(ops.add(ops.add(words[index - 16], ops.smallSigma0(words[index - 15])), words[index - 7]),
                             ops.smallSigma1(words[index - 2]))
    ensures word == Schedule(ops, block, index)
  {
  }

  /** Its second loop. */
  method ExtendWords<W(!new)>(ops: WordOps<W>, block: seq<u8>, words: array<W>)
    requires |block| == 64 && words.Length == 64
    requires forall t :: 0 <= t < 16 ==> words[t] == Schedule(ops, block, t)
    modifies words
    ensures forall t :: 0 <= t < 64 ==> words[t] == Schedule(ops, block, t)
  {
    for index := 16 to 64
      invariant forall t :: 0 <= t < index ==> words[t] == Schedule(ops, block, t)
    {
      var s0 := ops.smallSigma0(words[index - 15]);
      var s1 := ops.smallSigma1(words[index - 2]);
      var word := ops.add(ops.add(ops.add(words[index - 16], s0), words[index - 7]), s1);
      NextWord(ops, block, words[..], index, word);
      words[index] := word;
    }
  }

  /** The rounds of one block, in eight registers. */
  method Compress<W(!new)>(ops: WordOps<W>, start: State<W>, block: seq<u8>, words: array<W>, constants: seq<W>)
      returns (end: State<W>)
    requires |block| == 64 && words.Length == 64 && |constants| == 64
    requires forall t :: 0 <= t < 64 ==> words[t] == Schedule(ops, block, t)
    ensures end == Rounds(ops, start, block, constants, |constants|)
  {
    var a, b, c, d, e, f, g, h := start.a, start.b, start.c, start.d, start.e, start.f, start.g, start.h;
    for index := 0 to |constants|
      invariant State(a, b, c, d, e, f, g, h) == Rounds(ops, start, block, constants, index)
    {
      var t1 := ops.add(ops.add(ops.add(ops.add(h, ops.bigSigma1(e)), ops.choose(e, f, g)), constants[index]), words[index]);
      var t2 := ops.add(ops.bigSigma0(a), ops.majority(a, b, c));
      h := g;
      g := f;
      f := e;
      e := ops.add(d, t1);
      d := c;
      c := b;
      b := a;
      a := ops.add(t1, t2);
    }
    end := State(a, b, c, d, e, f, g, h);
  }

  method NewState<W(!new, 0)>(initial: State<W>) returns (state: array<W>)
    ensures fresh(state) && state.Length == 8 && StateOf(state[..]) == initial
  {
    state := new W[8];
    state[0], state[1], state[2], state[3] := initial.a, initial.b, initial.c, initial.d;
    state[4], state[5], state[6], state[7] := initial.e, initial.f, initial.g, initial.h;
  }

  /** The state array takes in the registers. */
  method AddTo<W(!new)>(ops: WordOps<W>, state: array<W>, after: State<W>)
    requires state.Length == 8
    modifies state
    ensures StateOf(state[..]) == Sum(ops, StateOf(old(state[..])), after)
  {
    state[0] := ops.add(state[0], after.a);
    state[1] := ops.add(state[1], after.b);
    state[2] := ops.add(state[2], after.c);
    state[3] := ops.add(state[3], after.d);
    state[4] := ops.add(state[4], after.e);
    state[5] := ops.add(state[5], after.f);
    state[6] := ops.add(state[6], after.g);
    state[7] := ops.add(state[7], after.h);
  }

  lemma BlocksStep<W>(ops: WordOps<W>, start: State<W>, bytes: seq<u8>, constants: seq<W>, i: nat, before: State<W>)
    requires 64 * i + 64 <= |bytes| && |constants| == 64 && before == Blocks(ops, start, bytes, constants, i)
    ensures Blocks(ops, start, bytes, constants, i + 1)
         == Sum(ops, before, Rounds(ops, before, BlockAt(bytes, i), constants, |constants|))
  {
  }

  /** The loop over the blocks. */
  method HashBlocks<W(!new, 0)>(ops: WordOps<W>, state: array<W>, bytes: seq<u8>, constants: seq<W>)
    requires |constants| == 64 && state.Length == 8
    modifies state
    ensures StateOf(state[..]) == Blocks(ops, StateOf(old(state[..])), bytes, constants, |bytes| / 64)
  {
    ghost var initial := StateOf(state[..]);
    var words := new W[64];
    var n := |bytes| / 64;
    for i := 0 to n
      invariant StateOf(state[..]) == Blocks(ops, initial, bytes, constants, i)
    {
      HashBlock(ops, state, words, BlockAt(bytes, i), constants);
      BlocksStep(ops, initial, bytes, constants, i, Blocks(ops, initial, bytes, constants, i));
    }
  }

  method HashBlock<W(!new)>(ops: WordOps<W>, state: array<W>, words: array<W>, block: seq<u8>, constants: seq<W>)
    requires |constants| == 64 && state.Length == 8 && words.Length == 64 && |block| == 64 && state != words
    modifies state, words
    ensures var before := StateOf(old(state[..]));
            StateOf(state[..]) == Sum(ops, before, Rounds(ops, before, block, constants, |constants|))
  {
    Expand(ops, block, words);
    var after := Compress(ops, StateOf(state[..]), block, words, constants);
    AddTo(ops, state, after);
  }

  /** The output loop. */
  method PrintWords(words: seq<u32>) returns (output: string)
    ensures output == HexWords(words)
  {
    output := "";
    for i := 0 to |words|
      invariant output == HexWords(words[..i])
    {
      assert words[..i + 1][..i] == words[..i];
      output := output + HexWord(words[i]);
    }
    assert words[..|words|] == words;
  }

  /** The whole hash of a padded message. */
  method HashMessage(bytes: seq<u8>) returns (words: seq<u32>)
    ensures words == Words(HashOf(bytes))
  {
    var initial := InitialState();
    var state := NewState(initial);
    var constants := RoundConstants();
    HashBlocks(Word32(), state, bytes, constants);
    words := state[..];
    WordsOfState(words);
  }

  lemma WordsOfState<W>(words: seq<W>)
    requires |words| == 8
    ensures Words(StateOf(words)) == words
  {
  }

  /** sha256_hex: None only for an input whose length in bits does not fit 64 bits. */
  method Sha256Hex(input: seq<u8>) returns (digest: Option<string>)
    ensures digest == if 8 * |input| < U64_LIMIT then Some(Digest(input)) else None
  {
    if 8 * |input| >= U64_LIMIT {
      return None;
    }
    var bytes := PadMessage(input);
    var words := HashMessage(bytes);
    var text := PrintWords(words);
    return Some(text);
  }
}
