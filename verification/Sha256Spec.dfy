/**
 SHA-256 as FIPS 180-4 defines it (sections 4.1.2, 5.1.1 and 6.2.2): padding, message schedule, rounds
 and blocks as recursive definitions, and what the padding and the digest text guarantee.
 */
module Sha256Spec {
  import opened Results
  import opened Widths
  import opened Numerals
  import opened Sha256Constants

  /** The zero bytes between the end mark and the length: what is missing to 56 modulo 64. */
  function ZeroCount(length: nat): (count: nat)
    ensures count < 64 && (length + 1 + count) % 64 == 56
  {
    (119 - length % 64) % 64
  }

  function ZeroBytes(count: nat): (zeros: seq<u8>)
    ensures |zeros| == count
  {
    if count == 0 then [] else ZeroBytes(count - 1) + [0]
  }

  /** A number as big-endian bytes. */
  function BigEndian(value: nat, width: nat): (bytes: seq<u8>)
    ensures |bytes| == width
  {
    if width == 0 then [] else BigEndian(value / 0x100, width - 1) + [value % 0x100]
  }

  function FromBigEndian(bytes: seq<u8>): nat {
    if bytes == [] then 0 else FromBigEndian(bytes[..|bytes| - 1]) * 0x100 + bytes[|bytes| - 1]
  }

  function PowerOf256(width: nat): nat {
    if width == 0 then 1 else 0x100 * PowerOf256(width - 1)
  }

  /** Section 5.1.1: a one bit, zero bits, and the length in bits. */
  function PaddedMessage(input: seq<u8>): seq<u8> {
    input + [0x80] + ZeroBytes(ZeroCount(|input|)) + BigEndian(8 * |input|, 8)
  }

  lemma PaddedSize(input: seq<u8>)
    ensures |PaddedMessage(input)| == |input| + 9 + ZeroCount(|input|) && |PaddedMessage(input)| % 64 == 0
  {
    EightMore(|input| + 1 + ZeroCount(|input|));
  }

  lemma EightMore(size: nat)
    requires size % 64 == 56
    ensures (size + 8) % 64 == 0
  {
  }

  /** No shorter whole number of blocks holds the message, its end mark and the length. */
  lemma PaddingIsShortest(input: seq<u8>, total: nat)
    requires total % 64 == 0 && total >= |input| + 9
    ensures |PaddedMessage(input)| <= total
  {
    PaddedSize(input);
    WholeBlocks(|PaddedMessage(input)|, total);
  }

  lemma WholeBlocks(size: nat, total: nat)
    requires size % 64 == 0 && total % 64 == 0 && size < total + 64
    ensures size <= total
  {
  }

  lemma {:induction false} BigEndianReturns(value: nat, width: nat)
    requires value < PowerOf256(width)
    ensures FromBigEndian(BigEndian(value, width)) == value
  {
    if width > 0 {
      BigEndianReturns(value / 0x100, width - 1);
      assert BigEndian(value, width)[..width - 1] == BigEndian(value / 0x100, width - 1);
    }
  }

  lemma EightBytes()
    ensures PowerOf256(8) == U64_LIMIT
  {
  }

  /** A padded message starts with the message and ends in its length. */
  lemma PaddedEnds(input: seq<u8>)
    requires 8 * |input| < U64_LIMIT
    ensures var padded := PaddedMessage(input);
            && |padded| >= |input| + 9 && padded[..|input|] == input
            && FromBigEndian(padded[|padded| - 8..]) == 8 * |input|
  {
    var padded := PaddedMessage(input);
    PaddedSize(input);
    assert padded[|padded| - 8..] == BigEndian(8 * |input|, 8);
    EightBytes();
    BigEndianReturns(8 * |input|, 8);
  }

  /** Different messages have different padded messages. */
  lemma PaddingIsInjective(first: seq<u8>, second: seq<u8>)
    requires 8 * |first| < U64_LIMIT && 8 * |second| < U64_LIMIT
    requires PaddedMessage(first) == PaddedMessage(second)
    ensures first == second
  {
    PaddedEnds(first);
    PaddedEnds(second);
  }

  /**
   The word operations of section 4.1.2. The hash is defined over any words with these operations, and
   none of their properties is needed.
   */
  datatype WordOps<!W> = WordOps(
    fromBytes: (u8, u8, u8, u8) -> W,
    add: (W, W) -> W,
    choose: (W, W, W) -> W,
    majority: (W, W, W) -> W,
    bigSigma0: W -> W,
    bigSigma1: W -> W,
    smallSigma0: W -> W,
    smallSigma1: W -> W)

  datatype State<W> = State(a: W, b: W, c: W, d: W, e: W, f: W, g: W, h: W)

  /** A big-endian word of a block. */
  function Word<W>(ops: WordOps<W>, block: seq<u8>, index: nat): W
    requires 4 * index + 4 <= |block|
  {
    ops.fromBytes(block[4 * index], block[4 * index + 1], block[4 * index + 2], block[4 * index + 3])
  }

  /** The message schedule as the program adds it up. */
  function Schedule<W>(ops: WordOps<W>, block: seq<u8>, t: nat): W
    requires |block| == 64
  {
    if t < 16 then Word(ops, block, t)
    else
      ops.add(
        ops.add(
          ops.add(Schedule(ops, block, t - 16), ops.smallSigma0(Schedule(ops, block, t - 15))),
          Schedule(ops, block, t - 7)),
        ops.smallSigma1(Schedule(ops, block, t - 2)))
  }

  /** Section 6.2.2, step 1: the message schedule, its terms in the order of the standard. */
  function StandardSchedule<W>(ops: WordOps<W>, block: seq<u8>, t: nat): W
    requires |block| == 64
  {
    if t < 16 then Word(ops, block, t)
    else
      ops.add(
        ops.add(
          ops.add(ops.smallSigma1(StandardSchedule(ops, block, t - 2)), StandardSchedule(ops, block, t - 7)),
          ops.smallSigma0(StandardSchedule(ops, block, t - 15))),
        StandardSchedule(ops, block, t - 16))
  }

  predicate Commute<W(==)>(ops: WordOps<W>, x: W, y: W) {
    ops.add(x, y) == ops.add(y, x)
  }

  predicate Associate<W(==)>(ops: WordOps<W>, x: W, y: W, z: W) {
    ops.add(ops.add(x, y), z) == ops.add(x, ops.add(y, z))
  }

  /** Addition may be reordered. */
  ghost predicate Reorders<W(!new)>(ops: WordOps<W>) {
    (forall x, y :: Commute(ops, x, y)) && forall x, y, z :: Associate(ops, x, y, z)
  }

  lemma SumOrder<W(!new)>(ops: WordOps<W>, a: W, b: W, c: W, d: W)
    requires Reorders(ops)
    ensures ops.add(ops.add(ops.add(a, b), c), d) == ops.add(ops.add(ops.add(d, c), b), a)
  {
    assert Commute(ops, a, b) && Commute(ops, ops.add(a, b), c) && Commute(ops, ops.add(ops.add(a, b), c), d);
    assert Associate(ops, d, c, ops.add(b, a)) && Associate(ops, ops.add(d, c), b, a);
  }

  /** Then the program's schedule is the standard's. */
  lemma {:induction false} ScheduleIsStandard<W(!new)>(ops: WordOps<W>, block: seq<u8>, t: nat)
    requires |block| == 64 && Reorders(ops)
    ensures Schedule(ops, block, t) == StandardSchedule(ops, block, t)
  {
    if t >= 16 {
      ScheduleIsStandard(ops, block, t - 2);
      ScheduleIsStandard(ops, block, t - 7);
      ScheduleIsStandard(ops, block, t - 15);
      ScheduleIsStandard(ops, block, t - 16);
      SumOrder(ops, Schedule(ops, block, t - 16), ops.smallSigma0(Schedule(ops, block, t - 15)),
               Schedule(ops, block, t - 7), ops.smallSigma1(Schedule(ops, block, t - 2)));
    }
  }

  /** Section 6.2.2, step 3: one round. */
  function Round<W>(ops: WordOps<W>, s: State<W>, k: W, w: W): State<W> {
    var t1 := ops.add(ops.add(ops.add(ops.add(s.h, ops.bigSigma1(s.e)), ops.choose(s.e, s.f, s.g)), k), w);
    var t2 := ops.add(ops.bigSigma0(s.a), ops.majority(s.a, s.b, s.c));
    State(ops.add(t1, t2), s.a, s.b, s.c, ops.add(s.d, t1), s.e, s.f, s.g)
  }

  /** The first rounds of a block. */
  function Rounds<W>(ops: WordOps<W>, s: State<W>, block: seq<u8>, constants: seq<W>, count: nat): State<W>
    requires |block| == 64 && count <= |constants|
  {
    if count == 0 then s
    else Round(ops, Rounds(ops, s, block, constants, count - 1), constants[count - 1], Schedule(ops, block, count - 1))
  }

  /** Section 6.2.2, step 4. */
  function Sum<W>(ops: WordOps<W>, s: State<W>, t: State<W>): State<W> {
    State(ops.add(s.a, t.a), ops.add(s.b, t.b), ops.add(s.c, t.c), ops.add(s.d, t.d),
          ops.add(s.e, t.e), ops.add(s.f, t.f), ops.add(s.g, t.g), ops.add(s.h, t.h))
  }

  function BlockAt(bytes: seq<u8>, index: nat): (block: seq<u8>)
    requires 64 * index + 64 <= |bytes|
    ensures |block| == 64
  {
    bytes[64 * index..64 * index + 64]
  }

  /** The state after the first blocks of a padded message. */
  function Blocks<W>(ops: WordOps<W>, start: State<W>, bytes: seq<u8>, constants: seq<W>, count: nat): State<W>
    requires 64 * count <= |bytes| && |constants| == 64
  {
    if count == 0 then start
    else
      var before := Blocks(ops, start, bytes, constants, count - 1);
      Sum(ops, before, Rounds(ops, before, BlockAt(bytes, count - 1), constants, |constants|))
  }

  function StateOf<W>(words: seq<W>): State<W>
    requires |words| == 8
  {
    State(words[0], words[1], words[2], words[3], words[4], words[5], words[6], words[7])
  }

  function Words<W>(s: State<W>): seq<W> {
    [s.a, s.b, s.c, s.d, s.e, s.f, s.g, s.h]
  }

  /** u32::from_be_bytes. */
  function FromBytes(b0: u8, b1: u8, b2: u8, b3: u8): u32 {
    b0 * 0x100_0000 + b1 * 0x1_0000 + b2 * 0x100 + b3
  }

  /** wrapping_add. */
  function Add(x: u32, y: u32): u32 {
    (x + y) % 0x1_0000_0000
  }

  function Choose(x: bv32, y: bv32, z: bv32): bv32 {
    (x & y) ^ ((!x) & z)
  }

  function Majority(x: bv32, y: bv32, z: bv32): bv32 {
    (x & y) ^ (x & z) ^ (y & z)
  }

  function BigSigma0(x: bv32): bv32 {
    x.RotateRight(2) ^ x.RotateRight(13) ^ x.RotateRight(22)
  }

  function BigSigma1(x: bv32): bv32 {
    x.RotateRight(6) ^ x.RotateRight(11) ^ x.RotateRight(25)
  }

  function SmallSigma0(x: bv32): bv32 {
    x.RotateRight(7) ^ x.RotateRight(18) ^ (x >> 3)
  }

  function SmallSigma1(x: bv32): bv32 {
    x.RotateRight(17) ^ x.RotateRight(19) ^ (x >> 10)
  }

  /** Choose takes each bit from y or z as x says; majority is what at least two of the three say. */
  lemma BitwiseMeaning(x: bv32, y: bv32, z: bv32)
    ensures Choose(x, y, z) == (x & y) | ((!x) & z)
    ensures Majority(x, y, z) == (x & y) | (x & z) | (y & z)
  {
  }

  /** A bitwise operation on words. */
  function Bitwise1(f: bv32 -> bv32): u32 -> u32 {
    (x: u32) => f(x as bv32) as int
  }

  function Bitwise3(f: (bv32, bv32, bv32) -> bv32): (u32, u32, u32) -> u32 {
    (x: u32, y: u32, z: u32) => f(x as bv32, y as bv32, z as bv32) as int
  }

  /** 32-bit words. */
  function Word32(): WordOps<u32> {
    WordOps(FromBytes, Add, Bitwise3(Choose), Bitwise3(Majority), Bitwise1(BigSigma0), Bitwise1(BigSigma1),
            Bitwise1(SmallSigma0), Bitwise1(SmallSigma1))
  }

  lemma Word32Reorders()
    ensures Reorders(Word32())
  {
    forall x: u32, y: u32 ensures Commute(Word32(), x, y) {
    }
    forall x: u32, y: u32, z: u32 ensures Associate(Word32(), x, y, z) {
      AddAssociates(x, y, z);
    }
  }

  lemma AddAssociates(x: u32, y: u32, z: u32)
    ensures Add(Add(x, y), z) == Add(x, Add(y, z))
  {
    WrapOnce(x + y, z);
    WrapOnce(y + z, x);
  }

  lemma WrapOnce(sum: nat, term: nat)
    ensures (sum % 0x1_0000_0000 + term) % 0x1_0000_0000 == (sum + term) % 0x1_0000_0000
  {
  }

  /** In 32-bit words the program's schedule is the standard's. */
  lemma Word32Schedule(block: seq<u8>, t: nat)
    requires |block| == 64
    ensures Schedule(Word32(), block, t) == StandardSchedule(Word32(), block, t)
  {
    Word32Reorders();
    ScheduleIsStandard(Word32(), block, t);
  }

  function BitsOf(rows: seq<Row>): (words: seq<u32>)
    ensures |words| == |rows|
  {
    seq(|rows|, i requires 0 <= i < |rows| => rows[i].bits % 0x1_0000_0000)
  }

  function RoundConstants(): (constants: seq<u32>)
    ensures |constants| == 64
  {
    BitsOf(CUBE_ROOTS)
  }

  function InitialState(): State<u32> {
    StateOf(BitsOf(SQUARE_ROOTS))
  }

  /** A word as eight hexadecimal digits. */
  function HexWord(word: u32): string {
    Padded(word, 8, 16)
  }

  function HexWords(words: seq<u32>): string {
    if words == [] then "" else HexWords(words[..|words| - 1]) + HexWord(words[|words| - 1])
  }

  /** The state after all whole blocks. */
  function HashOf(bytes: seq<u8>): State<u32> {
    Blocks(Word32(), InitialState(), bytes, RoundConstants(), |bytes| / 64)
  }

  /** The final state of a message. */
  function FinalState(input: seq<u8>): State<u32> {
    HashOf(PaddedMessage(input))
  }

  /** The digest of a message. */
  function Digest(input: seq<u8>): string {
    HexWords(Words(FinalState(input)))
  }

  /** A word's digits are its value in base sixteen, eight of them. */
  lemma HexWordValue(word: u32)
    ensures |HexWord(word)| == 8 && Accumulated(HexWord(word), 16) == Some(word)
    ensures forall i :: 0 <= i < 8 ==> IsDigitChar(HexWord(word)[i])
  {
    EightDigits();
    PaddedValue(word, 8, 16);
  }

  lemma EightDigits()
    ensures Power(16, 8) == 0x1_0000_0000
  {
  }

  /** The text of words: eight lower-case hexadecimal digits each, in order. */
  lemma {:induction false} HexWordsShape(words: seq<u32>)
    ensures |HexWords(words)| == 8 * |words|
    ensures forall i :: 0 <= i < |HexWords(words)| ==> IsDigitChar(HexWords(words)[i])
  {
    if words != [] {
      var n := |words| - 1;
      HexWordsShape(words[..n]);
      HexWordValue(words[n]);
    }
  }

  /** No two lists of words have the same text. */
  lemma {:induction false} HexWordsAreInjective(first: seq<u32>, second: seq<u32>)
    requires HexWords(first) == HexWords(second)
    ensures first == second
  {
    HexWordsShape(first);
    HexWordsShape(second);
    if first != [] {
      var n := |first| - 1;
      HexWordsShape(first[..n]);
      HexWordsShape(second[..n]);
      HexWordValue(first[n]);
      HexWordValue(second[n]);
      SplitAlike(HexWords(first[..n]), HexWord(first[n]), HexWords(second[..n]), HexWord(second[n]));
      HexWordsAreInjective(first[..n], second[..n]);
      assert first == first[..n] + [first[n]] && second == second[..n] + [second[n]];
    }
  }

  lemma SplitAlike(front: string, back: string, otherFront: string, otherBack: string)
    requires front + back == otherFront + otherBack && |front| == |otherFront|
    ensures front == otherFront && back == otherBack
  {
    var text := front + back;
    assert text[..|front|] == front && text[..|front|] == otherFront;
    assert text[|front|..] == back && text[|front|..] == otherBack;
  }

  /** A digest is 64 lower-case hexadecimal digits, and two digests agree exactly when the final states do. */
  lemma DigestShape(input: seq<u8>, other: seq<u8>)
    ensures |Digest(input)| == 64 && forall i :: 0 <= i < 64 ==> IsDigitChar(Digest(input)[i])
    ensures Digest(input) == Digest(other) <==> FinalState(input) == FinalState(other)
  {
    HexWordsShape(Words(FinalState(input)));
    if Digest(input) == Digest(other) {
      HexWordsAreInjective(Words(FinalState(input)), Words(FinalState(other)));
    }
  }
}
