/**
 SHA-256 as the equations of FIPS 180-4 (sections 4.1.2, 5.1.1, 5.2.1, 5.3.3 and 6.2.2), over bits, bytes
 and sums modulo 2^32 alone: a digest is the computed one exactly if some schedule, registers and hash
 values satisfy them.
 */
module Sha256Law {
  import opened Results
  import opened Widths
  import opened Numerals
  import opened Sha256Constants
  import opened Sha256Spec

  /** Bit `i` of a word; indices count modulo 32. */
  predicate Bit(x: bv32, i: bv5) {
    (x >> i) & 1 == 1
  }

  lemma XorBits(x: bv32, y: bv32, z: bv32, i: bv5)
    ensures Bit(x ^ y ^ z, i) == ((Bit(x, i) != Bit(y, i)) != Bit(z, i))
  {
  }

  /** The four sigmas of section 4.1.2, bit by bit: rotated indices wrap, shifted ones run out. */
  lemma BigSigma0Parts(x: bv32, i: bv5)
    ensures Bit(x.RotateRight(2), i) == Bit(x, i + 2)
    ensures Bit(x.RotateRight(13), i) == Bit(x, i + 13)
    ensures Bit(x.RotateRight(22), i) == Bit(x, i + 22)
  {
  }

  lemma BigSigma0Bits(x: bv32, i: bv5)
    ensures Bit(BigSigma0(x), i) == ((Bit(x, i + 2) != Bit(x, i + 13)) != Bit(x, i + 22))
  {
    BigSigma0Parts(x, i);
    XorBits(x.RotateRight(2), x.RotateRight(13), x.RotateRight(22), i);
  }

  lemma BigSigma1Parts(x: bv32, i: bv5)
    ensures Bit(x.RotateRight(6), i) == Bit(x, i + 6)
    ensures Bit(x.RotateRight(11), i) == Bit(x, i + 11)
    ensures Bit(x.RotateRight(25), i) == Bit(x, i + 25)
  {
  }

  lemma BigSigma1Bits(x: bv32, i: bv5)
    ensures Bit(BigSigma1(x), i) == ((Bit(x, i + 6) != Bit(x, i + 11)) != Bit(x, i + 25))
  {
    BigSigma1Parts(x, i);
    XorBits(x.RotateRight(6), x.RotateRight(11), x.RotateRight(25), i);
  }

  lemma SmallSigma0Parts(x: bv32, i: bv5)
    ensures Bit(x.RotateRight(7), i) == Bit(x, i + 7)
    ensures Bit(x.RotateRight(18), i) == Bit(x, i + 18)
    ensures Bit(x >> 3, i) == (i < 29 && Bit(x, i + 3))
  {
  }

  lemma SmallSigma0Bits(x: bv32, i: bv5)
    ensures Bit(SmallSigma0(x), i) == ((Bit(x, i + 7) != Bit(x, i + 18)) != (i < 29 && Bit(x, i + 3)))
  {
    SmallSigma0Parts(x, i);
    XorBits(x.RotateRight(7), x.RotateRight(18), x >> 3, i);
  }

  lemma SmallSigma1Parts(x: bv32, i: bv5)
    ensures Bit(x.RotateRight(17), i) == Bit(x, i + 17)
    ensures Bit(x.RotateRight(19), i) == Bit(x, i + 19)
    ensures Bit(x >> 10, i) == (i < 22 && Bit(x, i + 10))
  {
  }

  lemma SmallSigma1Bits(x: bv32, i: bv5)
    ensures Bit(SmallSigma1(x), i) == ((Bit(x, i + 17) != Bit(x, i + 19)) != (i < 22 && Bit(x, i + 10)))
  {
    SmallSigma1Parts(x, i);
    XorBits(x.RotateRight(17), x.RotateRight(19), x >> 10, i);
  }

  /** And these are the functions of the 32-bit words. */
  lemma FunctionsOfWords()
    ensures Word32().bigSigma0 == Bitwise1(BigSigma0) && Word32().bigSigma1 == Bitwise1(BigSigma1)
    ensures Word32().smallSigma0 == Bitwise1(SmallSigma0) && Word32().smallSigma1 == Bitwise1(SmallSigma1)
    ensures Word32().choose == Bitwise3(Choose) && Word32().majority == Bitwise3(Majority)
  {
  }

  lemma Bitwise1Is(f: bv32 -> bv32, x: u32)
    ensures Bitwise1(f)(x) == f(x as bv32) as int
  {
  }

  lemma Bitwise3Is(f: (bv32, bv32, bv32) -> bv32, x: u32, y: u32, z: u32, a: bv32, b: bv32, c: bv32)
    requires a == x as bv32 && b == y as bv32 && c == z as bv32
    ensures Bitwise3(f)(x, y, z) == f(a, b, c) as int
  {
  }

  const MODULUS: nat := 0x1_0000_0000

  /** Words that add modulo 2^32 and read four bytes from the highest on. */
  ghost predicate AreWords(f: WordOps<u32>) {
    && (forall x: u32, y: u32 :: f.add(x, y) == (x + y) % MODULUS)
    && forall a: u8, b: u8, c: u8, d: u8 :: f.fromBytes(a, b, c, d) == a * 0x100_0000 + b * 0x1_0000 + c * 0x100 + d
  }

  lemma Word32AreWords()
    ensures AreWords(Word32())
  {
  }

  /** Section 6.2.2, step 3: one round, by T1 and T2. */
  predicate IsRound(f: WordOps<u32>, s: State<u32>, k: u32, w: u32, t: State<u32>) {
    var t1 := (s.h + f.bigSigma1(s.e) + f.choose(s.e, s.f, s.g) + k + w) % MODULUS;
    var t2 := (f.bigSigma0(s.a) + f.majority(s.a, s.b, s.c)) % MODULUS;
    && t.a == (t1 + t2) % MODULUS && t.b == s.a && t.c == s.b && t.d == s.c
    && t.e == (s.d + t1) % MODULUS && t.f == s.e && t.g == s.f && t.h == s.g
  }

  lemma FourAdds(f: WordOps<u32>, a: u32, b: u32, c: u32, d: u32, e: u32)
    requires AreWords(f)
    ensures f.add(f.add(f.add(a, b), c), d) == (a + b + c + d) % MODULUS
    ensures f.add(f.add(f.add(f.add(a, b), c), d), e) == (a + b + c + d + e) % MODULUS
  {
    WrapOnce(a + b, c);
    WrapOnce(a + b + c, d);
    WrapOnce(a + b + c + d, e);
  }

  lemma OneRound(f: WordOps<u32>, s: State<u32>, k: u32, w: u32, t: State<u32>)
    requires AreWords(f)
    ensures IsRound(f, s, k, w, t) <==> t == Round(f, s, k, w)
  {
    FourAdds(f, s.h, f.bigSigma1(s.e), f.choose(s.e, s.f, s.g), k, w);
  }

  /** Section 6.2.2, step 1: sixteen big-endian words of the block, and the recursion. */
  predicate IsSchedule(f: WordOps<u32>, block: seq<u8>, words: seq<u32>)
    requires |block| == 64
  {
    && |words| == 64
    && (forall t :: 0 <= t < 16 ==> words[t] == FromBigEndian(block[4 * t..4 * t + 4]))
    && forall t :: 16 <= t < 64 ==> IsNextWord(f, words, t)
  }

  predicate IsNextWord(f: WordOps<u32>, words: seq<u32>, t: nat)
    requires 16 <= t < |words|
  {
    words[t] == (f.smallSigma1(words[t - 2]) + words[t - 7] + f.smallSigma0(words[t - 15]) + words[t - 16]) % MODULUS
  }

  lemma WordIsBigEndian(f: WordOps<u32>, block: seq<u8>, t: nat)
    requires AreWords(f) && 4 * t + 4 <= |block|
    ensures Word(f, block, t) == FromBigEndian(block[4 * t..4 * t + 4])
  {
    FourBytes(block[4 * t..4 * t + 4]);
  }

  lemma FourBytes(bytes: seq<u8>)
    requires |bytes| == 4
    ensures FromBigEndian(bytes) == bytes[0] as int * 0x100_0000 + bytes[1] as int * 0x1_0000 + bytes[2] as int * 0x100 + bytes[3]
  {
    assert bytes[..3][..2] == bytes[..2] && bytes[..2][..1] == bytes[..1];
    assert FromBigEndian(bytes[..1]) == bytes[0];
    assert FromBigEndian(bytes[..2]) == bytes[0] as int * 0x100 + bytes[1];
    assert FromBigEndian(bytes[..3]) == FromBigEndian(bytes[..2]) * 0x100 + bytes[2];
  }

  /** There is one such schedule. */
  lemma {:induction false} ScheduleIsUnique(f: WordOps<u32>, block: seq<u8>, words: seq<u32>, t: nat)
    requires AreWords(f) && |block| == 64 && IsSchedule(f, block, words) && t < 64
    ensures words[t] == Schedule(f, block, t)
  {
    if t < 16 {
      WordIsBigEndian(f, block, t);
    } else {
      ScheduleIsUnique(f, block, words, t - 2);
      ScheduleIsUnique(f, block, words, t - 7);
      ScheduleIsUnique(f, block, words, t - 15);
      ScheduleIsUnique(f, block, words, t - 16);
      NextWordIsScheduled(f, block, words, t);
    }
  }

  lemma NextWordIsScheduled(f: WordOps<u32>, block: seq<u8>, words: seq<u32>, t: nat)
    requires AreWords(f) && |block| == 64 && 16 <= t < |words|
    requires words[t - 2] == Schedule(f, block, t - 2) && words[t - 7] == Schedule(f, block, t - 7)
    requires words[t - 15] == Schedule(f, block, t - 15) && words[t - 16] == Schedule(f, block, t - 16)
    ensures IsNextWord(f, words, t) <==> words[t] == Schedule(f, block, t)
  {
    FourAdds(f, words[t - 16], f.smallSigma0(words[t - 15]), words[t - 7], f.smallSigma1(words[t - 2]), 0);
  }

  /** Section 6.2.2, steps 2 to 4: the registers of 64 rounds, and the sums with what they started from. */
  predicate IsCompression(f: WordOps<u32>, constants: seq<u32>, words: seq<u32>, registers: seq<State<u32>>, end: State<u32>) {
    && |constants| == |words| == 64 && |registers| == 65
    && (forall t :: 0 <= t < 64 ==> IsRound(f, registers[t], constants[t], words[t], registers[t + 1]))
    && IsSum(registers[0], registers[64], end)
  }

  predicate IsSum(s: State<u32>, t: State<u32>, end: State<u32>) {
    end == State((s.a + t.a) % MODULUS, (s.b + t.b) % MODULUS, (s.c + t.c) % MODULUS, (s.d + t.d) % MODULUS,
                 (s.e + t.e) % MODULUS, (s.f + t.f) % MODULUS, (s.g + t.g) % MODULUS, (s.h + t.h) % MODULUS)
  }

  /** A block takes one hash value to the next. */
  ghost predicate Compresses(f: WordOps<u32>, constants: seq<u32>, block: seq<u8>, start: State<u32>, end: State<u32>)
    requires |block| == 64
  {
    exists words, registers ::
      IsSchedule(f, block, words) && IsCompression(f, constants, words, registers, end) && registers[0] == start
  }

  lemma {:induction false} RegistersAreRounds(f: WordOps<u32>, constants: seq<u32>, block: seq<u8>, words: seq<u32>,
                                              registers: seq<State<u32>>, end: State<u32>, t: nat)
    requires AreWords(f) && |block| == 64 && IsSchedule(f, block, words)
    requires IsCompression(f, constants, words, registers, end) && t <= 64
    ensures registers[t] == Rounds(f, registers[0], block, constants, t)
  {
    if t > 0 {
      RegistersAreRounds(f, constants, block, words, registers, end, t - 1);
      ScheduleIsUnique(f, block, words, t - 1);
      assert IsRound(f, registers[t - 1], constants[t - 1], words[t - 1], registers[t - 1 + 1]);
      OneRound(f, registers[t - 1], constants[t - 1], words[t - 1], registers[t]);
    }
  }

  /** What a compression must end in. */
  lemma CompressionIsUnique(f: WordOps<u32>, constants: seq<u32>, block: seq<u8>, start: State<u32>, end: State<u32>)
    requires AreWords(f) && |block| == 64 && Compresses(f, constants, block, start, end)
    ensures |constants| == 64 && end == Sum(f, start, Rounds(f, start, block, constants, |constants|))
  {
    var words, registers :|
      IsSchedule(f, block, words) && IsCompression(f, constants, words, registers, end) && registers[0] == start;
    RegistersAreRounds(f, constants, block, words, registers, end, |constants|);
    OneSum(f, start, registers[|constants|], Sum(f, start, registers[|constants|]), end);
  }

  lemma SumFront(f: WordOps<u32>, s: State<u32>, t: State<u32>)
    requires AreWords(f)
    ensures Sum(f, s, t).a == (s.a + t.a) % MODULUS && Sum(f, s, t).b == (s.b + t.b) % MODULUS
    ensures Sum(f, s, t).c == (s.c + t.c) % MODULUS && Sum(f, s, t).d == (s.d + t.d) % MODULUS
  {
  }

  lemma SumBack(f: WordOps<u32>, s: State<u32>, t: State<u32>)
    requires AreWords(f)
    ensures Sum(f, s, t).e == (s.e + t.e) % MODULUS && Sum(f, s, t).f == (s.f + t.f) % MODULUS
    ensures Sum(f, s, t).g == (s.g + t.g) % MODULUS && Sum(f, s, t).h == (s.h + t.h) % MODULUS
  {
  }

  lemma SumFields(s: State<u32>, t: State<u32>, sum: State<u32>, end: State<u32>)
    requires sum.a == (s.a + t.a) % MODULUS && sum.b == (s.b + t.b) % MODULUS
    requires sum.c == (s.c + t.c) % MODULUS && sum.d == (s.d + t.d) % MODULUS
    requires sum.e == (s.e + t.e) % MODULUS && sum.f == (s.f + t.f) % MODULUS
    requires sum.g == (s.g + t.g) % MODULUS && sum.h == (s.h + t.h) % MODULUS
    ensures IsSum(s, t, end) <==> end == sum
  {
  }

  lemma OneSum(f: WordOps<u32>, s: State<u32>, t: State<u32>, sum: State<u32>, end: State<u32>)
    requires AreWords(f) && sum == Sum(f, s, t)
    ensures IsSum(s, t, end) <==> end == sum
  {
    SumFront(f, s, t);
    SumBack(f, s, t);
    SumFields(s, t, sum, end);
  }

  /** And that it exists. */
  lemma CompressionExists(f: WordOps<u32>, constants: seq<u32>, block: seq<u8>, start: State<u32>)
    requires AreWords(f) && |block| == 64 && |constants| == 64
    ensures Compresses(f, constants, block, start, Sum(f, start, Rounds(f, start, block, constants, |constants|)))
  {
    var words := seq(64, t requires 0 <= t < 64 => Schedule(f, block, t));
    var registers := seq(65, t requires 0 <= t < 65 => Rounds(f, start, block, constants, t));
    forall t | 0 <= t < 16 ensures words[t] == FromBigEndian(block[4 * t..4 * t + 4]) {
      WordIsBigEndian(f, block, t);
    }
    forall t | 16 <= t < 64 ensures IsNextWord(f, words, t) {
      NextWordIsScheduled(f, block, words, t);
    }
    forall t | 0 <= t < 64 ensures IsRound(f, registers[t], constants[t], words[t], registers[t + 1]) {
      OneRound(f, registers[t], constants[t], words[t], registers[t + 1]);
    }
    OneSum(f, start, registers[|constants|], Sum(f, start, registers[|constants|]), Sum(f, start, registers[|constants|]));
    assert IsSchedule(f, block, words);
    assert IsCompression(f, constants, words, registers, Sum(f, start, Rounds(f, start, block, constants, |constants|)));
  }

  /** The hash values of a padded message: from the initial one, block by block. */
  ghost predicate AreHashValues(f: WordOps<u32>, constants: seq<u32>, start: State<u32>, bytes: seq<u8>, hashes: seq<State<u32>>) {
    && |hashes| == |bytes| / 64 + 1 && hashes[0] == start
    && forall i :: 0 <= i < |bytes| / 64 ==> IsHashStep(f, constants, bytes, hashes, i)
  }

  ghost predicate IsHashStep(f: WordOps<u32>, constants: seq<u32>, bytes: seq<u8>, hashes: seq<State<u32>>, i: nat)
    requires i < |bytes| / 64 < |hashes|
  {
    Compresses(f, constants, bytes[64 * i..64 * i + 64], hashes[i], hashes[i + 1])
  }

  /** The hash value after a block, by the recursion. */
  function HashAfter(f: WordOps<u32>, constants: seq<u32>, block: seq<u8>, start: State<u32>): State<u32>
    requires |block| == 64
  {
    Sum(f, start, Rounds(f, start, block, constants, |constants|))
  }

  lemma HashValueStep(f: WordOps<u32>, constants: seq<u32>, start: State<u32>, bytes: seq<u8>, hashes: seq<State<u32>>, i: nat)
    requires AreWords(f) && AreHashValues(f, constants, start, bytes, hashes) && i < |bytes| / 64
    ensures |constants| == 64 && hashes[i + 1] == HashAfter(f, constants, BlockAt(bytes, i), hashes[i])
  {
    assert IsHashStep(f, constants, bytes, hashes, i);
    CompressionIsUnique(f, constants, bytes[64 * i..64 * i + 64], hashes[i], hashes[i + 1]);
  }

  lemma {:induction false} ChainIsBlocks(f: WordOps<u32>, constants: seq<u32>, start: State<u32>, bytes: seq<u8>,
                                         hashes: seq<State<u32>>, i: nat)
    requires |constants| == 64 && i <= |bytes| / 64 < |hashes| && hashes[0] == start
    requires forall k :: 0 <= k < |bytes| / 64 ==> hashes[k + 1] == HashAfter(f, constants, BlockAt(bytes, k), hashes[k])
    ensures hashes[i] == Blocks(f, start, bytes, constants, i)
  {
    if i > 0 {
      ChainIsBlocks(f, constants, start, bytes, hashes, i - 1);
      assert hashes[i - 1 + 1] == HashAfter(f, constants, BlockAt(bytes, i - 1), hashes[i - 1]);
    }
  }

  lemma HashValuesAreUnique(f: WordOps<u32>, constants: seq<u32>, start: State<u32>, bytes: seq<u8>, hashes: seq<State<u32>>)
    requires AreWords(f) && |constants| == 64 && AreHashValues(f, constants, start, bytes, hashes)
    ensures hashes[|bytes| / 64] == Blocks(f, start, bytes, constants, |bytes| / 64)
  {
    forall k | 0 <= k < |bytes| / 64 ensures hashes[k + 1] == HashAfter(f, constants, BlockAt(bytes, k), hashes[k]) {
      HashValueStep(f, constants, start, bytes, hashes, k);
    }
    ChainIsBlocks(f, constants, start, bytes, hashes, |bytes| / 64);
  }

  ghost predicate IsBlockStep(f: WordOps<u32>, constants: seq<u32>, start: State<u32>, bytes: seq<u8>, i: nat)
    requires |constants| == 64 && i < |bytes| / 64
  {
    Compresses(f, constants, bytes[64 * i..64 * i + 64],
               Blocks(f, start, bytes, constants, i), Blocks(f, start, bytes, constants, i + 1))
  }

  lemma BlocksCompress(f: WordOps<u32>, constants: seq<u32>, start: State<u32>, bytes: seq<u8>)
    requires AreWords(f) && |constants| == 64
    ensures forall i :: 0 <= i < |bytes| / 64 ==> IsBlockStep(f, constants, start, bytes, i)
  {
    forall i | 0 <= i < |bytes| / 64 ensures IsBlockStep(f, constants, start, bytes, i) {
      CompressionExists(f, constants, BlockAt(bytes, i), Blocks(f, start, bytes, constants, i));
    }
  }

  lemma SameStep(f: WordOps<u32>, constants: seq<u32>, start: State<u32>, bytes: seq<u8>, hashes: seq<State<u32>>, i: nat)
    requires |constants| == 64 && i < |bytes| / 64 < |hashes| && IsBlockStep(f, constants, start, bytes, i)
    requires hashes[i] == Blocks(f, start, bytes, constants, i) && hashes[i + 1] == Blocks(f, start, bytes, constants, i + 1)
    ensures IsHashStep(f, constants, bytes, hashes, i)
  {
  }

  lemma StepsAreHashValues(f: WordOps<u32>, constants: seq<u32>, start: State<u32>, bytes: seq<u8>, hashes: seq<State<u32>>)
    requires |hashes| == |bytes| / 64 + 1 && hashes[0] == start
    requires forall i :: 0 <= i < |bytes| / 64 ==> IsHashStep(f, constants, bytes, hashes, i)
    ensures AreHashValues(f, constants, start, bytes, hashes)
  {
  }

  lemma BlocksAreSteps(f: WordOps<u32>, constants: seq<u32>, start: State<u32>, bytes: seq<u8>, hashes: seq<State<u32>>)
    requires |constants| == 64 && |hashes| == |bytes| / 64 + 1
    requires forall i :: 0 <= i <= |bytes| / 64 ==> hashes[i] == Blocks(f, start, bytes, constants, i)
    requires forall i :: 0 <= i < |bytes| / 64 ==> IsBlockStep(f, constants, start, bytes, i)
    ensures forall i :: 0 <= i < |bytes| / 64 ==> IsHashStep(f, constants, bytes, hashes, i)
  {
    forall i | 0 <= i < |bytes| / 64 ensures IsHashStep(f, constants, bytes, hashes, i) {
      SameStep(f, constants, start, bytes, hashes, i);
    }
  }

  function HashSeq(f: WordOps<u32>, constants: seq<u32>, start: State<u32>, bytes: seq<u8>): (hashes: seq<State<u32>>)
    requires |constants| == 64
    ensures |hashes| == |bytes| / 64 + 1 && hashes[0] == start
    ensures forall i :: 0 <= i <= |bytes| / 64 ==> hashes[i] == Blocks(f, start, bytes, constants, i)
  {
    seq(|bytes| / 64 + 1, i requires 0 <= i <= |bytes| / 64 => Blocks(f, start, bytes, constants, i))
  }

  lemma HashValuesExist(f: WordOps<u32>, constants: seq<u32>, start: State<u32>, bytes: seq<u8>)
    requires AreWords(f) && |constants| == 64
    ensures AreHashValues(f, constants, start, bytes, HashSeq(f, constants, start, bytes))
  {
    BlocksCompress(f, constants, start, bytes);
    BlocksAreSteps(f, constants, start, bytes, HashSeq(f, constants, start, bytes));
    StepsAreHashValues(f, constants, start, bytes, HashSeq(f, constants, start, bytes));
  }

  /** Section 5.1.1: the message, a one bit, zeros up to the next whole block, and the length in bits. */
  predicate IsPadded(input: seq<u8>, bytes: seq<u8>) {
    && |bytes| % 64 == 0 && |input| + 9 <= |bytes| < |input| + 9 + 64
    && bytes[..|input|] == input && bytes[|input|] == 0x80
    && (forall i :: |input| < i < |bytes| - 8 ==> bytes[i] == 0)
    && FromBigEndian(bytes[|bytes| - 8..]) == 8 * |input|
  }

  lemma {:induction false} ReadWrites(bytes: seq<u8>)
    ensures BigEndian(FromBigEndian(bytes), |bytes|) == bytes
  {
    if bytes != [] {
      var n := |bytes| - 1;
      ReadWrites(bytes[..n]);
      LastByte(FromBigEndian(bytes[..n]), bytes[n]);
      assert bytes == bytes[..n] + [bytes[n]];
    }
  }

  lemma LastByte(high: nat, low: u8)
    ensures (high * 0x100 + low) / 0x100 == high && (high * 0x100 + low) % 0x100 == low
  {
  }

  lemma {:induction false} ZerosAre(bytes: seq<u8>)
    requires forall i :: 0 <= i < |bytes| ==> bytes[i] == 0
    ensures bytes == ZeroBytes(|bytes|)
  {
    if bytes != [] {
      ZerosAre(bytes[..|bytes| - 1]);
    }
  }

  lemma {:induction false} ZerosHold(count: nat)
    ensures forall i :: 0 <= i < count ==> ZeroBytes(count)[i] == 0
  {
    if count > 0 {
      ZerosHold(count - 1);
    }
  }

  lemma SameSize(length: nat, size: nat)
    requires size % 64 == 0 && length + 9 <= size < length + 9 + 64
    ensures size == length + 9 + ZeroCount(length)
  {
  }

  lemma PaddedIsPadded(input: seq<u8>)
    requires 8 * |input| < U64_LIMIT
    ensures IsPadded(input, PaddedMessage(input))
  {
    PaddedSize(input);
    PaddedEnds(input);
    ZerosHold(ZeroCount(|input|));
  }

  lemma OnePadding(input: seq<u8>, bytes: seq<u8>)
    requires IsPadded(input, bytes)
    ensures bytes == PaddedMessage(input)
  {
    var n := |bytes| - 8;
    SameSize(|input|, |bytes|);
    ZerosAre(bytes[|input| + 1..n]);
    ReadWrites(bytes[n..]);
    assert bytes == bytes[..|input|] + [bytes[|input|]] + bytes[|input| + 1..n] + bytes[n..];
  }

  /** Eight lower-case hexadecimal digits of a word. */
  predicate IsHexOf(text: string, word: u32) {
    |text| == 8 && (forall i :: 0 <= i < 8 ==> IsDigitChar(text[i])) && Accumulated(text, 16) == Some(word)
  }

  lemma SameDigit(first: char, second: char, high: nat, other: nat)
    requires IsDigitChar(first) && IsDigitChar(second)
    requires high * 16 + DigitOf(first).value == other * 16 + DigitOf(second).value
    ensures first == second && high == other
  {
  }

  lemma {:induction false} SameDigits(first: string, second: string)
    requires |first| == |second| && Accumulated(first, 16).Some? && Accumulated(first, 16) == Accumulated(second, 16)
    requires forall i :: 0 <= i < |first| ==> IsDigitChar(first[i]) && IsDigitChar(second[i])
    ensures first == second
  {
    if first != "" {
      var n := |first| - 1;
      SameDigit(first[n], second[n], Accumulated(first[..n], 16).value, Accumulated(second[..n], 16).value);
      SameDigits(first[..n], second[..n]);
      assert first == first[..n] + [first[n]] && second == second[..n] + [second[n]];
    }
  }

  lemma OneHex(text: string, word: u32)
    ensures IsHexOf(text, word) <==> text == HexWord(word)
  {
    HexWordValue(word);
    if IsHexOf(text, word) {
      SameDigits(text, HexWord(word));
    }
  }

  /** The text of a list of words, eight digits each. */
  predicate IsPrinted(text: string, words: seq<u32>) {
    |text| == 8 * |words| && forall j :: 0 <= j < |words| ==> IsHexOf(text[8 * j..8 * j + 8], words[j])
  }

  lemma {:induction false} OnePrint(text: string, words: seq<u32>)
    ensures IsPrinted(text, words) <==> text == HexWords(words)
  {
    HexWordsShape(words);
    if words != [] && |text| == 8 * |words| {
      var n := |words| - 1;
      var front, back := text[..8 * n], text[8 * n..8 * n + 8];
      OnePrint(front, words[..n]);
      OneHex(back, words[n]);
      HexWordsShape(words[..n]);
      assert text == front + back;
      assert forall j :: 0 <= j < n ==> front[8 * j..8 * j + 8] == text[8 * j..8 * j + 8];
      PrintSplits(text, front, back, words, n);
    }
  }

  lemma PrintSplits(text: string, front: string, back: string, words: seq<u32>, n: nat)
    requires |words| == n + 1 && |text| == 8 * n + 8 && front == text[..8 * n] && back == text[8 * n..8 * n + 8]
    requires forall j :: 0 <= j < n ==> front[8 * j..8 * j + 8] == text[8 * j..8 * j + 8]
    requires IsPrinted(front, words[..n]) <==> front == HexWords(words[..n])
    requires IsHexOf(back, words[n]) <==> back == HexWord(words[n])
    requires |HexWords(words[..n])| == 8 * n && |HexWord(words[n])| == 8
    ensures IsPrinted(text, words) <==> text == HexWords(words)
  {
    PartsPrinted(text, front, back, words, n);
    TextSplits(text, front, back, HexWords(words[..n]), HexWord(words[n]));
  }

  lemma PartsPrinted(text: string, front: string, back: string, words: seq<u32>, n: nat)
    requires |words| == n + 1 && |text| == 8 * n + 8 && |front| == 8 * n && back == text[8 * n..8 * n + 8]
    requires forall j :: 0 <= j < n ==> front[8 * j..8 * j + 8] == text[8 * j..8 * j + 8]
    ensures IsPrinted(text, words) <==> IsPrinted(front, words[..n]) && IsHexOf(back, words[n])
  {
  }

  lemma TextSplits(text: string, front: string, back: string, first: string, second: string)
    requires |front| == |first| <= |text| && front == text[..|front|] && back == text[|front|..]
    ensures text == first + second <==> front == first && back == second
  {
    assert text == front + back;
    assert (first + second)[..|first|] == first && (first + second)[|first|..] == second;
  }

  /** Sections 4.2.2 and 5.3.3: the constants, and the initial hash value. */
  predicate AreRoots(constants: seq<u32>, start: State<u32>) {
    && |constants| == |CUBE_ROOTS| && |SQUARE_ROOTS| == 8
    && (forall t :: 0 <= t < |constants| ==> constants[t] == CUBE_ROOTS[t].bits)
    && start == State(SQUARE_ROOTS[0].bits, SQUARE_ROOTS[1].bits, SQUARE_ROOTS[2].bits, SQUARE_ROOTS[3].bits,
                      SQUARE_ROOTS[4].bits, SQUARE_ROOTS[5].bits, SQUARE_ROOTS[6].bits, SQUARE_ROOTS[7].bits)
  }

  lemma BitsAreBits(rows: seq<Row>)
    requires forall i :: 0 <= i < |rows| ==> rows[i].bits < MODULUS
    ensures forall i :: 0 <= i < |rows| ==> BitsOf(rows)[i] == rows[i].bits
  {
  }

  lemma OneStart(constants: seq<u32>, start: State<u32>)
    ensures AreRoots(constants, start) <==> constants == RoundConstants() && start == InitialState()
  {
    BitsAreBits(CUBE_ROOTS);
    BitsAreBits(SQUARE_ROOTS);
  }

  /** The text satisfies the standard's equations for the message. */
  ghost predicate IsDigest(input: seq<u8>, text: string) {
    exists bytes, constants, start, hashes ::
      && IsPadded(input, bytes) && AreRoots(constants, start)
      && AreHashValues(Word32(), constants, start, bytes, hashes)
      && IsPrinted(text, Words(hashes[|bytes| / 64]))
  }

  lemma DigestSatisfies(input: seq<u8>)
    requires 8 * |input| < U64_LIMIT
    ensures IsDigest(input, Digest(input))
  {
    var (bytes, constants, start) := (PaddedMessage(input), RoundConstants(), InitialState());
    PaddedIsPadded(input);
    OneStart(constants, start);
    Word32AreWords();
    HashValuesExist(Word32(), constants, start, bytes);
    var hashes := HashSeq(Word32(), constants, start, bytes);
    OnePrint(Digest(input), Words(hashes[|bytes| / 64]));
  }

  lemma OnlyDigestSatisfies(input: seq<u8>, text: string)
    requires 8 * |input| < U64_LIMIT && IsDigest(input, text)
    ensures text == Digest(input)
  {
    var bytes, constants, start, hashes :|
      && IsPadded(input, bytes) && AreRoots(constants, start)
      && AreHashValues(Word32(), constants, start, bytes, hashes)
      && IsPrinted(text, Words(hashes[|bytes| / 64]));
    OnePadding(input, bytes);
    OneStart(constants, start);
    Word32AreWords();
    HashValuesAreUnique(Word32(), constants, start, bytes, hashes);
    OnePrint(text, Words(hashes[|bytes| / 64]));
  }

  /** The digest of a message is the one text that satisfies the standard. */
  lemma DigestIsStandard(input: seq<u8>, text: string)
    requires 8 * |input| < U64_LIMIT
    ensures text == Digest(input) <==> IsDigest(input, text)
  {
    DigestSatisfies(input);
    if IsDigest(input, text) {
      OnlyDigestSatisfies(input, text);
    }
  }
}
