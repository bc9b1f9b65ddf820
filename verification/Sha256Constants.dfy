/**
 The constants of SHA-256 (sections 4.2.2 and 5.3.3 of FIPS 180-4) with what makes them so: each is the
 first 32 bits after the point of the cube root, or of the square root, of a prime. The types of the
 tables check every row.
 */
module Sha256Constants {
  predicate IsPrime(n: nat) {
    n >= 2 && forall d :: 2 <= d < n ==> n % d != 0
  }

  /** The number is no multiple of `p`, except `p` itself. */
  predicate Passes(n: nat, p: nat)
    requires p > 0
  {
    n % p != 0 || n == p
  }

  /** No prime below 19 divides the number, unless it is that prime. */
  predicate PassesTrials(n: nat) {
    && 2 <= n < 361
    && Passes(n, 2) && Passes(n, 3) && Passes(n, 5) && Passes(n, 7) && Passes(n, 11) && Passes(n, 13) && Passes(n, 17)
  }

  /** A prime, the whole part of its root, and the bits after the point. */
  datatype Row = Row(prime: nat, whole: nat, bits: nat)
  {
    /** The root in units of its 32nd bit. */
    function Root(): nat {
      whole * 0x1_0000_0000 + bits
    }
  }

  function Square(x: nat): nat {
    x * x
  }

  function Cube(x: nat): nat {
    x * x * x
  }

  /** The row is the cube root, rounded down to 32 bits after the point. */
  predicate IsCubeRoot(row: Row) {
    PassesTrials(row.prime) && row.bits < 0x1_0000_0000
    && Cube(row.Root()) <= row.prime * 0x1_0000_0000_0000_0000_0000_0000 < Cube(row.Root() + 1)
  }

  predicate IsSquareRoot(row: Row) {
    PassesTrials(row.prime) && row.bits < 0x1_0000_0000
    && Square(row.Root()) <= row.prime * 0x1_0000_0000_0000_0000 < Square(row.Root() + 1)
  }

  type CubeRoot = row | IsCubeRoot(row) witness Row(2, 1, 0x428a_2f98)

  type SquareRoot = row | IsSquareRoot(row) witness Row(2, 1, 0x6a09_e667)

  function CubeRow(prime: nat, whole: nat, bits: nat): CubeRoot
    requires IsCubeRoot(Row(prime, whole, bits))
  {
    Row(prime, whole, bits)
  }

  function SquareRow(prime: nat, whole: nat, bits: nat): SquareRoot
    requires IsSquareRoot(Row(prime, whole, bits))
  {
    Row(prime, whole, bits)
  }

  const CUBE_ROOTS_0: seq<CubeRoot> :=
    [CubeRow(2, 1, 0x428a_2f98), CubeRow(3, 1, 0x7137_4491), CubeRow(5, 1, 0xb5c0_fbcf), CubeRow(7, 1, 0xe9b5_dba5),
     CubeRow(11, 2, 0x3956_c25b), CubeRow(13, 2, 0x59f1_11f1), CubeRow(17, 2, 0x923f_82a4), CubeRow(19, 2, 0xab1c_5ed5)]

  const CUBE_ROOTS_8: seq<CubeRoot> :=
    [CubeRow(23, 2, 0xd807_aa98), CubeRow(29, 3, 0x1283_5b01), CubeRow(31, 3, 0x2431_85be), CubeRow(37, 3, 0x550c_7dc3),
     CubeRow(41, 3, 0x72be_5d74), CubeRow(43, 3, 0x80de_b1fe), CubeRow(47, 3, 0x9bdc_06a7), CubeRow(53, 3, 0xc19b_f174)]

  const CUBE_ROOTS_16: seq<CubeRoot> :=
    [CubeRow(59, 3, 0xe49b_69c1), CubeRow(61, 3, 0xefbe_4786), CubeRow(67, 4, 0x0fc1_9dc6), CubeRow(71, 4, 0x240c_a1cc),
     CubeRow(73, 4, 0x2de9_2c6f), CubeRow(79, 4, 0x4a74_84aa), CubeRow(83, 4, 0x5cb0_a9dc), CubeRow(89, 4, 0x76f9_88da)]

  const CUBE_ROOTS_24: seq<CubeRoot> :=
    [CubeRow(97, 4, 0x983e_5152), CubeRow(101, 4, 0xa831_c66d), CubeRow(103, 4, 0xb003_27c8), CubeRow(107, 4, 0xbf59_7fc7),
     CubeRow(109, 4, 0xc6e0_0bf3), CubeRow(113, 4, 0xd5a7_9147), CubeRow(127, 5, 0x06ca_6351), CubeRow(131, 5, 0x1429_2967)]

  const CUBE_ROOTS_32: seq<CubeRoot> :=
    [CubeRow(137, 5, 0x27b7_0a85), CubeRow(139, 5, 0x2e1b_2138), CubeRow(149, 5, 0x4d2c_6dfc), CubeRow(151, 5, 0x5338_0d13),
     CubeRow(157, 5, 0x650a_7354), CubeRow(163, 5, 0x766a_0abb), CubeRow(167, 5, 0x81c2_c92e), CubeRow(173, 5, 0x9272_2c85)]

  const CUBE_ROOTS_40: seq<CubeRoot> :=
    [CubeRow(179, 5, 0xa2bf_e8a1), CubeRow(181, 5, 0xa81a_664b), CubeRow(191, 5, 0xc24b_8b70), CubeRow(193, 5, 0xc76c_51a3),
     CubeRow(197, 5, 0xd192_e819), CubeRow(199, 5, 0xd699_0624), CubeRow(211, 5, 0xf40e_3585), CubeRow(223, 6, 0x106a_a070)]

  const CUBE_ROOTS_48: seq<CubeRoot> :=
    [CubeRow(227, 6, 0x19a4_c116), CubeRow(229, 6, 0x1e37_6c08), CubeRow(233, 6, 0x2748_774c), CubeRow(239, 6, 0x34b0_bcb5),
     CubeRow(241, 6, 0x391c_0cb3), CubeRow(251, 6, 0x4ed8_aa4a), CubeRow(257, 6, 0x5b9c_ca4f), CubeRow(263, 6, 0x682e_6ff3)]

  const CUBE_ROOTS_56: seq<CubeRoot> :=
    [CubeRow(269, 6, 0x748f_82ee), CubeRow(271, 6, 0x78a5_636f), CubeRow(277, 6, 0x84c8_7814), CubeRow(281, 6, 0x8cc7_0208),
     CubeRow(283, 6, 0x90be_fffa), CubeRow(293, 6, 0xa450_6ceb), CubeRow(307, 6, 0xbef9_a3f7), CubeRow(311, 6, 0xc671_78f2)]

  const CUBE_ROOTS: seq<CubeRoot> :=
    CUBE_ROOTS_0 + CUBE_ROOTS_8 + CUBE_ROOTS_16 + CUBE_ROOTS_24
    + CUBE_ROOTS_32 + CUBE_ROOTS_40 + CUBE_ROOTS_48 + CUBE_ROOTS_56

  const SQUARE_ROOTS: seq<SquareRoot> :=
    [SquareRow(2, 1, 0x6a09_e667), SquareRow(3, 1, 0xbb67_ae85), SquareRow(5, 2, 0x3c6e_f372), SquareRow(7, 2, 0xa54f_f53a),
     SquareRow(11, 3, 0x510e_527f), SquareRow(13, 3, 0x9b05_688c), SquareRow(17, 4, 0x1f83_d9ab), SquareRow(19, 4, 0x5be0_cd19)]

  /** The primes of the rows rise, from the first to the last. */
  predicate Rises(rows: seq<Row>, first: nat, last: nat) {
    && rows != [] && rows[0].prime == first && rows[|rows| - 1].prime == last
    && forall i, j :: 0 <= i < j < |rows| ==> rows[i].prime < rows[j].prime
  }

  lemma RisesOn(front: seq<Row>, back: seq<Row>, first: nat, middle: nat, next: nat, last: nat)
    requires Rises(front, first, middle) && Rises(back, next, last) && middle < next
    ensures Rises(front + back, first, last)
  {
    forall i, j | 0 <= i < j < |front + back| ensures (front + back)[i].prime < (front + back)[j].prime {
      if i < |front| <= j {
        assert i < |front| - 1 ==> front[i].prime < front[|front| - 1].prime;
        assert j > |front| ==> back[0].prime < back[j - |front|].prime;
      }
    }
  }

  lemma FourTablesRise(a: seq<Row>, b: seq<Row>, c: seq<Row>, d: seq<Row>, a0: nat, a7: nat, b0: nat, b7: nat,
                       c0: nat, c7: nat, d0: nat, d7: nat)
    requires Rises(a, a0, a7) && Rises(b, b0, b7) && Rises(c, c0, c7) && Rises(d, d0, d7) && a7 < b0 && b7 < c0 && c7 < d0
    ensures Rises(a + b + c + d, a0, d7)
  {
    RisesOn(a, b, a0, a7, b0, b7);
    RisesOn(a + b, c, a0, b7, c0, c7);
    RisesOn(a + b + c, d, a0, c7, d0, d7);
  }

  lemma TableRises0()
    ensures Rises(CUBE_ROOTS_0, 2, 19) && Rises(CUBE_ROOTS_8, 23, 53)
  {
  }

  lemma TableRises16()
    ensures Rises(CUBE_ROOTS_16, 59, 89) && Rises(CUBE_ROOTS_24, 97, 131)
  {
  }

  lemma TableRises32()
    ensures Rises(CUBE_ROOTS_32, 137, 173) && Rises(CUBE_ROOTS_40, 179, 223)
  {
  }

  lemma TableRises48()
    ensures Rises(CUBE_ROOTS_48, 227, 263) && Rises(CUBE_ROOTS_56, 269, 311)
  {
  }

  lemma FirstTablesRise()
    ensures Rises(CUBE_ROOTS_0 + CUBE_ROOTS_8 + CUBE_ROOTS_16 + CUBE_ROOTS_24, 2, 131)
  {
    TableRises0();
    TableRises16();
    FourTablesRise(CUBE_ROOTS_0, CUBE_ROOTS_8, CUBE_ROOTS_16, CUBE_ROOTS_24, 2, 19, 23, 53, 59, 89, 97, 131);
  }

  lemma LastTablesRise()
    ensures Rises(CUBE_ROOTS_32 + CUBE_ROOTS_40 + CUBE_ROOTS_48 + CUBE_ROOTS_56, 137, 311)
  {
    TableRises32();
    TableRises48();
    FourTablesRise(CUBE_ROOTS_32, CUBE_ROOTS_40, CUBE_ROOTS_48, CUBE_ROOTS_56, 137, 173, 179, 223, 227, 263, 269, 311);
  }

  lemma BothHalves(a: seq<Row>, b: seq<Row>, c: seq<Row>, d: seq<Row>, e: seq<Row>, f: seq<Row>, g: seq<Row>, h: seq<Row>)
    ensures a + b + c + d + (e + f + g + h) == a + b + c + d + e + f + g + h
  {
  }

  /** The tables list primes in rising order: 64 of them from 2 to 311, and eight from 2 to 19. */
  lemma RowsRise()
    ensures |CUBE_ROOTS| == 64 && Rises(CUBE_ROOTS, 2, 311)
    ensures |SQUARE_ROOTS| == 8 && Rises(SQUARE_ROOTS, 2, 19)
  {
    FirstTablesRise();
    LastTablesRise();
    RisesOn(CUBE_ROOTS_0 + CUBE_ROOTS_8 + CUBE_ROOTS_16 + CUBE_ROOTS_24,
            CUBE_ROOTS_32 + CUBE_ROOTS_40 + CUBE_ROOTS_48 + CUBE_ROOTS_56, 2, 131, 137, 311);
    BothHalves(CUBE_ROOTS_0, CUBE_ROOTS_8, CUBE_ROOTS_16, CUBE_ROOTS_24,
               CUBE_ROOTS_32, CUBE_ROOTS_40, CUBE_ROOTS_48, CUBE_ROOTS_56);
  }

  lemma Ordered(d: nat, a: nat, b: nat)
    ensures a <= b ==> d * a <= d * b
  {
  }

  lemma OneMore(d: nat, a: nat)
    ensures d * (a + 1) == d * a + d
  {
  }

  lemma NoRemainder(d: nat, q: nat, e: nat, r: nat)
    requires d > 0 && d * q == d * e + r && r < d
    ensures r == 0
  {
    Ordered(d, e + 1, q);
    Ordered(d, q + 1, e);
    OneMore(d, e);
    OneMore(d, q);
  }

  lemma MultipleFails(n: nat, p: nat, k: nat)
    requires p > 0 && n == p * k && k >= 2
    ensures !Passes(n, p)
  {
    NoRemainder(p, k, n / p, n % p);
    OneMore(p, 1);
    Ordered(p, 2, k);
  }

  lemma Regrouped(a: nat, b: nat, q: nat)
    ensures a * b * q == a * (b * q)
  {
  }

  /** A small factor is caught. */
  lemma SmallFactor(n: nat, d: nat, q: nat)
    requires 2 <= d <= 18 && q >= 2 && n == d * q
    ensures !PassesTrials(n)
  {
    var p := if d % 2 == 0 then 2 else if d % 3 == 0 then 3 else if d % 5 == 0 then 5 else d;
    var k := d / p;
    assert d == p * k && k >= 1;
    Regrouped(p, k, q);
    assert k * q >= q;
    MultipleFails(n, p, k * q);
  }

  /** Of two factors of a number below 361 one is at most 18. */
  lemma OneIsSmall(d: nat, q: nat)
    requires d * q < 361
    ensures d <= 18 || q <= 18
  {
    assert d >= 19 ==> d * q >= 19 * q;
  }

  /** Below 361 the trials decide. */
  lemma TrialsDecide(n: nat)
    ensures PassesTrials(n) <==> n < 361 && IsPrime(n)
  {
    if PassesTrials(n) {
      forall d | 2 <= d < n ensures n % d != 0 {
        if n % d == 0 {
          FactorFails(n, d, n / d);
        }
      }
    }
  }

  lemma FactorFails(n: nat, d: nat, q: nat)
    requires n < 361 && 2 <= d < n && n == d * q
    ensures !PassesTrials(n)
  {
    OneIsSmall(d, q);
    assert q >= 2;
    if d <= 18 {
      SmallFactor(n, d, q);
    } else {
      SmallFactor(n, q, d);
    }
  }

  lemma CubesGrow(low: nat, high: nat)
    requires low <= high
    ensures Cube(low) <= Cube(high)
  {
    assert low * low <= high * high;
    assert low * low * low <= high * high * low <= high * high * high;
  }

  lemma SquaresGrow(low: nat, high: nat)
    requires low <= high
    ensures Square(low) <= Square(high)
  {
    assert low * low <= high * high;
  }

  lemma SameCubeRoot(one: nat, two: nat, bound: nat)
    requires Cube(one) <= bound < Cube(one + 1) && Cube(two) <= bound < Cube(two + 1)
    ensures one == two
  {
    if one < two {
      CubesGrow(one + 1, two);
    } else if two < one {
      CubesGrow(two + 1, one);
    }
  }

  lemma SameSquareRoot(one: nat, two: nat, bound: nat)
    requires Square(one) <= bound < Square(one + 1) && Square(two) <= bound < Square(two + 1)
    ensures one == two
  {
    if one < two {
      SquaresGrow(one + 1, two);
    } else if two < one {
      SquaresGrow(two + 1, one);
    }
  }

  lemma SameRow(first: Row, second: Row)
    requires first.Root() == second.Root() && first.prime == second.prime
    requires first.bits < 0x1_0000_0000 && second.bits < 0x1_0000_0000
    ensures first == second
  {
  }

  /** A row is that of a prime, and the prime has no other: the table could hold nothing else for it. */
  lemma CubeRootIsUnique(first: Row, second: Row)
    requires first.prime == second.prime && IsCubeRoot(first) && IsCubeRoot(second)
    ensures IsPrime(first.prime) && first == second
  {
    TrialsDecide(first.prime);
    SameCubeRoot(first.Root(), second.Root(), first.prime * 0x1_0000_0000_0000_0000_0000_0000);
    SameRow(first, second);
  }

  lemma SquareRootIsUnique(first: Row, second: Row)
    requires first.prime == second.prime && IsSquareRoot(first) && IsSquareRoot(second)
    ensures IsPrime(first.prime) && first == second
  {
    TrialsDecide(first.prime);
    SameSquareRoot(first.Root(), second.Root(), first.prime * 0x1_0000_0000_0000_0000);
    SameRow(first, second);
  }
}
