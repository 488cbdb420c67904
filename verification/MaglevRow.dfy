/** The preference rows of the Maglev table: row entries j = 0, 1, ... step through the table
    from an offset in equal skips, both taken from a hash.  Hashes may be negative, and the
    source's remainder takes the sign of its left operand.  The position is computed in 32-bit
    integers, which are taken to wrap around. */
module MaglevRow {
  import opened Arith

  const LOOKUP_SIZE := 65537
  const TWO_31 := 0x8000_0000
  const TWO_32 := 0x1_0000_0000

  /** The remainder that truncates towards zero. */
  function TruncMod(a: int, b: nat): int
    requires 0 < b
  {
    if a >= 0 then a % b else -((-a) % b)
  }

  /** The 32-bit value of an integer. */
  function Wrap32(x: int): int {
    (x + TWO_31) % TWO_32 - TWO_31
  }

  predicate FitsInt(x: int) {
    -TWO_31 <= x < TWO_31
  }

  function Offset(h: int, m: nat): int
    requires 2 <= m
  {
    TruncMod(h, m)
  }

  function Skip(h: int, m: nat): int
    requires 2 <= m
  {
    TruncMod(h, m - 1) + 1
  }

  /** A row position before it is reduced to the table, without overflow. */
  function Position(h: int, m: nat, j: nat): int
    requires 2 <= m
  {
    Offset(h, m) + j * Skip(h, m)
  }

  function Entry(h: int, m: nat, j: nat): int
    requires 2 <= m
  {
    TruncMod(TruncMod(Wrap32(Offset(h, m) + Wrap32(j * Skip(h, m))), m) + m, m)
  }

  function Row(h: int, m: nat): (row: seq<int>)
    requires 2 <= m
  {
    seq(m, j requires 0 <= j < m => Entry(h, m, j))
  }

  ghost predicate Injective(row: seq<int>) {
    forall j, k :: 0 <= j < k < |row| ==> row[j] != row[k]
  }

  /** Every table index occurs exactly once. */
  ghost predicate IsPermutation(row: seq<int>, m: nat) {
    && |row| == m
    && (forall j :: 0 <= j < m ==> 0 <= row[j] < m)
    && Injective(row)
    && (forall c :: 0 <= c < m ==> c in row)
  }

  predicate IsPrime(m: nat) {
    2 <= m && forall d :: 2 <= d < m ==> m % d != 0
  }

  // ---------------------------------------------------------------- remainders

  /** Adding the table size before the second remainder makes the result the mathematical one. */
  lemma TwiceIsMod(x: int, m: nat)
    requires 2 <= m
    ensures TruncMod(TruncMod(x, m) + m, m) == x % m
  {
    if x >= 0 {
      AddMultiple(x % m, 1, m);
      DivModUnique(x % m, m, 0, x % m);
    } else {
      var r := (-x) % m;
      assert -x == m * ((-x) / m) + r;
      assert x == m * (-((-x) / m)) - r by {
        assert m * (-((-x) / m)) == -(m * ((-x) / m));
      }
      if r == 0 {
        DivModUnique(x, m, -((-x) / m), 0);
        DivModUnique(m, m, 1, 0);
      } else {
        assert m * (-((-x) / m) - 1) == m * (-((-x) / m)) - m;
        DivModUnique(x, m, -((-x) / m) - 1, m - r);
        DivModUnique(m - r, m, 0, m - r);
      }
    }
  }

  lemma WrapTwice(o: int, x: int)
    ensures Wrap32(o + Wrap32(x)) == Wrap32(o + x)
  {
    ModAdd(x + TWO_31, o, TWO_32);
  }

  /** The entry is the wrapped position, reduced to the table. */
  lemma EntryIsMod(h: int, m: nat, j: nat)
    requires 2 <= m
    ensures Entry(h, m, j) == Wrap32(Position(h, m, j)) % m
  {
    WrapTwice(Offset(h, m), j * Skip(h, m));
    TwiceIsMod(Wrap32(Position(h, m, j)), m);
  }

  lemma RowInRange(h: int, m: nat)
    requires 2 <= m
    ensures |Row(h, m)| == m && forall j :: 0 <= j < m ==> 0 <= Row(h, m)[j] < m
  {
    forall j | 0 <= j < m
      ensures 0 <= Row(h, m)[j] < m
    {
      EntryIsMod(h, m, j);
    }
  }

  /** A prime that divides a product and not the smaller factor divides the other. */
  lemma {:induction false} Euclid(m: nat, a: nat, b: int)
    requires IsPrime(m) && 0 < a < m && (a * b) % m == 0
    ensures b % m == 0
    decreases a
  {
    if a > 1 {
      var r, q := m % a, m / a;
      assert r != 0;
      assert m == a * q + r;
      assert r * b == m * b - q * (a * b) by {
        assert (m - a * q) * b == m * b - (a * q) * b;
        assert (a * q) * b == q * (a * b);
      }
      var t := (a * b) / m;
      assert a * b == m * t;
      assert q * (m * t) == m * (q * t);
      assert r * b == m * (b - q * t) by {
        assert m * (b - q * t) == m * b - m * (q * t);
      }
      DivModUnique(r * b, m, b - q * t, 0);
      Euclid(m, r, b);
    }
  }

  // ---------------------------------------------------------------- steps that wander through the table

  lemma StepsDiffer(o: int, s: int, m: nat, j: nat, k: nat)
    requires IsPrime(m) && s % m != 0 && j < k < m
    ensures (o + j * s) % m != (o + k * s) % m
  {
    if (o + j * s) % m == (o + k * s) % m {
      SameRemainder(o + j * s, o + k * s, m);
      assert (o + k * s) - (o + j * s) == (k - j) * s;
      Euclid(m, k - j, s);
    }
  }

  /** Where the multiples of a step are. */
  function Multiple(j: nat, s: int, m: nat): (c: int)
    requires 0 < m
    ensures 0 <= c < m
  {
    (0 + j * s) % m
  }

  lemma MultiplesReachAll(s: int, m: nat, c: nat) returns (d: nat)
    requires IsPrime(m) && s % m != 0 && c < m
    ensures d < m && Multiple(d, s, m) == c
  {
    var row := seq(m, j requires 0 <= j < m => Multiple(j, s, m));
    forall j, k | 0 <= j < k < m
      ensures row[j] != row[k]
    {
      StepsDiffer(0, s, m, j, k);
    }
    InjectiveIsOnto(row, m);
    assert c in row;
    d :| 0 <= d < m && row[d] == c;
  }

  /** Some number of steps moves by one. */
  lemma {:induction false} Inverse(s: int, m: nat) returns (d: nat)
    requires IsPrime(m) && s % m != 0
    ensures 0 < d < m && (d * s) % m == 1
  {
    d := MultiplesReachAll(s, m, 1);
    assert d == 0 ==> d * s == 0;
  }

  // ---------------------------------------------------------------- the 32-bit range

  lemma OffsetAndSkip(h: int)
    ensures -LOOKUP_SIZE < Offset(h, LOOKUP_SIZE) < LOOKUP_SIZE
    ensures -LOOKUP_SIZE < Skip(h, LOOKUP_SIZE) < LOOKUP_SIZE
  {
  }

  lemma FittingWraps(x: int)
    ensures FitsInt(x) ==> Wrap32(x) == x
    ensures TWO_31 <= x < TWO_31 + TWO_32 ==> Wrap32(x) == x - TWO_32
    ensures -TWO_31 - TWO_32 <= x < -TWO_31 ==> Wrap32(x) == x + TWO_32
  {
  }

  /** Positions move one way, by bounded steps. */
  lemma PositionBounds(o: int, s: int, j: nat, k: nat)
    requires -LOOKUP_SIZE < o < LOOKUP_SIZE && -LOOKUP_SIZE < s < LOOKUP_SIZE && j <= k < LOOKUP_SIZE
    ensures 0 <= s ==> o <= o + j * s <= o + k * s < TWO_31 + TWO_32
    ensures s <= 0 ==> -TWO_31 - TWO_32 <= o + k * s <= o + j * s <= o
  {
    if 0 <= s {
      ProductBound(k, s, j, s);
      ProductBound(LOOKUP_SIZE - 1, LOOKUP_SIZE - 1, k, s);
    } else {
      ProductBound(k, -s, j, -s);
      ProductBound(LOOKUP_SIZE - 1, LOOKUP_SIZE - 1, k, -s);
      assert k * -s == -(k * s) && j * -s == -(j * s);
    }
  }

  /** All positions of a row are in the 32-bit range exactly if the last one is. */
  lemma PositionsFit(h: int)
    ensures (forall j: nat :: j < LOOKUP_SIZE ==> FitsInt(Position(h, LOOKUP_SIZE, j))) <==>
            FitsInt(Position(h, LOOKUP_SIZE, LOOKUP_SIZE - 1))
  {
    OffsetAndSkip(h);
    var o, s := Offset(h, LOOKUP_SIZE), Skip(h, LOOKUP_SIZE);
    forall j: nat | j < LOOKUP_SIZE && FitsInt(o + (LOOKUP_SIZE - 1) * s)
      ensures FitsInt(Position(h, LOOKUP_SIZE, j))
    {
      PositionBounds(o, s, j, LOOKUP_SIZE - 1);
    }
    assert FitsInt(Position(h, LOOKUP_SIZE, LOOKUP_SIZE - 1)) ==> FitsInt(o + (LOOKUP_SIZE - 1) * s);
  }

  /** The first position that leaves the range. */
  lemma FirstOverflow(o: int, s: int, last: nat) returns (f: nat)
    requires -LOOKUP_SIZE < o < LOOKUP_SIZE && !FitsInt(o + last * s)
    ensures 0 < f <= last && !FitsInt(o + f * s) && forall j: nat :: j < f ==> FitsInt(o + j * s)
  {
    f := 0;
    while FitsInt(o + f * s)
      invariant f <= last && forall j: nat :: j < f ==> FitsInt(o + j * s)
      decreases last - f
    {
      f := f + 1;
    }
    assert f == 0 ==> f * s == 0;
  }

  /** Two indices `d` apart, one on each side of the first overflow. */
  lemma Straddle(f: nat, d: nat, m: nat) returns (a: nat)
    requires 0 < f < m && 0 < d < m
    ensures a < f <= a + d < m
  {
    a := if d <= f then f - d else 0;
  }

  /** After a wrap every entry is shifted by one, because 2^32 is 1 modulo the table size; the two
      indices whose positions differ by one meet. */
  lemma WrappedMeet(o: int, s: int, a: nat, d: nat, w: int)
    requires Wrap32(o + a * s) == o + a * s && Wrap32(o + (a + d) * s) == o + (a + d) * s - w
    requires (d * s - w) % LOOKUP_SIZE == 0
    ensures Wrap32(o + a * s) % LOOKUP_SIZE == Wrap32(o + (a + d) * s) % LOOKUP_SIZE
  {
    assert (a + d) * s == a * s + d * s;
    AddDivisible(o + a * s, d * s - w, LOOKUP_SIZE);
  }

  lemma StepsToWrap(s: int) returns (d: nat, w: int)
    requires s % LOOKUP_SIZE != 0
    ensures 0 < d < LOOKUP_SIZE && w == (if s > 0 then TWO_32 else -TWO_32) && (d * s - w) % LOOKUP_SIZE == 0
  {
    TableSizePrime();
    if s > 0 {
      d := Inverse(s, LOOKUP_SIZE);
      w := TWO_32;
      SameRemainder(TWO_32, d * s, LOOKUP_SIZE);
    } else {
      NegatedRemainder(s, LOOKUP_SIZE);
      d := Inverse(-s, LOOKUP_SIZE);
      w := -TWO_32;
      SameRemainder(d * -s, TWO_32, LOOKUP_SIZE);
      assert d * -s == -(d * s);
    }
  }

  lemma NegatedRemainder(s: int, m: nat)
    requires 0 < m && s % m != 0
    ensures (-s) % m != 0
  {
    if (-s) % m == 0 {
      var q := (-s) / m;
      assert -s == m * q;
      assert s == m * (-q);
      DivModUnique(s, m, -q, 0);
    }
  }

  /** From the first overflow on every position wraps once, to the other side. */
  lemma WrapsOnce(o: int, s: int, f: nat, b: nat)
    requires -LOOKUP_SIZE < o < LOOKUP_SIZE && -LOOKUP_SIZE < s < LOOKUP_SIZE && f <= b < LOOKUP_SIZE
    requires !FitsInt(o + f * s)
    ensures Wrap32(o + b * s) == o + b * s - if s > 0 then TWO_32 else -TWO_32
  {
    PositionBounds(o, s, 0, f);
    PositionBounds(o, s, f, b);
    FittingWraps(o + b * s);
  }

  lemma {:induction false} WrapPair(o: int, s: int) returns (a: nat, b: nat)
    requires -LOOKUP_SIZE < o < LOOKUP_SIZE && -LOOKUP_SIZE < s < LOOKUP_SIZE && s % LOOKUP_SIZE != 0
    requires !FitsInt(o + (LOOKUP_SIZE - 1) * s)
    ensures a < b < LOOKUP_SIZE && Wrap32(o + a * s) % LOOKUP_SIZE == Wrap32(o + b * s) % LOOKUP_SIZE
  {
    var f := FirstOverflow(o, s, LOOKUP_SIZE - 1);
    var d, w := StepsToWrap(s);
    a := Straddle(f, d, LOOKUP_SIZE);
    b := a + d;
    FittingWraps(o + a * s);
    WrapsOnce(o, s, f, b);
    WrappedMeet(o, s, a, d, w);
  }

  /** A row that leaves the 32-bit range has an index twice. */
  lemma {:induction false} OverflowCollides(h: int) returns (a: nat, b: nat)
    requires Skip(h, LOOKUP_SIZE) % LOOKUP_SIZE != 0 && !FitsInt(Position(h, LOOKUP_SIZE, LOOKUP_SIZE - 1))
    ensures a < b < LOOKUP_SIZE && Entry(h, LOOKUP_SIZE, a) == Entry(h, LOOKUP_SIZE, b)
  {
    OffsetAndSkip(h);
    a, b := WrapPair(Offset(h, LOOKUP_SIZE), Skip(h, LOOKUP_SIZE));
    EntryIsMod(h, LOOKUP_SIZE, a);
    EntryIsMod(h, LOOKUP_SIZE, b);
  }

  // ---------------------------------------------------------------- rows are permutations

  lemma FittingRow(h: int)
    requires Skip(h, LOOKUP_SIZE) % LOOKUP_SIZE != 0 && FitsInt(Position(h, LOOKUP_SIZE, LOOKUP_SIZE - 1))
    ensures IsPermutation(Row(h, LOOKUP_SIZE), LOOKUP_SIZE)
  {
    var row := Row(h, LOOKUP_SIZE);
    TableSizePrime();
    RowInRange(h, LOOKUP_SIZE);
    PositionsFit(h);
    forall j, k | 0 <= j < k < LOOKUP_SIZE
      ensures row[j] != row[k]
    {
      FittingEntriesDiffer(h, j, k);
    }
    InjectiveIsOnto(row, LOOKUP_SIZE);
  }

  lemma FittingEntriesDiffer(h: int, j: nat, k: nat)
    requires Skip(h, LOOKUP_SIZE) % LOOKUP_SIZE != 0 && j < k < LOOKUP_SIZE
    requires FitsInt(Position(h, LOOKUP_SIZE, j)) && FitsInt(Position(h, LOOKUP_SIZE, k))
    ensures Entry(h, LOOKUP_SIZE, j) != Entry(h, LOOKUP_SIZE, k)
  {
    TableSizePrime();
    EntryIsMod(h, LOOKUP_SIZE, j);
    EntryIsMod(h, LOOKUP_SIZE, k);
    FittingWraps(Position(h, LOOKUP_SIZE, j));
    FittingWraps(Position(h, LOOKUP_SIZE, k));
    StepsDiffer(Offset(h, LOOKUP_SIZE), Skip(h, LOOKUP_SIZE), LOOKUP_SIZE, j, k);
  }

  /** Without a skip the first two entries are the same. */
  lemma StandingRow(h: int)
    requires Skip(h, LOOKUP_SIZE) % LOOKUP_SIZE == 0
    ensures Entry(h, LOOKUP_SIZE, 0) == Entry(h, LOOKUP_SIZE, 1)
  {
    OffsetAndSkip(h);
    SmallMultiple(Skip(h, LOOKUP_SIZE), LOOKUP_SIZE);
    assert 0 * Skip(h, LOOKUP_SIZE) == 1 * Skip(h, LOOKUP_SIZE);
  }

  lemma SmallMultiple(s: int, m: nat)
    requires 0 < m && 0 - m < s < m && s % m == 0
    ensures s == 0
  {
    if s > 0 {
      DivModUnique(s, m, 0, s);
    } else if s < 0 {
      DivModUnique(s, m, -1, s + m);
    }
  }

  /** The row of a hash, as 32-bit arithmetic computes it, is a permutation exactly if its skip is
      not a multiple of the size and its last position is in the 32-bit range. */
  lemma RowPermutationIff(h: int)
    ensures IsPermutation(Row(h, LOOKUP_SIZE), LOOKUP_SIZE) <==> GoodHash(h)
  {
    var row := Row(h, LOOKUP_SIZE);
    if Skip(h, LOOKUP_SIZE) % LOOKUP_SIZE == 0 {
      StandingRow(h);
      assert row[0] == row[1];
    } else if GoodHash(h) {
      FittingRow(h);
    } else {
      var a, b := OverflowCollides(h);
      assert row[a] == row[b];
    }
  }

  predicate GoodHash(h: int) {
    Skip(h, LOOKUP_SIZE) % LOOKUP_SIZE != 0 && FitsInt(Position(h, LOOKUP_SIZE, LOOKUP_SIZE - 1))
  }

  /** The skip is a multiple of the size only for one residue class of negative hashes. */
  lemma SkipZeroIff(h: int, m: nat)
    requires 3 <= m
    ensures Skip(h, m) % m == 0 <==> h < 0 && (-h) % (m - 1) == 1
  {
  }

  /** Which skips keep a row in the range: those below 2^15 in size, but for the last few. */
  lemma SkipsThatFit(h: int)
    ensures FitsInt(Position(h, LOOKUP_SIZE, LOOKUP_SIZE - 1)) ==> -0x8000 <= Skip(h, LOOKUP_SIZE) <= 0x7FFF
    ensures -0x7FFF <= Skip(h, LOOKUP_SIZE) <= 0x7FFE ==> FitsInt(Position(h, LOOKUP_SIZE, LOOKUP_SIZE - 1))
  {
    OffsetAndSkip(h);
  }

  /** For hashes that are not negative only the range matters. */
  lemma NonNegativeHashRow(h: nat)
    ensures IsPermutation(Row(h, LOOKUP_SIZE), LOOKUP_SIZE) <==>
            h % LOOKUP_SIZE + (LOOKUP_SIZE - 1) * (h % (LOOKUP_SIZE - 1) + 1) < TWO_31
  {
    RowPermutationIff(h);
    SkipZeroIff(h, LOOKUP_SIZE);
  }

  /** The smallest hash of the largest skip is one that fails. */
  lemma Hash65535Fails()
    ensures !IsPermutation(Row(65535, LOOKUP_SIZE), LOOKUP_SIZE)
  {
    NonNegativeHashRow(65535);
  }

  // ---------------------------------------------------------------- counting

  ghost function Elements(row: seq<int>): set<int> {
    set x | x in row
  }

  ghost function Range(m: nat): (r: set<int>)
    ensures |r| == m && forall x :: x in r <==> 0 <= x < m
  {
    if m == 0 then {} else Range(m - 1) + {m - 1}
  }

  lemma {:induction false} InjectiveSize(row: seq<int>)
    requires Injective(row)
    ensures |Elements(row)| == |row|
  {
    if row == [] {
      assert Elements(row) == {};
    } else {
      var n := |row| - 1;
      InjectiveSize(row[..n]);
      assert row == row[..n] + [row[n]];
      assert Elements(row) == Elements(row[..n]) + {row[n]};
    }
  }

  lemma SubsetOfSameSize(a: set<int>, b: set<int>)
    requires a <= b && |a| == |b|
    ensures a == b
  {
    assert |b - a| == |b| - |a|;
  }

  /** m distinct numbers below m are all of them. */
  lemma InjectiveIsOnto(row: seq<int>, m: nat)
    requires |row| == m && Injective(row) && forall j :: 0 <= j < m ==> 0 <= row[j] < m
    ensures forall c :: 0 <= c < m ==> c in row
  {
    InjectiveSize(row);
    SubsetOfSameSize(Elements(row), Range(m));
    forall c | 0 <= c < m
      ensures c in row
    {
      assert c in Range(m);
    }
  }

  // ---------------------------------------------------------------- the table size is prime

  lemma TableSizePrime()
    ensures IsPrime(LOOKUP_SIZE)
  {
    assert forall d :: 2 <= d < 258 ==> 65537 % d != 0;
    forall d | 2 <= d < LOOKUP_SIZE
      ensures LOOKUP_SIZE % d != 0
    {
      if LOOKUP_SIZE % d == 0 && d >= 258 {
        var q := LOOKUP_SIZE / d;
        CofactorSmall(LOOKUP_SIZE, d, q);
        DivModUnique(LOOKUP_SIZE, q, d, 0);
      }
    }
  }

  lemma CofactorSmall(n: nat, d: nat, q: nat)
    requires d * q == n < 258 * 258 && 258 <= d < n
    ensures 2 <= q < 258
  {
    ProductBound(d, q, 258, 258);
  }
}
