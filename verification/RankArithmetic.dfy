/** Arithmetic on ranks of a communicator. */
module RankArithmetic {
  import opened Bits
  import opened Scans

  /** The remainder of C++, which takes the sign of the dividend. */
  function TruncatedMod(a: int, b: int): int
    requires b > 0
  {
    if a >= 0 then a % b else -((-a) % b)
  }

  predicate IsValidRank(rank: int, size: nat) {
    0 <= rank < size
  }

  /** The rank that is distance ranks away, going around the communicator. The distance is first capped. */
  function RankShiftedCyclic(rank: nat, size: nat, distance: int): (r: nat)
    requires rank < size
    ensures IsValidRank(r, size)
  {
    var capped := TruncatedMod(distance, size);
    (rank + capped + size) % size
  }

  /** A truncating remainder differs from the number by a multiple of the divisor. */
  lemma TruncatedModQuotient(a: int, m: int) returns (q: int)
    requires m > 0
    ensures a == q * m + TruncatedMod(a, m) && -m < TruncatedMod(a, m) < m
  {
    if a >= 0 {
      q := a / m;
      DivMod(a, m);
    } else {
      q := -((-a) / m);
      DivMod(-a, m);
      NegateProduct((-a) / m, m);
    }
  }

  /** Despite the truncating remainder the result is the mathematical (rank + distance) mod size. */
  lemma RankShiftedCyclicIsModulo(rank: nat, size: nat, distance: int)
    requires rank < size
    ensures RankShiftedCyclic(rank, size, distance) == (rank + distance) % size
  {
    var q := TruncatedModQuotient(distance, size);
    ModPlusMultiple(q, size, rank + TruncatedMod(distance, size));
    ModPlusMultiple(1, size, rank + TruncatedMod(distance, size));
  }

  lemma NegateProduct(q: int, m: int)
    ensures (-q) * m == -(q * m)
  {}

  lemma DivMod(x: int, m: int)
    requires m > 0
    ensures x == (x / m) * m + x % m
  {}

  lemma NegateQuotient(x: int, k: int, m: int, rank: int, d: int)
    requires x == rank + d - k * m
    ensures x - d == (-k) * m + rank
  {
    assert (-k) * m == -(k * m);
  }

  /** Shifting there and back leads home: what every rank sends to distance d is received from distance -d. */
  lemma ShiftsAreInverse(rank: nat, there: nat, size: nat, distance: int)
    requires rank < size && there == RankShiftedCyclic(rank, size, distance)
    ensures RankShiftedCyclic(there, size, -distance) == rank
  {
    var k := (rank + distance) / size;
    RankShiftedCyclicIsModulo(rank, size, distance);
    DivMod(rank + distance, size);
    NegateQuotient(there, k, size, rank, distance);
    DivisionUnique(-k, size, rank);
    RankShiftedCyclicIsModulo(there, size, -distance);
  }

  ghost predicate IsInt(x: int) {
    -(x + 1) <= MAX_INT && x <= MAX_INT
  }

  ghost predicate SumStaysInt(rank: nat, size: nat, distance: int)
    requires size > 0
  {
    IsInt(rank + TruncatedMod(distance, size) + size)
  }

  /** The sum stays within int, for every rank and distance, if and only if the communicator is at most
      about a third of the range of int. */
  lemma SumStaysIntIff(size: nat)
    requires 1 <= size <= MAX_INT
    ensures (forall rank: nat, distance: int | rank < size && IsInt(distance) :: SumStaysInt(rank, size, distance))
       <==> 3 * size - 2 <= MAX_INT
  {
    SmallMod(size - 1, size);
    assert SumStaysInt(size - 1, size, size - 1) <==> 3 * size - 2 <= MAX_INT;
  }
}
