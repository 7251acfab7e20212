/** The diagonal "Hamiltonian" of the W-state search: a 2^n x 2^n integer
    matrix whose diagonal gives a negative energy to exactly the one-hot
    basis states (the valid measurements of a W state) and a positive
    energy to every other basis state. */
module Hamiltonian {
  import opened Bits

  /** Magnitude of every diagonal energy. */
  const Energy: int := 1000000

  type Matrix = seq<seq<int>>

  /** m has size rows of size entries each. */
  predicate IsSquare(m: Matrix, size: nat) {
    |m| == size && forall i :: 0 <= i < |m| ==> |m[i]| == size
  }

  /** Every off-diagonal entry of the square matrix m is zero. */
  predicate IsDiagonal(m: Matrix)
    requires IsSquare(m, |m|)
  {
    forall i, j :: 0 <= i < |m| && 0 <= j < |m| && i != j ==> m[i][j] == 0
  }

  /** The diagonal holds -Energy at the powers of two and +Energy elsewhere
      (index 0 included, since 0 is not a power of two). */
  ghost predicate MarksPowersOfTwo(m: Matrix)
    requires IsSquare(m, |m|)
  {
    forall i :: 0 <= i < |m| ==> m[i][i] == (if IsPowerOfTwo(i) then -Energy else Energy)
  }

  /** The indices whose diagonal energy is negative. */
  ghost function NegativeDiagonal(m: Matrix): set<nat>
    requires IsSquare(m, |m|)
  {
    set i: nat | i < |m| && m[i][i] < 0
  }

  /** Builds the matrix as the source does: first an all-zero 2^n x 2^n
      matrix, then one pass over the diagonal, where index 0 is set apart
      (its logarithm is undefined) and every other index goes through the test for an
      integral base-2 logarithm. */
  method GetH(n: nat) returns (h: Matrix)
    ensures IsSquare(h, Pow2(n))
    ensures IsDiagonal(h)
    ensures MarksPowersOfTwo(h)
    ensures h[0][0] == Energy
  {
    var size := Pow2(n);
    h := [];
    var i := 0;
    while i < size
      invariant i <= size
      invariant |h| == i
      invariant forall r :: 0 <= r < i ==> |h[r]| == size
      invariant forall r, c :: 0 <= r < i && 0 <= c < size ==> h[r][c] == 0
    {
      h := h + [seq(size, _ => 0)];
      i := i + 1;
    }
    i := 0;
    while i < |h|
      invariant i <= |h|
      invariant IsSquare(h, size)
      invariant forall r, c :: 0 <= r < size && 0 <= c < size && r != c ==> h[r][c] == 0
      invariant forall r :: i <= r < size ==> h[r][r] == 0
      invariant forall r :: 0 <= r < i ==> h[r][r] == (if r != 0 && Log2IsWhole(r) then -Energy else Energy)
    {
      if i == 0 {
        h := h[i := h[i][i := Energy]];
      } else if Log2IsWhole(i) {
        h := h[i := h[i][i := -Energy]];
      } else {
        h := h[i := h[i][i := Energy]];
      }
      i := i + 1;
    }
    forall r | 0 <= r < |h|
      ensures h[r][r] == (if IsPowerOfTwo(r) then -Energy else Energy)
    {
      Log2IsWholeIffPowerOfTwo(r);
    }
  }

  /** A diagonal entry is negative exactly when the basis state it weighs,
      written as an n-bit string, has a single '1': the Hamiltonian rewards
      the same bitstrings the scoring function leaves unpenalised. */
  lemma NegativeExactlyOnOneHot(h: Matrix, n: nat, i: nat)
    requires IsSquare(h, Pow2(n)) && MarksPowersOfTwo(h)
    requires i < |h|
    ensures h[i][i] < 0 <==> OnesCount(BinaryString(i, n)) == 1
  {
    OneHotIffPowerOfTwo(i, n);
  }

  /** Exactly n diagonal entries are negative, at the indices 2^0 .. 2^(n-1). */
  lemma NegativeDiagonalCount(h: Matrix, n: nat)
    requires IsSquare(h, Pow2(n)) && MarksPowersOfTwo(h)
    ensures NegativeDiagonal(h) == PowersBelow(n)
    ensures |NegativeDiagonal(h)| == n
  {
    PowersOfTwoBelow(n);
    assert NegativeDiagonal(h) == set i: nat | i < Pow2(n) && IsPowerOfTwo(i);
  }
}
