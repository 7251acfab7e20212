/** Powers of two, binary bitstrings and the ones count of a bitstring.

    These are the integer facts shared by the Hamiltonian (which marks the
    indices of one-hot basis states) and the scoring function (which counts
    the '1' characters of a measured bitstring). */
module Bits {

  /** 2^k. */
  function Pow2(k: nat): (r: nat)
    ensures r >= 1
  {
    if k == 0 then 1 else 2 * Pow2(k - 1)
  }

  /** i is an exact power of two. */
  ghost predicate IsPowerOfTwo(i: int) {
    exists k: nat :: Pow2(k) == i
  }

  /** The test `int(log2(i)) == log2(i)` for i >= 1, stated exactly: i is
      reached from 1 by repeated doubling. */
  predicate Log2IsWhole(i: nat)
    decreases i
  {
    i == 1 || (i >= 2 && i % 2 == 0 && Log2IsWhole(i / 2))
  }

  /** The number of '1' characters in s. */
  function OnesCount(s: string): (r: nat)
    ensures r <= |s|
  {
    if |s| == 0 then 0
    else OnesCount(s[..|s| - 1]) + (if s[|s| - 1] == '1' then 1 else 0)
  }

  /** The n-character binary rendering of i, most significant bit first
      (the order in which measured bitstrings are reported). */
  function BinaryString(i: nat, n: nat): (s: string)
    ensures |s| == n
  {
    if n == 0 then [] else BinaryString(i / 2, n - 1) + [if i % 2 == 1 then '1' else '0']
  }

  /** The number of set bits of i. */
  function PopCount(i: nat): nat {
    if i == 0 then 0 else i % 2 + PopCount(i / 2)
  }

  /** The set of all 2^k with k < n: the n one-hot indices of an n-qubit register. */
  ghost function PowersBelow(n: nat): set<nat> {
    set k: nat | k < n :: Pow2(k)
  }

  lemma {:induction false} Pow2StrictlyIncreasing(j: nat, k: nat)
    requires j < k
    ensures Pow2(j) < Pow2(k)
  {
    if j + 1 < k {
      Pow2StrictlyIncreasing(j, k - 1);
    }
  }

  /** The exact logarithm test agrees with the existence of an exponent. */
  lemma {:induction false} Log2IsWholeIffPowerOfTwo(i: nat)
    ensures Log2IsWhole(i) <==> IsPowerOfTwo(i)
  {
    if Log2IsWhole(i) {
      if i != 1 {
        Log2IsWholeIffPowerOfTwo(i / 2);
        var k: nat :| Pow2(k) == i / 2;
        assert Pow2(k + 1) == i;
      } else {
        assert Pow2(0) == i;
      }
    }
    if IsPowerOfTwo(i) {
      var k: nat :| Pow2(k) == i;
      Log2IsWholeOfPow2(k);
    }
  }

  lemma {:induction false} Log2IsWholeOfPow2(k: nat)
    ensures Log2IsWhole(Pow2(k))
  {
    if k > 0 {
      Log2IsWholeOfPow2(k - 1);
      assert Pow2(k) / 2 == Pow2(k - 1);
    }
  }

  lemma {:induction false} PopCountZero(i: nat)
    ensures PopCount(i) == 0 <==> i == 0
  {
    if i > 0 && i % 2 == 0 {
      PopCountZero(i / 2);
    }
  }

  /** A number has exactly one set bit iff the logarithm test accepts it. */
  lemma {:induction false} PopCountOneIffLog2IsWhole(i: nat)
    ensures PopCount(i) == 1 <==> Log2IsWhole(i)
  {
    if i >= 2 {
      PopCountOneIffLog2IsWhole(i / 2);
      if i % 2 == 1 {
        PopCountZero(i / 2);
      }
    }
  }

  /** Rendering i in n bits loses no set bit when i fits in n bits. */
  lemma {:induction false} OnesCountOfBinaryString(i: nat, n: nat)
    requires i < Pow2(n)
    ensures OnesCount(BinaryString(i, n)) == PopCount(i)
  {
    if n > 0 {
      var s := BinaryString(i, n);
      assert s[..|s| - 1] == BinaryString(i / 2, n - 1);
      OnesCountOfBinaryString(i / 2, n - 1);
    }
  }

  /** An index below 2^n is a power of two exactly when its n-bit
      bitstring is one-hot. */
  lemma OneHotIffPowerOfTwo(i: nat, n: nat)
    requires i < Pow2(n)
    ensures OnesCount(BinaryString(i, n)) == 1 <==> IsPowerOfTwo(i)
  {
    OnesCountOfBinaryString(i, n);
    PopCountOneIffLog2IsWhole(i);
    Log2IsWholeIffPowerOfTwo(i);
  }

  /** The powers of two below 2^n are exactly the 2^k with k < n, and there
      are n of them. */
  lemma PowersOfTwoBelow(n: nat)
    ensures (set i: nat | i < Pow2(n) && IsPowerOfTwo(i)) == PowersBelow(n)
    ensures |PowersBelow(n)| == n
  {
    var lhs := set i: nat | i < Pow2(n) && IsPowerOfTwo(i);
    forall i | i in lhs
      ensures i in PowersBelow(n)
    {
      var k: nat :| Pow2(k) == i;
      if k >= n {
        if k > n {
          Pow2StrictlyIncreasing(n, k);
        }
        assert false;
      }
    }
    forall i | i in PowersBelow(n)
      ensures i in lhs
    {
      var k: nat :| k < n && Pow2(k) == i;
      Pow2StrictlyIncreasing(k, n);
    }
    PowersBelowSize(n);
  }

  lemma {:induction false} PowersBelowSize(n: nat)
    ensures |PowersBelow(n)| == n
  {
    if n > 0 {
      PowersBelowSize(n - 1);
      assert PowersBelow(n) == PowersBelow(n - 1) + {Pow2(n - 1)};
      if Pow2(n - 1) in PowersBelow(n - 1) {
        var k: nat :| k < n - 1 && Pow2(k) == Pow2(n - 1);
        Pow2StrictlyIncreasing(k, n - 1);
      }
    }
  }
}
