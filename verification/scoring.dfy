/** The score that the optimiser minimises: a measurement-count map is
    penalised for every shot that did not land on a one-hot bitstring, and
    optionally for an uneven spread over the one-hot bitstrings. */
module Scoring {
  import opened Bits
  import opened Wrappers

  /** One item of the measurement-count map: a measured bitstring and the
      number of shots that produced it. */
  datatype Outcome = Outcome(bitstring: string, count: int)

  /** The one failure the scoring can raise: a shot count of zero. */
  datatype Error = ZeroDivisionError

  function Abs(x: real): real {
    if x < 0.0 then -x else x
  }

  function IntAbs(x: int): nat {
    if x < 0 then -x else x
  }

  /** The outcome is a valid measurement of a W state. */
  predicate IsOneHot(o: Outcome) {
    OnesCount(o.bitstring) == 1
  }

  /** The penalty one item adds to the running error: count * |ones - 1|
      when smooth, count for a non-one-hot bitstring otherwise, plus, when
      an equal distribution is wanted and the bitstring is one-hot, a tenth
      of its distance from the fair share shots / len(bitstring). */
  function ItemPenalty(o: Outcome, shots: int, isSmooth: bool, wantEqualDistribution: bool): real {
    var ones := OnesCount(o.bitstring);
    var base: real :=
      if isSmooth then (o.count * IntAbs(ones as int - 1)) as real
      else if ones != 1 then o.count as real
      else 0.0;
    if wantEqualDistribution && ones == 1 then
      base + Abs(shots as real / |o.bitstring| as real - o.count as real) * 0.1
    else
      base
  }

  /** The error accumulated over the items in order, before the final
      division by shots. */
  function TotalPenalty(counts: seq<Outcome>, shots: int, isSmooth: bool, wantEqualDistribution: bool): real {
    if |counts| == 0 then 0.0
    else TotalPenalty(counts[..|counts| - 1], shots, isSmooth, wantEqualDistribution)
         + ItemPenalty(counts[|counts| - 1], shots, isSmooth, wantEqualDistribution)
  }

  /** Sum of all counts. */
  function TotalShots(counts: seq<Outcome>): int {
    if |counts| == 0 then 0 else TotalShots(counts[..|counts| - 1]) + counts[|counts| - 1].count
  }

  /** The items whose bitstring is not one-hot. */
  function Invalid(counts: seq<Outcome>): (r: seq<Outcome>)
    ensures forall o <- r :: o in counts && !IsOneHot(o)
    ensures forall o <- counts :: !IsOneHot(o) ==> o in r
  {
    if |counts| == 0 then []
    else if IsOneHot(counts[0]) then Invalid(counts[1..])
    else [counts[0]] + Invalid(counts[1..])
  }

  predicate NonNegativeCounts(counts: seq<Outcome>) {
    forall i :: 0 <= i < |counts| ==> counts[i].count >= 0
  }

  /** Scores the counts of one simulator run. The loop accumulates the
      per-item penalty in the map's iteration order and divides by shots at
      the end; a shot count of zero is the division error. */
  method ComputeExpectation(counts: seq<Outcome>, shots: int, isSmooth: bool, wantEqualDistribution: bool)
    returns (r: Result<real, Error>)
    ensures r.Failure? <==> shots == 0
    ensures r.Success? ==>
      r.value == TotalPenalty(counts, shots, isSmooth, wantEqualDistribution) / shots as real
    ensures r.Success? && !isSmooth && !wantEqualDistribution ==>
      r.value == TotalShots(Invalid(counts)) as real / shots as real
    ensures r.Success? && shots > 0 && NonNegativeCounts(counts) ==> r.value >= 0.0
    ensures r.Success? && !isSmooth && !wantEqualDistribution
            && NonNegativeCounts(counts) && TotalShots(counts) == shots ==>
      0.0 <= r.value <= 1.0
  {
    var error := 0.0;
    var i := 0;
    while i < |counts|
      invariant i <= |counts|
      invariant error == TotalPenalty(counts[..i], shots, isSmooth, wantEqualDistribution)
    {
      assert counts[..i + 1][..i] == counts[..i];
      ghost var before := error;
      var item := counts[i];
      var ones := OnesCount(item.bitstring);
      if isSmooth {
        error := error + (item.count * IntAbs(ones as int - 1)) as real;
      } else {
        error := error + (if ones != 1 then item.count as real else 0.0);
      }
      if wantEqualDistribution && ones == 1 {
        var expectedCount := shots as real / |item.bitstring| as real;
        error := error + Abs(expectedCount - item.count as real) * 0.1;
      }
      assert error == before + ItemPenalty(item, shots, isSmooth, wantEqualDistribution);
      i := i + 1;
    }
    assert counts[..i] == counts;
    if shots == 0 {
      return Failure(ZeroDivisionError);
    }
    r := Success(error / shots as real);
    if !isSmooth && !wantEqualDistribution {
      NonSmoothPenaltyCountsInvalidShots(counts, shots);
    }
    if NonNegativeCounts(counts) {
      PenaltyNonNegative(counts, shots, isSmooth, wantEqualDistribution);
      if shots > 0 {
        DivNonNegative(error, shots as real);
      }
      if !isSmooth && !wantEqualDistribution && TotalShots(counts) == shots {
        InvalidShotsBounded(counts);
        DivAtMostOne(error, shots as real);
      }
    }
  }

  lemma DivNonNegative(x: real, y: real)
    requires x >= 0.0 && y > 0.0
    ensures x / y >= 0.0
  {
  }

  lemma DivAtMostOne(x: real, y: real)
    requires 0.0 <= x <= y && y > 0.0
    ensures 0.0 <= x / y <= 1.0
  {
  }

  lemma {:induction false} TotalShotsAppend(a: seq<Outcome>, b: seq<Outcome>)
    ensures TotalShots(a + b) == TotalShots(a) + TotalShots(b)
  {
    if |b| == 0 {
      assert a + b == a;
    } else {
      assert (a + b)[..|a + b| - 1] == a + b[..|b| - 1];
      assert (a + b)[|a + b| - 1] == b[|b| - 1];
      TotalShotsAppend(a, b[..|b| - 1]);
    }
  }

  /** Without smoothing and without the distribution term, the error is the
      number of shots that landed outside the one-hot bitstrings. */
  lemma {:induction false} NonSmoothPenaltyCountsInvalidShots(counts: seq<Outcome>, shots: int)
    ensures TotalPenalty(counts, shots, false, false) == TotalShots(Invalid(counts)) as real
  {
    if |counts| > 0 {
      var init := counts[..|counts| - 1];
      var last := counts[|counts| - 1];
      NonSmoothPenaltyCountsInvalidShots(init, shots);
      InvalidAppend(init, [last]);
      assert init + [last] == counts;
      assert Invalid([last]) == if IsOneHot(last) then [] else [last] by {
        assert [last][1..] == [];
      }
      TotalShotsAppend(Invalid(init), Invalid([last]));
      assert TotalShots([last]) == last.count by {
        assert [last][..0] == [];
      }
    }
  }

  lemma {:induction false} InvalidAppend(a: seq<Outcome>, b: seq<Outcome>)
    ensures Invalid(a + b) == Invalid(a) + Invalid(b)
  {
    if |a| > 0 {
      assert (a + b)[1..] == a[1..] + b;
      InvalidAppend(a[1..], b);
    } else {
      assert a + b == b;
    }
  }

  /** With non-negative counts, the invalid shots are at most all shots. */
  lemma {:induction false} InvalidShotsBounded(counts: seq<Outcome>)
    requires NonNegativeCounts(counts)
    ensures 0 <= TotalShots(Invalid(counts)) <= TotalShots(counts)
  {
    if |counts| > 0 {
      var init := counts[..|counts| - 1];
      var last := counts[|counts| - 1];
      InvalidShotsBounded(init);
      InvalidAppend(init, [last]);
      assert init + [last] == counts;
      assert Invalid([last]) == if IsOneHot(last) then [] else [last] by {
        assert [last][1..] == [];
      }
      TotalShotsAppend(Invalid(init), Invalid([last]));
      assert TotalShots([last]) == last.count by {
        assert [last][..0] == [];
      }
    }
  }

  /** Every item's penalty is non-negative when its count is. */
  lemma ItemPenaltyNonNegative(o: Outcome, shots: int, isSmooth: bool, wantEqualDistribution: bool)
    requires o.count >= 0
    ensures ItemPenalty(o, shots, isSmooth, wantEqualDistribution) >= 0.0
  {
  }

  /** With non-negative counts the accumulated error is non-negative, in
      every mode. */
  lemma {:induction false} PenaltyNonNegative(counts: seq<Outcome>, shots: int, isSmooth: bool, wantEqualDistribution: bool)
    requires NonNegativeCounts(counts)
    ensures TotalPenalty(counts, shots, isSmooth, wantEqualDistribution) >= 0.0
  {
    if |counts| > 0 {
      PenaltyNonNegative(counts[..|counts| - 1], shots, isSmooth, wantEqualDistribution);
      ItemPenaltyNonNegative(counts[|counts| - 1], shots, isSmooth, wantEqualDistribution);
    }
  }

  lemma {:induction false} TotalPenaltyAppend(a: seq<Outcome>, b: seq<Outcome>, shots: int, isSmooth: bool, wantEqualDistribution: bool)
    ensures TotalPenalty(a + b, shots, isSmooth, wantEqualDistribution)
         == TotalPenalty(a, shots, isSmooth, wantEqualDistribution) + TotalPenalty(b, shots, isSmooth, wantEqualDistribution)
  {
    if |b| == 0 {
      assert a + b == a;
    } else {
      assert (a + b)[..|a + b| - 1] == a + b[..|b| - 1];
      assert (a + b)[|a + b| - 1] == b[|b| - 1];
      TotalPenaltyAppend(a, b[..|b| - 1], shots, isSmooth, wantEqualDistribution);
    }
  }

  /** The score does not depend on the order in which the count map yields
      its items: any rearrangement of the items gives the same error. */
  lemma {:induction false} PenaltyIgnoresOrder(a: seq<Outcome>, b: seq<Outcome>, shots: int, isSmooth: bool, wantEqualDistribution: bool)
    requires multiset(a) == multiset(b)
    ensures TotalPenalty(a, shots, isSmooth, wantEqualDistribution) == TotalPenalty(b, shots, isSmooth, wantEqualDistribution)
  {
    if |a| > 0 {
      var init := a[..|a| - 1];
      var x := a[|a| - 1];
      assert a == init + [x];
      assert x in multiset(b);
      var j :| 0 <= j < |b| && b[j] == x;
      var b1 := b[..j];
      var b2 := b[j + 1..];
      assert b == (b1 + [x]) + b2;
      CancelOne(init, x, b1, b2);
      PenaltyIgnoresOrder(init, b1 + b2, shots, isSmooth, wantEqualDistribution);
      TotalPenaltyAppend(b1 + [x], b2, shots, isSmooth, wantEqualDistribution);
      TotalPenaltyAppend(b1, b2, shots, isSmooth, wantEqualDistribution);
      TotalPenaltyAppend(b1, [x], shots, isSmooth, wantEqualDistribution);
      TotalPenaltyAppend(init, [x], shots, isSmooth, wantEqualDistribution);
    } else {
      assert |b| == |multiset(b)| == 0;
    }
  }

  lemma CancelOne<T>(init: seq<T>, x: T, b1: seq<T>, b2: seq<T>)
    requires multiset(init + [x]) == multiset(b1 + [x] + b2)
    ensures multiset(init) == multiset(b1 + b2)
  {
    calc {
      multiset(init);
      multiset(init + [x]) - multiset{x};
      multiset(b1 + [x] + b2) - multiset{x};
      { assert b1 + [x] + b2 == b1 + ([x] + b2); }
      multiset(b1 + b2);
    }
  }

  lemma SmoothItemDominates(o: Outcome, shots: int, wantEqualDistribution: bool)
    requires o.count >= 0
    ensures ItemPenalty(o, shots, true, wantEqualDistribution) >= ItemPenalty(o, shots, false, wantEqualDistribution)
  {
    var k := IntAbs(OnesCount(o.bitstring) as int - 1);
    if OnesCount(o.bitstring) != 1 {
      assert k >= 1;
      assert o.count * k >= o.count * 1;
    }
  }

  /** The smooth penalty, which grows with the distance of the ones count
      from one, is never below the plain penalty for the same counts. */
  lemma {:induction false} SmoothPenaltyDominates(counts: seq<Outcome>, shots: int, wantEqualDistribution: bool)
    requires NonNegativeCounts(counts)
    ensures TotalPenalty(counts, shots, true, wantEqualDistribution) >= TotalPenalty(counts, shots, false, wantEqualDistribution)
  {
    if |counts| > 0 {
      SmoothPenaltyDominates(counts[..|counts| - 1], shots, wantEqualDistribution);
      SmoothItemDominates(counts[|counts| - 1], shots, wantEqualDistribution);
    }
  }

  lemma ItemPenaltyZero(o: Outcome, shots: int, isSmooth: bool)
    requires o.count >= 0
    ensures ItemPenalty(o, shots, isSmooth, false) == 0.0 <==> (o.count > 0 ==> IsOneHot(o))
  {
    var k := IntAbs(OnesCount(o.bitstring) as int - 1);
    if o.count > 0 && !IsOneHot(o) {
      assert k >= 1;
      assert o.count * k >= o.count * 1;
    }
  }

  /** Without the distribution term, and in either penalty form, the error
      is zero exactly when every bitstring that was measured at all is
      one-hot. */
  lemma {:induction false} PenaltyZeroIffOnlyOneHot(counts: seq<Outcome>, shots: int, isSmooth: bool)
    requires NonNegativeCounts(counts)
    ensures TotalPenalty(counts, shots, isSmooth, false) == 0.0
        <==> forall i :: 0 <= i < |counts| && counts[i].count > 0 ==> IsOneHot(counts[i])
  {
    if |counts| > 0 {
      var init := counts[..|counts| - 1];
      var last := counts[|counts| - 1];
      PenaltyZeroIffOnlyOneHot(init, shots, isSmooth);
      PenaltyNonNegative(init, shots, isSmooth, false);
      ItemPenaltyNonNegative(last, shots, isSmooth, false);
      ItemPenaltyZero(last, shots, isSmooth);
      assert forall i :: 0 <= i < |init| ==> init[i] == counts[i];
    }
  }

  /** The bitstring length of a one-hot outcome is positive, so its fair
      share shots / len(bitstring) is defined. */
  function FairShare(o: Outcome, shots: int): real
    requires IsOneHot(o)
  {
    shots as real / |o.bitstring| as real
  }

  lemma ItemSpread(o: Outcome, shots: int, isSmooth: bool)
    ensures ItemPenalty(o, shots, isSmooth, true) >= ItemPenalty(o, shots, isSmooth, false)
    ensures ItemPenalty(o, shots, isSmooth, true) == ItemPenalty(o, shots, isSmooth, false)
        <==> (IsOneHot(o) ==> o.count as real == FairShare(o, shots))
  {
  }

  /** The equal-distribution term never lowers the error, and it adds
      nothing exactly when every one-hot bitstring received its fair share
      shots / len(bitstring) of the shots; bitstrings that are not one-hot
      never draw it. */
  lemma {:induction false} SpreadTermVanishesAtFairShare(counts: seq<Outcome>, shots: int, isSmooth: bool)
    ensures TotalPenalty(counts, shots, isSmooth, true) >= TotalPenalty(counts, shots, isSmooth, false)
    ensures TotalPenalty(counts, shots, isSmooth, true) == TotalPenalty(counts, shots, isSmooth, false)
        <==> forall i :: 0 <= i < |counts| && IsOneHot(counts[i]) ==> counts[i].count as real == FairShare(counts[i], shots)
  {
    if |counts| > 0 {
      var init := counts[..|counts| - 1];
      var last := counts[|counts| - 1];
      SpreadTermVanishesAtFairShare(init, shots, isSmooth);
      ItemSpread(last, shots, isSmooth);
      assert forall i :: 0 <= i < |init| ==> init[i] == counts[i];
    }
  }

  /** A perfect W-state histogram, in which every measured bitstring is
      one-hot and holds exactly its fair share, scores zero in every mode. */
  lemma {:induction false} PerfectWStateScoresZero(counts: seq<Outcome>, shots: int, isSmooth: bool, wantEqualDistribution: bool)
    requires forall i :: 0 <= i < |counts| ==> IsOneHot(counts[i]) && counts[i].count as real == FairShare(counts[i], shots)
    ensures TotalPenalty(counts, shots, isSmooth, wantEqualDistribution) == 0.0
  {
    if |counts| > 0 {
      PerfectWStateScoresZero(counts[..|counts| - 1], shots, isSmooth, wantEqualDistribution);
    }
  }
}
