/** The initial parameter vector handed to the optimiser: p mixer angles
    (beta) followed by p problem angles (gamma). */
module Parameters {
  import opened Wrappers

  const OnesAndZeros: string := "ONES_AND_ZEROS"
  const DecAndInc: string := "DEC_AND_INC"

  function Max0(p: int): nat {
    if p > 0 then p else 0
  }

  /** Builds theta for the named distribution. "ONES_AND_ZEROS" gives p ones
      then p zeros; "DEC_AND_INC" lets beta fall from 1 in steps of 1/p and
      gamma rise from 0 in steps of 1/p; any other name has no result. A
      non-positive p yields the empty vector, as repeating a list a
      non-positive number of times and iterating over an empty range do. */
  method GetTheta(p: int, distribution: string) returns (theta: Option<seq<real>>)
    ensures theta.Some? <==> distribution == OnesAndZeros || distribution == DecAndInc
    ensures theta.Some? ==> |theta.value| == 2 * Max0(p)
    ensures theta.Some? ==> forall i :: 0 <= i < |theta.value| ==> 0.0 <= theta.value[i] <= 1.0
    ensures theta.Some? ==> forall k :: 0 <= k < p ==> theta.value[k] + theta.value[p + k] == 1.0
    ensures distribution == OnesAndZeros ==>
      forall i :: 0 <= i < |theta.value| ==> theta.value[i] == if i < p then 1.0 else 0.0
    ensures distribution == DecAndInc ==>
      forall i :: 0 <= i < |theta.value| ==>
        theta.value[i] == if i < p then 1.0 - i as real / p as real else (i - p) as real / p as real
  {
    if distribution == OnesAndZeros {
      theta := Some(seq(Max0(p), _ => 1.0) + seq(Max0(p), _ => 0.0));
    } else if distribution == DecAndInc {
      var t: seq<real> := [];
      var i := 0;
      while i < p
        invariant 0 <= i <= Max0(p)
        invariant |t| == i
        invariant forall k :: 0 <= k < i ==> t[k] == 1.0 - k as real / p as real
      {
        t := t + [1.0 - i as real / p as real];
        i := i + 1;
      }
      i := 0;
      while i < p
        invariant 0 <= i <= Max0(p)
        invariant |t| == Max0(p) + i
        invariant forall k :: 0 <= k < Max0(p) ==> t[k] == 1.0 - k as real / p as real
        invariant forall k :: Max0(p) <= k < |t| ==> t[k] == (k - p) as real / p as real
      {
        t := t + [i as real / p as real];
        i := i + 1;
      }
      forall k | 0 <= k < |t|
        ensures 0.0 <= t[k] <= 1.0
      {
        FractionBelowOne(if k < p then k else k - p, p);
      }
      theta := Some(t);
    } else {
      theta := None;
    }
  }

  lemma FractionBelowOne(k: nat, p: int)
    requires k < p
    ensures 0.0 <= k as real / p as real < 1.0
  {
    assert k as real < p as real;
  }

  /** Under "DEC_AND_INC" the beta half strictly decreases and the gamma half
      strictly increases. */
  lemma DecAndIncMonotone(theta: seq<real>, p: nat, j: nat, k: nat)
    requires |theta| == 2 * p
    requires forall i :: 0 <= i < |theta| ==>
      theta[i] == if i < p then 1.0 - i as real / p as real else (i - p) as real / p as real
    requires j < k < p
    ensures theta[j] > theta[k]
    ensures theta[p + j] < theta[p + k]
  {
    assert j as real < k as real;
    assert j as real / p as real < k as real / p as real;
  }
}
