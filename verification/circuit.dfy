/** The parametrised QAOA circuit as a sequence of opaque gate tokens: the
    gates' quantum semantics are not modelled, only which gate is applied,
    with which angle, to which qubits, in which order. */
module Circuit {

  /** One gate of the circuit. ProblemUnitary stands for the Hamiltonian
      gate built from the 2^n x 2^n matrix of module Hamiltonian with the
      given evolution angle; MeasureAll measures every qubit. */
  datatype Gate =
    | Hadamard(qubit: nat)
    | ProblemUnitary(angle: real, qubits: seq<nat>)
    | Rx(angle: real, qubit: nat)
    | MeasureAll

  /** The qubits 0 .. n-1 in order. */
  function AllQubits(n: nat): (q: seq<nat>)
    ensures |q| == n && forall i :: 0 <= i < n ==> q[i] == i
  {
    seq(n, i => i)
  }

  /** Every qubit a gate names lies in a register of n qubits. */
  predicate ActsWithin(g: Gate, n: nat) {
    match g
    case Hadamard(q) => q < n
    case ProblemUnitary(_, qs) => forall q <- qs :: q < n
    case Rx(_, q) => q < n
    case MeasureAll => true
  }

  /** The number of alternating problem/mixer repetitions: half the
      parameter count, rounded down. */
  function Reps(theta: seq<real>): nat {
    |theta| / 2
  }

  /** One repetition: the problem unitary on all qubits with angle 2*gamma,
      then an Rx(2*beta) on each qubit in turn. */
  function Repetition(n: nat, beta: real, gamma: real): (gs: seq<Gate>)
    ensures |gs| == n + 1
  {
    [ProblemUnitary(2.0 * gamma, AllQubits(n))] + seq(n, i requires 0 <= i < n => Rx(2.0 * beta, i))
  }

  /** The repetitions for beta[k], gamma[k], k = 0 .. |beta|-1, in order. */
  function Repetitions(n: nat, beta: seq<real>, gamma: seq<real>): (gs: seq<Gate>)
    requires |beta| == |gamma|
    ensures |gs| == |beta| * (n + 1)
  {
    if |beta| == 0 then []
    else Repetition(n, beta[0], gamma[0]) + Repetitions(n, beta[1..], gamma[1..])
  }

  /** Builds the circuit: p = |theta| / 2, beta = theta[..p], gamma =
      theta[p..] (of which only the first p entries are used); a Hadamard
      on every qubit, p repetitions, and a final measurement of all qubits. */
  function CreateQaoaCirc(n: nat, theta: seq<real>): (c: seq<Gate>)
    ensures |c| == n + Reps(theta) * (n + 1) + 1
    ensures forall i :: 0 <= i < n ==> c[i] == Hadamard(i)
    ensures c[|c| - 1] == MeasureAll
    ensures forall i :: 0 <= i < |c| - 1 ==> !c[i].MeasureAll?
    ensures forall g <- c :: ActsWithin(g, n)
  {
    var p := Reps(theta);
    var beta := theta[..p];
    var gamma := theta[p..];
    var reps := Repetitions(n, beta, gamma[..p]);
    RepetitionsWellFormed(n, beta, gamma[..p]);
    seq(n, i requires 0 <= i < n => Hadamard(i)) + reps + [MeasureAll]
  }

  lemma {:induction false} RepetitionsWellFormed(n: nat, beta: seq<real>, gamma: seq<real>)
    requires |beta| == |gamma|
    ensures forall g <- Repetitions(n, beta, gamma) :: ActsWithin(g, n) && !g.MeasureAll?
  {
    if |beta| > 0 {
      RepetitionsWellFormed(n, beta[1..], gamma[1..]);
    }
  }

  /** Where repetition k starts inside the circuit. */
  function RepetitionStart(n: nat, k: nat): nat {
    n + k * (n + 1)
  }

  lemma {:induction false} RepetitionsLayout(n: nat, beta: seq<real>, gamma: seq<real>, k: nat, j: nat)
    requires |beta| == |gamma|
    requires k < |beta| && j <= n
    ensures k * (n + 1) + j < |Repetitions(n, beta, gamma)|
    ensures Repetitions(n, beta, gamma)[k * (n + 1) + j]
         == if j == 0 then ProblemUnitary(2.0 * gamma[k], AllQubits(n)) else Rx(2.0 * beta[k], j - 1)
  {
    LessTimes(k, |beta|, n + 1);
    var head := Repetition(n, beta[0], gamma[0]);
    var tail := Repetitions(n, beta[1..], gamma[1..]);
    assert Repetitions(n, beta, gamma) == head + tail;
    if k > 0 {
      RepetitionsLayout(n, beta[1..], gamma[1..], k - 1, j);
      MulStep(k, n + 1);
    }
  }

  lemma MulStep(k: nat, m: nat)
    requires k > 0
    ensures k * m == m + (k - 1) * m
  {
  }

  /** Repetition k of the circuit is the problem unitary with angle
      2*theta[p + k] on all n qubits, followed by Rx(2*theta[k]) on qubit
      0, 1, .., n-1. */
  lemma CircuitLayout(n: nat, theta: seq<real>, k: nat, j: nat)
    requires k < Reps(theta) && j <= n
    ensures RepetitionStart(n, k) + j < |CreateQaoaCirc(n, theta)| - 1
    ensures CreateQaoaCirc(n, theta)[RepetitionStart(n, k) + j]
         == if j == 0 then ProblemUnitary(2.0 * theta[Reps(theta) + k], AllQubits(n))
            else Rx(2.0 * theta[k], j - 1)
  {
    var p := Reps(theta);
    RepetitionsLayout(n, theta[..p], theta[p..][..p], k, j);
  }

  /** The rotation angle a gate carries, or 0 for gates without one. */
  function AngleOf(g: Gate): real {
    match g
    case ProblemUnitary(a, _) => a
    case Rx(a, _) => a
    case _ => 0.0
  }

  /** Reads p mixer angles and then p problem angles back out of a circuit
      on n qubits, halving each gate angle. */
  function ReadTheta(c: seq<Gate>, n: nat, p: nat): (theta: seq<real>)
    requires |c| > n + p * (n + 1)
    ensures |theta| == 2 * p
  {
    ReadBeta(c, n, p) + ReadGamma(c, n, p)
  }

  function ReadBeta(c: seq<Gate>, n: nat, p: nat): (beta: seq<real>)
    requires |c| > n + p * (n + 1)
    ensures |beta| == p
  {
    seq(p, k requires 0 <= k < p =>
      assert n + k * (n + 1) + 1 <= n + p * (n + 1) by { LessTimes(k, p, n + 1); }
      AngleOf(c[n + k * (n + 1) + 1]) / 2.0)
  }

  function ReadGamma(c: seq<Gate>, n: nat, p: nat): (gamma: seq<real>)
    requires |c| > n + p * (n + 1)
    ensures |gamma| == p
  {
    seq(p, k requires 0 <= k < p =>
      assert n + k * (n + 1) < n + p * (n + 1) by { LessTimes(k, p, n + 1); }
      AngleOf(c[n + k * (n + 1)]) / 2.0)
  }

  lemma LessTimes(k: nat, p: nat, m: nat)
    requires k < p && m >= 1
    ensures k * m + m <= p * m
  {
    assert (k + 1) * m <= p * m;
  }

  lemma ReadBetaRecovers(n: nat, theta: seq<real>)
    requires n >= 1
    ensures |CreateQaoaCirc(n, theta)| > n + Reps(theta) * (n + 1)
    ensures ReadBeta(CreateQaoaCirc(n, theta), n, Reps(theta)) == theta[..Reps(theta)]
  {
    var c := CreateQaoaCirc(n, theta);
    var p := Reps(theta);
    var beta := ReadBeta(c, n, p);
    forall k | 0 <= k < p
      ensures beta[k] == theta[k]
    {
      CircuitLayout(n, theta, k, 1);
    }
  }

  lemma ReadGammaRecovers(n: nat, theta: seq<real>)
    ensures |CreateQaoaCirc(n, theta)| > n + Reps(theta) * (n + 1)
    ensures ReadGamma(CreateQaoaCirc(n, theta), n, Reps(theta)) == theta[Reps(theta)..2 * Reps(theta)]
  {
    var c := CreateQaoaCirc(n, theta);
    var p := Reps(theta);
    var gamma := ReadGamma(c, n, p);
    forall k | 0 <= k < p
      ensures gamma[k] == theta[p + k]
    {
      CircuitLayout(n, theta, k, 0);
    }
  }

  /** The circuit keeps every parameter it is given, except a trailing odd
      one: on at least one qubit, reading the angles back recovers
      theta[..2p]. With no qubits there are no Rx gates, so beta is lost. */
  lemma ReadBackRecoversTheta(n: nat, theta: seq<real>)
    requires n >= 1
    ensures |CreateQaoaCirc(n, theta)| > n + Reps(theta) * (n + 1)
    ensures ReadTheta(CreateQaoaCirc(n, theta), n, Reps(theta)) == theta[..2 * Reps(theta)]
  {
    var p := Reps(theta);
    ReadBetaRecovers(n, theta);
    ReadGammaRecovers(n, theta);
    assert theta[..2 * p] == theta[..p] + theta[p..2 * p];
  }
}
