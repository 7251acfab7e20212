# QAOA W-state search: scoring and parameter model

A Dafny model of the self-contained logic of the QAOA search for circuit
parameters that prepare an n-qubit W state (`2021AugChallenge.py`):

- `get_H` builds a 2^n x 2^n diagonal integer "Hamiltonian" whose diagonal is
  -1000000 at the indices of one-hot basis states (powers of two) and
  +1000000 everywhere else (module `Hamiltonian`, with the power-of-two and
  bitstring facts in module `Bits`);
- `compute_expectation` scores a measurement-count map by the shots that did
  not land on a one-hot bitstring, in a plain or a smooth form, optionally
  adding a penalty for an uneven spread over the one-hot bitstrings, and
  divides by the shot count (module `Scoring`);
- `get_theta` produces the optimiser's initial parameter vector for the
  "ONES_AND_ZEROS" and "DEC_AND_INC" distributions (module `Parameters`);
- `create_qaoa_circ` splits theta into beta and gamma and lays out Hadamards,
  alternating problem and mixer layers, and a final measurement, here as a
  sequence of opaque gate tokens (module `Circuit`).

Modelling choices:

- The count map is a sequence of `Outcome(bitstring, count)` items in the
  map's iteration order; `Scoring.PenaltyIgnoresOrder` shows the order does
  not matter.
- Floating-point values are Dafny `real`s; `0.1` is the exact tenth.
- A shot count of zero makes the final division raise; the model returns
  `Failure(ZeroDivisionError)`.
- `get_theta` with an unknown distribution name returns nothing (`None`);
  with p <= 0 it returns the empty vector, since both `[1] * p` and
  `range(p)` are empty then.
- The integrality test on `log(i) / log(2)` is modelled by the exact
  predicate `Bits.Log2IsWhole` (i is reached from 1 by doubling), proved
  equal to "i is 2^k for some k".
- The special case for index 0 in `get_H` gives +1000000, which is what the
  power-of-two rule gives anyway: 0 is not a power of two, so the matrix is
  stated without a special case.

## Model

| member | source | states |
|---|---|---|
| `Hamiltonian.GetH` | 2021AugChallenge.py:13-30 | the result is square of side 2^n, zero off the diagonal, and its diagonal is -1000000 exactly at the powers of two and +1000000 elsewhere, entry 0 included |
| `Hamiltonian.NegativeExactlyOnOneHot` | 2021AugChallenge.py:23-29 | for a matrix with GetH's properties, a diagonal entry is negative exactly when the n-bit bitstring of its index has a single '1' (a valid W-state measurement) |
| `Hamiltonian.NegativeDiagonalCount` | 2021AugChallenge.py:18-29 | the negative diagonal entries sit exactly at 2^0 .. 2^(n-1), so there are exactly n of them |
| `Bits.Log2IsWholeIffPowerOfTwo` | 2021AugChallenge.py:25-26 | the integral-logarithm test accepts i exactly when i = 2^k for some k |
| `Bits.OneHotIffPowerOfTwo` | 2021AugChallenge.py:23-27 | for i < 2^n, the n-bit bitstring of i has exactly one '1' iff i is a power of two |
| `Bits.PowersOfTwoBelow` | 2021AugChallenge.py:16-29 | the powers of two below 2^n are exactly 2^k for k < n, n of them |
| `Scoring.ComputeExpectation` | 2021AugChallenge.py:33-46 | fails exactly when shots is 0; otherwise returns the accumulated item penalties over shots; in the plain mode this is the number of shots on non-one-hot bitstrings over shots, which lies in [0, 1] when counts are non-negative and sum to shots; non-negative for non-negative counts and positive shots |
| `Scoring.NonSmoothPenaltyCountsInvalidShots` | 2021AugChallenge.py:35-41 | in the plain mode without the spread term, the error equals the total count of the items whose bitstring is not one-hot |
| `Scoring.InvalidShotsBounded` | 2021AugChallenge.py:35-41 | with non-negative counts, the shots on non-one-hot bitstrings are between 0 and the total shot count |
| `Scoring.PenaltyNonNegative` | 2021AugChallenge.py:33-45 | with non-negative counts the accumulated error is non-negative in every mode |
| `Scoring.PenaltyIgnoresOrder` | 2021AugChallenge.py:35-45 | any rearrangement of the count items gives the same error, so the map's iteration order is irrelevant |
| `Scoring.SmoothPenaltyDominates` | 2021AugChallenge.py:38-41 | with non-negative counts, the smooth penalty count * abs(ones - 1) is never below the plain penalty for the same counts |
| `Scoring.PenaltyZeroIffOnlyOneHot` | 2021AugChallenge.py:37-41 | without the spread term and with non-negative counts, in either form, the error is zero iff every bitstring with a positive count is one-hot |
| `Scoring.ItemSpread` | 2021AugChallenge.py:42-45 | the spread term never lowers an item's penalty and adds nothing iff the item is not one-hot or its count equals shots / len(bitstring) |
| `Scoring.SpreadTermVanishesAtFairShare` | 2021AugChallenge.py:42-45 | the spread term never lowers the error, and leaves it unchanged iff every one-hot item holds exactly shots / len(bitstring) shots |
| `Scoring.PerfectWStateScoresZero` | 2021AugChallenge.py:33-46 | a histogram of only one-hot bitstrings each holding its fair share scores zero in every mode |
| `Parameters.GetTheta` | 2021AugChallenge.py:99-108 | a result exists iff the name is "ONES_AND_ZEROS" or "DEC_AND_INC"; it has length 2p (0 for p <= 0), entries in [0, 1], beta[k] + gamma[k] = 1; ONES_AND_ZEROS is p ones then p zeros; DEC_AND_INC has 1 - i/p at i < p and (i - p)/p at i >= p |
| `Parameters.DecAndIncMonotone` | 2021AugChallenge.py:102-108 | under DEC_AND_INC the beta half strictly decreases and the gamma half strictly increases |
| `Circuit.Repetitions` | 2021AugChallenge.py:62-69 | p repetitions take p * (n + 1) gates |
| `Circuit.CreateQaoaCirc` | 2021AugChallenge.py:51-73 | the circuit has n + p(n + 1) gates before one final measure-all, with p = len(theta) // 2; it opens with a Hadamard on each qubit 0..n-1; nothing before the end measures; every gate names only qubits below n |
| `Circuit.CircuitLayout` | 2021AugChallenge.py:52-69 | repetition k starts at n + k(n + 1) with the problem unitary of angle 2 * gamma[k] = 2 * theta[p + k] on all qubits, followed by Rx(2 * beta[k]) = Rx(2 * theta[k]) on qubits 0..n-1 in order |
| `Circuit.ReadBackRecoversTheta` | 2021AugChallenge.py:52-56 | on at least one qubit, halving the angles read back from the circuit recovers theta[..2p]: the beta/gamma split loses only a trailing odd entry |

## Left out

- `error-correction/shors_code.py`: a top-level script of simulator calls whose syndrome stage is unfinished; it has no function to model.
- `get_expectation` and `execute_circ` (2021AugChallenge.py:77-95): they submit the circuit to an external simulator; the counts they pass on are the input of `Scoring.ComputeExpectation`.
- The benchmarking sweep (2021AugChallenge.py:111-144): loops over an external minimiser, wall-clock time and printing.
- The semantics of the Hadamard, Rx, Hamiltonian and measurement gates: they belong to the quantum library and are opaque tokens carrying their angle and qubits here; the problem unitary token does not carry the matrix, which is the one `Hamiltonian.GetH` builds for the same n.
- Floating-point rounding: divisions are exact `real` divisions, and the logarithm quotient is replaced by an exact power-of-two test. The floating-point quotient is not exact for large exponents (2^29 is one), so the two tests can disagree there; the model claims nothing beyond the register sizes the source uses (3 to 5 qubits).
- `Parameters.GetTheta`: "ONES_AND_ZEROS" yields Python integers 1 and 0 in the source; the model yields the reals 1.0 and 0.0, the values the optimiser receives.
- `Scoring.ComputeExpectation`: the [0, 1] bound needs the counts to sum to shots, which the simulator guarantees; it is a hypothesis of that clause, not derived. No bound is claimed for the smooth form or with the spread term, where the score can exceed 1.
- Distinctness of the count map's keys: no property needs it, so it is not required.
- A negative qubit count in `get_H` (which would make `2**n` fractional) is excluded by the type `nat`.
