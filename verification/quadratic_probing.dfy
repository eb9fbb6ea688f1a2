/**
  The quadratic probe sequence of the open-addressing map and the counting
  fact that bounds how often probing can fail.
 */
module QuadraticProbing {

  /** Slot of the i-th probe for a key whose home slot is `base`: `(base + i*i) % cap`. */
  function Probe(base: nat, i: nat, cap: nat): (r: nat)
    requires cap > 0
    ensures r < cap
  {
    (base + i * i) % cap
  }

  /** Probe 0 is the home slot itself. */
  lemma FirstProbeIsHome(base: nat, cap: nat)
    requires base < cap
    ensures Probe(base, 0, cap) == base
  {
    assert base + 0 * 0 == base;
  }

  lemma MulSign(t: int, c: nat)
    ensures t <= 0 ==> t * c <= 0
    ensures t >= 1 ==> t * c >= c
  {
    if t >= 1 {
      assert t * c == c + (t - 1) * c;
    }
  }

  /** Adding a positive amount below the modulus changes the remainder. */
  lemma ShiftChangesRemainder(x: nat, d: nat, c: nat)
    requires 0 < d < c
    ensures (x + d) % c != x % c
  {
    var q1, q2 := x / c, (x + d) / c;
    assert x == q1 * c + x % c;
    assert x + d == q2 * c + (x + d) % c;
    if (x + d) % c == x % c {
      assert d == q2 * c - q1 * c;
      assert d == (q2 - q1) * c;
      MulSign(q2 - q1, c);
      assert false;
    }
  }

  /** Probes i < j with j*j < cap land on different slots. */
  lemma EarlyProbesDistinct(base: nat, i: nat, j: nat, cap: nat)
    requires i < j && j * j < cap
    ensures Probe(base, i, cap) != Probe(base, j, cap)
  {
    assert i * i < j * j by {
      assert j * j - i * i == (j - i) * (j + i);
      MulSign(j - i, j + i);
    }
    ShiftChangesRemainder(base + i * i, j * j - i * i, cap);
    assert base + j * j == (base + i * i) + (j * j - i * i);
  }

  /** The slots visited by probes 0..r. */
  ghost function ProbeSet(base: nat, r: nat, cap: nat): set<nat>
    requires cap > 0
  {
    set i | 0 <= i <= r :: Probe(base, i, cap)
  }

  /** While r*r < cap, probes 0..r visit r+1 different slots. */
  lemma {:induction false} ProbeSetSize(base: nat, r: nat, cap: nat)
    requires r * r < cap
    ensures |ProbeSet(base, r, cap)| == r + 1
  {
    if r == 0 {
      assert ProbeSet(base, 0, cap) == {Probe(base, 0, cap)};
    } else {
      assert (r - 1) * (r - 1) < cap by {
        assert r * r == (r - 1) * (r - 1) + 2 * r - 1;
      }
      ProbeSetSize(base, r - 1, cap);
      assert ProbeSet(base, r, cap) == ProbeSet(base, r - 1, cap) + {Probe(base, r, cap)};
      forall i | 0 <= i <= r - 1 ensures Probe(base, i, cap) != Probe(base, r, cap) {
        EarlyProbesDistinct(base, i, r, cap);
      }
    }
  }

  lemma SubsetSize<T>(a: set<T>, b: set<T>)
    requires a <= b
    ensures |a| <= |b|
  {
    assert b == a + (b - a);
  }

  /** If probes 0..r all land in `s` and r*r < cap, then `s` has more than r elements. */
  lemma ProbesFillSet(base: nat, r: nat, cap: nat, s: set<nat>)
    requires r * r < cap
    requires forall i :: 0 <= i <= r ==> Probe(base, i, cap) in s
    ensures |s| >= r + 1
  {
    ProbeSetSize(base, r, cap);
    SubsetSize(ProbeSet(base, r, cap), s);
  }
}
