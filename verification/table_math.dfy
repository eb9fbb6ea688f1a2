/** Index computation, growth policy and load-factor test shared by both maps. */
module TableMath {

  function Abs(x: int): (r: nat)
    ensures r == x || r == -x
  {
    if x < 0 then -x else x
  }

  /** Java's `%` on int: the remainder truncates toward zero, so it takes the sign of the dividend. */
  function JavaRem(a: int, b: int): (r: int)
    requires b > 0
    ensures -b < r < b
    ensures a >= 0 ==> 0 <= r
    ensures a <= 0 ==> r <= 0
  {
    if a >= 0 then a % b else -((-a) % b)
  }

  /** `Math.abs(hash % capacity)`: the slot or bucket a hash code selects. */
  function GetIndex(h: int, cap: nat): (r: nat)
    requires cap > 0
    ensures r < cap
  {
    Abs(JavaRem(h, cap))
  }

  /** The index is the magnitude of the hash reduced modulo the capacity, for negative hashes too. */
  lemma GetIndexIsAbsMod(h: int, cap: nat)
    requires cap > 0
    ensures GetIndex(h, cap) == Abs(h) % cap
  {
    if h < 0 {
      assert GetIndex(h, cap) == (-h) % cap;
    }
  }

  /** The capacities the maps grow through; past the last one the capacity doubles. */
  const Primes: seq<nat> := [5, 11, 23, 47, 97, 197, 397, 797, 1597, 3203, 6421, 12853, 25717, 51437, 102877, 205759]

  const InitialCapacity: nat := 5

  /** The relation between the prime counter and the capacity that every map keeps. */
  predicate CapacityOk(primeCounter: nat, cap: nat) {
    if primeCounter < |Primes| then cap == Primes[primeCounter] else cap >= 2 * Primes[|Primes| - 1]
  }

  /** `growCapacity`: the next prime of the table, or twice the capacity once the table is used up. */
  function Grow(primeCounter: nat, cap: nat): (r: (nat, nat))
    requires CapacityOk(primeCounter, cap)
    ensures r.0 == primeCounter + 1
    ensures CapacityOk(r.0, r.1)
    ensures r.1 > cap
    ensures primeCounter + 1 >= |Primes| ==> r.1 == 2 * cap
  {
    var pc := primeCounter + 1;
    if pc < |Primes| then (pc, Primes[pc]) else (pc, 2 * cap)
  }

  lemma InitialCapacityOk()
    ensures CapacityOk(0, InitialCapacity)
    ensures Grow(0, InitialCapacity) == (1, 11)
  {
  }

  /** `calculateLoadFactor() >= 0.75` in integer form. */
  predicate LoadReached(count: int, cap: nat) {
    4 * count >= 3 * cap
  }

  /** The integer test agrees with the quotient compared against 0.75 over the reals. */
  lemma LoadReachedIsRatio(count: int, cap: nat)
    requires cap > 0
    ensures LoadReached(count, cap) <==> (count as real) / (cap as real) >= 0.75
  {
    var c := cap as real;
    var q := (count as real) / c;
    assert q * c == count as real;
    assert (q - 0.75) * c == (count as real) - 0.75 * c;
    assert LoadReached(count, cap) <==> (count as real) - 0.75 * c >= 0.0;
    SignOfProduct(q - 0.75, c);
  }

  lemma SignOfProduct(x: real, c: real)
    requires c > 0.0
    ensures x * c >= 0.0 <==> x >= 0.0
  {
  }
}
