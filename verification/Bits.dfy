// The bit arithmetic that hash tables rely on: sizes are powers of two, and a home
// slot is a hash masked by the size less one.

module Bits {

  predicate IsPowerOfTwo(n: nat)
  {
    n == 1 || (n > 1 && n % 2 == 0 && IsPowerOfTwo(n / 2))
  }

  lemma PowersOfTwo(n: nat)
    ensures IsPowerOfTwo(1) && (n > 0 ==> (IsPowerOfTwo(2 * n) <==> IsPowerOfTwo(n))) && !IsPowerOfTwo(2 * n + 3)
  {
    assert (2 * n) / 2 == n;
    assert (2 * n + 3) % 2 == 1;
  }

  // x & mask for a two's complement x of any width: Dafny's Euclidean x / 2 is
  // the arithmetic shift, and x % 2 the lowest bit, for negative x as well.
  function And(x: int, mask: nat): (r: nat)
    ensures r <= mask
    decreases mask
  {
    if mask == 0 then 0
    else (if x % 2 == 1 && mask % 2 == 1 then 1 else 0) + 2 * And(x / 2, mask / 2)
  }

  // The slot of a hash in a table of the given size: hash & (size - 1) for a
  // pht_hashtable_t, and h | nTableMask, counted from the far end, for a Zend array.
  function Home(hash: int, size: nat): (h: nat)
    requires size > 0
    ensures h < size
  {
    And(hash, size - 1)
  }

  lemma MultipleIsFar(n: nat, k: int)
    ensures k >= 1 ==> n * k >= n
    ensures k <= -1 ==> n * k + n <= 0
  {
  }

  lemma RemainderUnique(x: int, n: nat, q: int, r: int)
    requires n > 0 && 0 <= r < n && x == n * q + r
    ensures x % n == r
  {
    assert n * (q - x / n) == x % n - r;
    MultipleIsFar(n, q - x / n);
  }

  // Splitting off the lowest bit: x % (2h) from (x / 2) % h.
  lemma RemainderByBits(x: int, half: nat)
    requires half > 0
    ensures x % (2 * half) == 2 * ((x / 2) % half) + x % 2
  {
    var q, r := (x / 2) / half, (x / 2) % half;
    assert x / 2 == half * q + r;
    assert x == (2 * half) * q + (2 * r + x % 2);
    RemainderUnique(x, 2 * half, q, 2 * r + x % 2);
  }

  // Masking by a power of two less one is the remainder, negative hashes included.
  lemma {:induction false} AndMaskIsRemainder(x: int, size: nat)
    requires IsPowerOfTwo(size)
    ensures And(x, size - 1) == x % size
    decreases size
  {
    if size > 1 {
      var half := size / 2;
      AndMaskIsRemainder(x / 2, half);
      assert (size - 1) / 2 == half - 1;
      RemainderByBits(x, half);
    }
  }

  lemma HomeIsRemainder(hash: int, size: nat)
    requires IsPowerOfTwo(size)
    ensures Home(hash, size) == hash % size
  {
    AndMaskIsRemainder(hash, size);
  }
}
