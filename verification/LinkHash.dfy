/** The hash arithmetic of the link cache: why masking with a power of two less
    one picks a bucket. */
module LinkHash {
  import opened Bits

  ghost predicate PowerOfTwo(n: nat) {
    n == 1 || (n > 1 && n % 2 == 0 && PowerOfTwo(n / 2))
  }

  /** The source's `hash & (number_buckets - 1)`. */
  function BucketOf(hash: nat, n: nat): nat
    requires n > 0
  {
    And(hash, n - 1)
  }

  lemma AndOfHalves(a: nat, b: nat)
    ensures And(2 * a, 2 * b + 1) == 2 * And(a, b)
    ensures And(2 * a + 1, 2 * b + 1) == 2 * And(a, b) + 1
  {
    assert (2 * b + 1) / 2 == b && (2 * a + 1) / 2 == a && (2 * a) / 2 == a;
  }

  /** Masking with a power of two less one is the remainder, hence a bucket number. */
  lemma {:induction false} MaskIsRemainder(hash: nat, n: nat)
    requires PowerOfTwo(n)
    ensures And(hash, n - 1) == hash % n
  {
    if n > 1 {
      MaskIsRemainder(hash / 2, n / 2);
      HalfRemainder(hash, n / 2);
      AndOfHalves(hash / 2, n / 2 - 1);
      assert n - 1 == 2 * (n / 2 - 1) + 1;
      assert n == 2 * (n / 2);
      assert hash == 2 * (hash / 2) || hash == 2 * (hash / 2) + 1;
    }
  }
}
