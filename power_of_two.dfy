/**
  Powers of two and the block arithmetic of the radix-2 transform: the
  transform size is 2^lgN, stage s works on blocks of 2^(s+1) elements, and
  every index splits into a block start and an offset inside the block.
 */
module PowerOfTwo {

  /** 2^k. */
  function Pow2(k: nat): (p: nat)
    ensures p >= 1
  {
    if k == 0 then 1 else 2 * Pow2(k - 1)
  }

  /** n is a power of two: n == 2^k for some k. */
  ghost predicate IsPow2(n: int)
  {
    exists k: nat :: Pow2(k) == n
  }

  /** A size the engine accepts together with its stage count: either a power
      of two 2^lgN, or the degenerate sizes 0 and 1, for which the halving loop
      of the constructor never runs and lgN stays 0. */
  predicate Sized(n: nat, lgN: nat)
  {
    n == Pow2(lgN) || (n == 0 && lgN == 0)
  }

  /** The number of halvings that bring n down to 1 (0 for n <= 1). */
  function Log2(n: nat): nat
  {
    if n <= 1 then 0 else 1 + Log2(n / 2)
  }

  /** For the sizes the engine accepts, Log2 is the stage count. */
  lemma Log2Sized(n: nat)
    requires n <= 1 || IsPow2(n)
    ensures Sized(n, Log2(n))
  {
    if n > 1 {
      var k: nat :| Pow2(k) == n;
      Log2OfPow2(k);
    }
  }

  /** A size determines its stage count. */
  lemma SizedUnique(n: nat, a: nat, b: nat)
    requires Sized(n, a) && Sized(n, b)
    ensures a == b
  {
    if n > 0 {
      Pow2Injective(a, b);
    }
  }

  lemma {:induction false} Log2OfPow2(k: nat)
    ensures Log2(Pow2(k)) == k
  {
    if k > 0 {
      Log2OfPow2(k - 1);
      assert Pow2(k) / 2 == Pow2(k - 1);
    }
  }

  lemma Pow2Add(a: nat, b: nat)
    ensures Pow2(a + b) == Pow2(a) * Pow2(b)
  {
    if a > 0 {
      Pow2Add(a - 1, b);
    }
  }

  lemma Pow2Monotone(a: nat, b: nat)
    requires a <= b
    ensures Pow2(a) <= Pow2(b)
  {
    if a < b {
      Pow2Monotone(a, b - 1);
    }
  }

  lemma {:induction false} Pow2Injective(a: nat, b: nat)
    requires Pow2(a) == Pow2(b)
    ensures a == b
  {
    if a > 0 && b > 0 {
      Pow2Injective(a - 1, b - 1);
    }
  }

  /** An odd factor greater than one never divides a power of two: this is what
      makes the evenness assertion of the halving loop fail for sizes such as 6. */
  lemma {:induction false} OddFactorNotPow2(odd: int, c: nat, k: nat)
    requires odd > 1 && odd % 2 == 1
    ensures Pow2(k) != odd * Pow2(c)
  {
    if c == 0 {
      if k > 0 {
        assert Pow2(k) == 2 * Pow2(k - 1);
      }
    } else if k == 0 {
      assert odd * Pow2(c) == odd * (2 * Pow2(c - 1));
      assert odd * Pow2(c) >= 2;
    } else {
      assert odd * Pow2(c) == 2 * (odd * Pow2(c - 1));
      OddFactorNotPow2(odd, c - 1, k - 1);
    }
  }

  /** Euclidean division is determined by any decomposition x == q*m + r with
      0 <= r < m. */
  lemma DivModUnique(x: int, m: int, q: int, r: int)
    requires m > 0 && 0 <= r < m && x == q * m + r
    ensures x / m == q && x % m == r
  {
    var q', r' := x / m, x % m;
    assert x == q' * m + r';
    if q' > q {
      assert q' * m >= (q + 1) * m by { MulMonotone(q + 1, q', m); }
    } else if q' < q {
      assert q * m >= (q' + 1) * m by { MulMonotone(q' + 1, q, m); }
    }
  }

  lemma MulMonotone(a: int, b: int, m: int)
    requires a <= b && m >= 0
    ensures a * m <= b * m
  {
    assert b * m - a * m == (b - a) * m;
  }

  /** A block of m elements starting at a multiple of m: every offset inside it
      is the index modulo m. */
  lemma OffsetInBlock(q: int, m: int, r: int)
    requires m > 0 && 0 <= r < m
    ensures (q * m + r) % m == r && (q * m + r) / m == q
  {
    DivModUnique(q * m + r, m, q, r);
  }

  /** In a sequence whose length is a multiple of m, the block that holds index
      p lies entirely inside the sequence. */
  lemma BlockBounds(n: int, m: int, p: int)
    requires m > 0 && n % m == 0 && 0 <= p < n
    ensures 0 <= p % m <= p && p - p % m + m <= n
  {
    var q, r := p / m, p % m;
    var blocks := n / m;
    assert p == q * m + r;
    assert n == blocks * m;
    if q < 0 {
      MulMonotone(q, -1, m);
    }
    if q >= blocks {
      MulMonotone(blocks, q, m);
    }
    assert q + 1 <= blocks;
    MulMonotone(q + 1, blocks, m);
  }

  /** 2^t divides 2^L for t <= L. */
  lemma Pow2Divides(t: nat, L: nat)
    requires t <= L
    ensures Pow2(L) % Pow2(t) == 0
  {
    Pow2Add(L - t, t);
    OffsetInBlock(Pow2(L - t), Pow2(t), 0);
  }

  /** A size the engine accepts is a multiple of 2^lgN. */
  lemma SizedDivides(n: nat, lgN: nat)
    requires Sized(n, lgN)
    ensures n % Pow2(lgN) == 0
  {
    if n == 0 {
      OffsetInBlock(0, Pow2(lgN), 0);
    } else {
      OffsetInBlock(1, Pow2(lgN), 0);
    }
  }

  /** A size the engine accepts is a multiple of every block size 2^s, s <= lgN. */
  lemma SizedDividesStage(n: nat, lgN: nat, s: nat)
    requires Sized(n, lgN) && s <= lgN
    ensures n % Pow2(s) == 0
  {
    if n == 0 {
      OffsetInBlock(0, Pow2(s), 0);
    } else {
      Pow2Divides(s, lgN);
    }
  }

  /** A multiple of 2p is a multiple of p. */
  lemma MultipleOfDouble(n: int, p: int)
    requires p > 0 && n % (2 * p) == 0
    ensures n % p == 0
  {
    var q := n / (2 * p);
    assert n == q * (2 * p);
    assert n == (2 * q) * p;
    OffsetInBlock(2 * q, p, 0);
  }
}
