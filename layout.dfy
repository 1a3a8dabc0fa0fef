/**
 * The sizing arithmetic of the table (src/hash_table.py):
 * OpenAddressHashTable.__init__ splits `initial_size` into geometrically
 * halving uniform tiers plus one last tier, and LastSubArray.__init__ splits
 * the last tier into part B and the buckets of part C.
 *
 * The source computes these with floating-point `math.log2` and `int(...)`.
 * For a real x >= 1, int(log2(x)) is the floor of log2(x), and it equals the
 * floor of log2 of the integer floor of x (powers of two are integers), so
 * every such expression is an integer floor-log2 here:
 *   int(log2(1/delta))            == Log2Floor(deltaDen / deltaNum)
 *   int(log2(1/delta) / 3)        == Log2Floor(deltaDen / deltaNum) / 3
 *   int(log2(log2(size + 1) + 1)) == Log2Floor(Log2Floor(size + 1) + 1)
 * where delta == deltaNum / deltaDen.
 */
module Layout {
  import Probing

  function Pow2(i: nat): (p: nat)
    ensures p >= 1
  {
    if i == 0 then 1 else 2 * Pow2(i - 1)
  }

  lemma {:induction false} Pow2Monotone(i: nat, j: nat)
    requires i <= j
    ensures Pow2(i) <= Pow2(j)
    decreases j
  {
    if i < j {
      Pow2Monotone(i, j - 1);
    }
  }

  /** The floor of log2(n). */
  function Log2Floor(n: nat): (r: nat)
    requires n >= 1
    ensures Pow2(r) <= n < Pow2(r + 1)
  {
    if n == 1 then 0 else 1 + Log2Floor(n / 2)
  }

  /** Log2Floor is the only exponent that brackets `n` between two powers of two. */
  lemma Log2FloorUnique(n: nat, e: nat)
    requires n >= 1 && Pow2(e) <= n < Pow2(e + 1)
    ensures Log2Floor(n) == e
  {
    var r := Log2Floor(n);
    if r < e {
      Pow2Monotone(r + 1, e);
    } else if r > e {
      Pow2Monotone(e + 1, r);
    }
  }

  /** `max_attempts` of a last tier of `size` slots: int(log2(log2(size + 1) + 1)). */
  function MaxAttempts(size: nat): (r: nat)
    ensures size >= 1 ==> r >= 1
  {
    Log2Floor(Log2Floor(size + 1) + 1)
  }

  /** `_bucket_size` of a last tier: twice its `max_attempts`, never below 2. */
  function BucketSize(size: nat): (r: nat)
    ensures size >= 1 ==> r >= 2
  {
    2 * MaxAttempts(size)
  }

  /** `_b_size`: part B takes the lower half. */
  function BSize(size: nat): (r: nat)
    ensures 2 * r <= size < 2 * r + 2
  {
    size / 2
  }

  /** `_c_size`: part C takes the rest, the larger half. */
  function CSize(size: nat): (r: nat)
    ensures BSize(size) + r == size && BSize(size) <= r
  {
    size - size / 2
  }

  lemma CeilDiv(cs: nat, bs: nat)
    requires bs >= 1
    ensures ((cs + bs - 1) / bs - 1) * bs < cs <= ((cs + bs - 1) / bs) * bs
  {
    var x := cs + bs - 1;
    var q, rem := x / bs, x % bs;
    assert x == q * bs + rem;
    assert (q - 1) * bs == q * bs - bs;
  }

  /**
   * The number of buckets of part C, `(c_size + bucket_size - 1) // bucket_size`:
   * the fewest buckets that hold `c_size` slots.
   */
  function NumBuckets(size: nat): (r: nat)
    requires size >= 1
    ensures (r - 1) * BucketSize(size) < CSize(size) <= r * BucketSize(size)
  {
    CeilDiv(CSize(size), BucketSize(size));
    (CSize(size) + BucketSize(size) - 1) / BucketSize(size)
  }

  /**
   * A last tier on which every operation is defined: part B has at least two
   * slots and part C at least two buckets (otherwise `_hash_b` or `_hash_c`
   * divides by zero).
   */
  predicate LastLayoutOk(size: nat)
  {
    size >= 4 && NumBuckets(size) >= 2
  }

  /**
   * The sizes the construction loop creates from tier `i` on: tier `i` has
   * `half // 2**i` slots, and creation stops at `alpha` tiers or at the first
   * size below 1.
   */
  function TierSizesFrom(half: nat, alpha: nat, i: nat): (r: seq<nat>)
    decreases alpha - i
    ensures i <= alpha ==> |r| <= alpha - i
  {
    if i >= alpha || half / Pow2(i) < 1 then []
    else [half / Pow2(i)] + TierSizesFrom(half, alpha, i + 1)
  }

  /** The sizes of the uniform tiers of a table of `initialSize` slots: at most `alpha` of them. */
  function TierSizes(initialSize: nat, alpha: nat): (r: seq<nat>)
    ensures |r| <= alpha
  {
    TierSizesFrom(initialSize / 2, alpha, 0)
  }

  function Sum(s: seq<nat>): nat
  {
    if s == [] then 0 else s[0] + Sum(s[1..])
  }

  lemma DivTwice(a: nat, p: nat)
    requires p > 0
    ensures a / (2 * p) == (a / p) / 2
  {
    var q, r := a / p, a % p;
    var q2, r2 := q / 2, q % 2;
    assert a == q2 * (2 * p) + (r2 * p + r) by {
      assert a == q * p + r;
      assert q == 2 * q2 + r2;
      assert q * p == q2 * (2 * p) + r2 * p;
    }
    assert 0 <= r2 * p < 2 * p - r by {
      assert r2 == 0 || r2 == 1;
    }
    Probing.ModUnique(a, 2 * p, q2, r2 * p + r);
  }

  /**
   * Tier `i + j` has `half // 2**(i + j)` slots, at least one, there are at
   * most `alpha - i` tiers, and sizes strictly decrease.
   */
  lemma {:induction false} TierSizesShape(half: nat, alpha: nat, i: nat)
    ensures var s := TierSizesFrom(half, alpha, i);
            && (i <= alpha ==> |s| <= alpha - i)
            && (forall j | 0 <= j < |s| :: s[j] == half / Pow2(i + j) && s[j] >= 1)
            && (forall j | 0 <= j < |s| - 1 :: s[j + 1] < s[j])
    decreases alpha - i
  {
    var s := TierSizesFrom(half, alpha, i);
    if s != [] {
      var rest := TierSizesFrom(half, alpha, i + 1);
      TierSizesShape(half, alpha, i + 1);
      assert s == [half / Pow2(i)] + rest;
      if rest != [] {
        DivTwice(half, Pow2(i));
        assert rest[0] == half / Pow2(i + 1);
      }
      forall j | 0 <= j < |s|
        ensures s[j] == half / Pow2(i + j)
      {
        if j > 0 {
          assert s[j] == rest[j - 1];
          assert i + 1 + (j - 1) == i + j;
        }
      }
    }
  }

  /** No two tiers have the same size: tier sizes strictly decrease. */
  lemma TierSizesDecrease(initialSize: nat, alpha: nat)
    ensures var s := TierSizes(initialSize, alpha);
            forall i, j | 0 <= i < j < |s| :: s[j] < s[i]
  {
    var s := TierSizes(initialSize, alpha);
    TierSizesShape(initialSize / 2, alpha, 0);
    forall i, j | 0 <= i < j < |s|
      ensures s[j] < s[i]
    {
      Descending(s, i, j);
    }
  }

  /** In a sequence whose every element is below its predecessor, later elements are smaller. */
  lemma {:induction false} Descending(s: seq<nat>, i: nat, j: nat)
    requires forall k | 0 <= k < |s| - 1 :: s[k + 1] < s[k]
    requires i < j < |s|
    ensures s[j] < s[i]
    decreases j - i
  {
    if j > i + 1 {
      Descending(s, i, j - 1);
    }
  }

  /** The tiers from `i` on hold at most twice the size of tier `i`. */
  lemma {:induction false} TierSizesSum(half: nat, alpha: nat, i: nat)
    ensures Sum(TierSizesFrom(half, alpha, i)) <= 2 * (half / Pow2(i))
    decreases alpha - i
  {
    var s := TierSizesFrom(half, alpha, i);
    if s != [] {
      TierSizesSum(half, alpha, i + 1);
      DivTwice(half, Pow2(i));
      assert s[1..] == TierSizesFrom(half, alpha, i + 1);
    }
  }

  /**
   * `last_size`: what the uniform tiers leave of `initialSize`. It is never
   * negative, so the tier sizes and the last size add up to `initialSize`.
   */
  function LastSize(initialSize: nat, alpha: nat): (r: nat)
    ensures Sum(TierSizes(initialSize, alpha)) + r == initialSize
  {
    TierSizesSum(initialSize / 2, alpha, 0);
    initialSize - Sum(TierSizes(initialSize, alpha))
  }

  /**
   * `int(log2(1/delta))` for delta == deltaNum / deltaDen: the `r` with
   * 2^r <= 1/delta < 2^(r+1).
   */
  function LogInvDelta(deltaNum: nat, deltaDen: nat): (r: nat)
    requires 0 < deltaNum < deltaDen
    ensures Pow2(r) * deltaNum <= deltaDen < Pow2(r + 1) * deltaNum
  {
    var q := deltaDen / deltaNum;
    var e := Log2Floor(q);
    QuotientBracket(deltaDen, deltaNum);
    MulMonotone(Pow2(e), q, deltaNum);
    MulMonotone(q + 1, Pow2(e + 1), deltaNum);
    e
  }

  lemma QuotientBracket(a: nat, n: nat)
    requires n > 0
    ensures (a / n) * n <= a < (a / n + 1) * n
  {
    var q, r := a / n, a % n;
    assert a == q * n + r;
    assert (q + 1) * n == q * n + n;
  }

  lemma MulMonotone(a: nat, b: nat, c: nat)
    requires a <= b
    ensures a * c <= b * c
  {
    assert b * c == a * c + (b - a) * c;
  }

  /**
   * The configurations on which every table operation is defined: delta in
   * (0, 1), a positive size (load_factor divides by it), every uniform tier at
   * least two slots and a last tier, if any, with a well-formed layout.
   */
  predicate Configurable(initialSize: nat, deltaNum: nat, deltaDen: nat)
  {
    && initialSize >= 1 && 0 < deltaNum < deltaDen
    && var alpha := LogInvDelta(deltaNum, deltaDen) / 3;
       && (forall j | 0 <= j < |TierSizes(initialSize, alpha)| :: TierSizes(initialSize, alpha)[j] >= 2)
       && (LastSize(initialSize, alpha) > 0 ==> LastLayoutOk(LastSize(initialSize, alpha)))
  }

}
