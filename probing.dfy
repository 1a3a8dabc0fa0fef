/**
 * Slots, the two key hashes and the index arithmetic shared by every tier of
 * the table (src/hash_table.py: SubArray._hash, LastSubArray._hash_b and
 * LastSubArray._hash_c), together with slot counting.
 */
module Probing {

  /**
   * The two hash values the source takes of a key: `h1` stands for Python's
   * `hash(key)` and `h2raw` for `hash(str(key))`. Both are arbitrary
   * deterministic functions; they may be negative.
   */
  datatype Hasher<-K> = Hasher(h1: K -> int, h2raw: K -> int)

  /** A table slot: Python's `None`, or the stored tuple `(key, value)`. */
  datatype Slot<K, V> = Empty | Full(key: K, value: V)

  /**
   * The double-hashing probe position of attempt `i` for key `k` in a region of
   * `n` slots: `h1 = hash(key) % n`, `h2 = 1 + hash(str(key)) % (n - 1)`,
   * position `(h1 + i * h2) % n`. Python's `%` with a positive modulus agrees
   * with Dafny's. With `n < 2` the source divides by zero.
   */
  function Probe<K>(h: Hasher<K>, k: K, n: nat, i: nat): (p: nat)
    requires n >= 2
    ensures p < n
  {
    (h.h1(k) % n + i * (1 + h.h2raw(k) % (n - 1))) % n
  }

  /** The step between two consecutive probes of `k`: a value in [1, n-1]. */
  function Step<K>(h: Hasher<K>, k: K, n: nat): (s: nat)
    requires n >= 2
    ensures 1 <= s <= n - 1
  {
    1 + h.h2raw(k) % (n - 1)
  }

  lemma ModUnique(x: int, n: int, q: int, r: int)
    requires n > 0 && 0 <= r < n && x == q * n + r
    ensures x % n == r && x / n == q
  {
    var q', r' := x / n, x % n;
    var d := q - q';
    assert d * n == r' - r by {
      assert q * n - q' * n == d * n;
    }
  }

  lemma ModAddMultiple(x: int, n: int, m: int)
    requires n > 0
    ensures (x + n * m) % n == x % n
  {
    ModUnique(x + n * m, n, x / n + m, x % n);
  }

  /**
   * Probe positions are periodic with period `n`: attempt `i` lands where
   * attempt `i % n` does, so `n` attempts already visit every position the
   * probe sequence will ever visit.
   */
  lemma {:induction false} ProbeModSize<K>(h: Hasher<K>, k: K, n: nat, i: nat)
    requires n >= 2
    ensures Probe(h, k, n, i) == Probe(h, k, n, i % n)
  {
    var a, s := h.h1(k) % n, Step(h, k, n);
    var q, r := i / n, i % n;
    assert i == q * n + r;
    assert a + i * s == (a + r * s) + n * (q * s) by {
      assert i * s == r * s + n * (q * s);
    }
    ModAddMultiple(a + r * s, n, q * s);
  }

  /** The probe sequence repeats after `n` attempts. */
  lemma {:induction false} ProbePeriodic<K>(h: Hasher<K>, k: K, n: nat, i: nat)
    requires n >= 2
    ensures Probe(h, k, n, i + n) == Probe(h, k, n, i)
  {
    ProbeModSize(h, k, n, i + n);
    ProbeModSize(h, k, n, i);
    ModAddMultiple(i, n, 1);
  }

  /**
   * The two candidate buckets of `k` among `n` buckets: `b1 = hash(key) % n`
   * and `b2 = (b1 + 1 + hash(str(key)) % (n - 1)) % n`. They are distinct
   * because the offset lies in [1, n-1]. With `n < 2` the source divides by zero.
   */
  function BucketPair<K>(h: Hasher<K>, k: K, n: nat): (r: (nat, nat))
    requires n >= 2
    ensures r.0 < n && r.1 < n && r.0 != r.1
  {
    var b1 := h.h1(k) % n;
    var off := 1 + h.h2raw(k) % (n - 1);
    var b2 := (b1 + off) % n;
    assert b2 == if b1 + off < n then b1 + off else b1 + off - n by {
      if b1 + off >= n {
        ModUnique(b1 + off, n, 1, b1 + off - n);
      } else {
        ModUnique(b1 + off, n, 0, b1 + off);
      }
    }
    (b1, b2)
  }

  /**
   * What a write of key `k` may do to a slot list: each slot is kept as
   * SlotKept says, so no entry of another key moves, changes or disappears.
   */
  ghost predicate KeepsEntries<K, V>(before: seq<Slot<K, V>>, after: seq<Slot<K, V>>, k: K)
  {
    |after| == |before| && forall p | 0 <= p < |before| :: SlotKept(before[p], after[p], k)
  }

  /** One slot under a write of key `k`: as it was, or now an entry for `k` where it held none or one for `k`. */
  ghost predicate SlotKept<K, V>(before: Slot<K, V>, after: Slot<K, V>, k: K)
  {
    after == before || (after.Full? && after.key == k && (before.Empty? || before.key == k))
  }

  /** KeepsEntries for every bucket of part C. */
  ghost predicate GridKeepsEntries<K, V>(before: seq<seq<Slot<K, V>>>, after: seq<seq<Slot<K, V>>>, k: K)
  {
    |after| == |before| && forall r | 0 <= r < |before| :: KeepsEntries(before[r], after[r], k)
  }

  /** Writing an entry for `k` into an empty slot, or over `k`'s own entry, keeps every other entry. */
  lemma KeepsEntriesWrite<K, V>(t: seq<Slot<K, V>>, p: nat, k: K, v: V)
    requires p < |t| && (t[p].Empty? || t[p].key == k)
    ensures KeepsEntries(t, t[p := Full(k, v)], k)
  {
  }

  /** The same for a cell of one bucket of part C. */
  lemma GridKeepsEntriesWrite<K, V>(g: seq<seq<Slot<K, V>>>, r: nat, p: nat, k: K, v: V)
    requires r < |g| && p < |g[r]| && (g[r][p].Empty? || g[r][p].key == k)
    ensures GridKeepsEntries(g, g[r := g[r][p := Full(k, v)]], k)
  {
    KeepsEntriesWrite(g[r], p, k, v);
  }

  /** The number of occupied slots of `s`. */
  function OccupiedCount<K, V>(s: seq<Slot<K, V>>): (c: nat)
    ensures c <= |s|
  {
    if s == [] then 0
    else OccupiedCount(s[..|s| - 1]) + (if s[|s| - 1].Full? then 1 else 0)
  }

  /** The number of empty slots of `s` (the source's `sum(1 for x in bucket if x is None)`). */
  function EmptyCount<K, V>(s: seq<Slot<K, V>>): (c: nat)
    ensures c <= |s|
    ensures c == 0 <==> forall j | 0 <= j < |s| :: s[j].Full?
  {
    if s == [] then 0
    else
      var c' := EmptyCount(s[..|s| - 1]);
      assert forall j | 0 <= j < |s| - 1 :: s[..|s| - 1][j] == s[j];
      c' + (if s[|s| - 1].Empty? then 1 else 0)
  }

  /** Every slot is either empty or occupied. */
  lemma {:induction false} EmptyPlusOccupied<K, V>(s: seq<Slot<K, V>>)
    ensures EmptyCount(s) + OccupiedCount(s) == |s|
  {
    if s != [] {
      EmptyPlusOccupied(s[..|s| - 1]);
    }
  }

  /** Writing one slot changes the occupied count by the change at that slot. */
  lemma {:induction false} OccupiedCountUpdate<K, V>(s: seq<Slot<K, V>>, i: nat, x: Slot<K, V>)
    requires i < |s|
    ensures OccupiedCount(s[i := x])
         == OccupiedCount(s) - (if s[i].Full? then 1 else 0) + (if x.Full? then 1 else 0)
    decreases |s|
  {
    var s' := s[i := x];
    if i == |s| - 1 {
      assert s'[..|s'| - 1] == s[..|s| - 1];
    } else {
      assert s'[..|s'| - 1] == s[..|s| - 1][i := x];
      OccupiedCountUpdate(s[..|s| - 1], i, x);
    }
  }

  /** A region that has never been written holds nothing. */
  lemma {:induction false} OccupiedCountAllEmpty<K, V>(s: seq<Slot<K, V>>)
    requires forall j | 0 <= j < |s| :: s[j].Empty?
    ensures OccupiedCount(s) == 0
  {
    if s != [] {
      OccupiedCountAllEmpty(s[..|s| - 1]);
    }
  }

  /** The number of occupied slots of a list of buckets. */
  function GridOccupied<K, V>(g: seq<seq<Slot<K, V>>>): (c: nat)
  {
    if g == [] then 0 else GridOccupied(g[..|g| - 1]) + OccupiedCount(g[|g| - 1])
  }

  /** Replacing one bucket changes the total by the change in that bucket. */
  lemma {:induction false} GridOccupiedUpdate<K, V>(g: seq<seq<Slot<K, V>>>, r: nat, row: seq<Slot<K, V>>)
    requires r < |g|
    ensures GridOccupied(g[r := row]) == GridOccupied(g) - OccupiedCount(g[r]) + OccupiedCount(row)
    decreases |g|
  {
    var g' := g[r := row];
    if r == |g| - 1 {
      assert g'[..|g'| - 1] == g[..|g| - 1];
    } else {
      assert g'[..|g'| - 1] == g[..|g| - 1][r := row];
      GridOccupiedUpdate(g[..|g| - 1], r, row);
    }
  }

  /** Buckets that have never been written hold nothing. */
  lemma {:induction false} GridOccupiedAllEmpty<K, V>(g: seq<seq<Slot<K, V>>>)
    requires forall r, j | 0 <= r < |g| && 0 <= j < |g[r]| :: g[r][j].Empty?
    ensures GridOccupied(g) == 0
  {
    if g != [] {
      OccupiedCountAllEmpty(g[|g| - 1]);
      GridOccupiedAllEmpty(g[..|g| - 1]);
    }
  }

  /** A count of at most `n` is a fraction of `n` in [0, 1]. */
  lemma FractionBounds(c: nat, n: nat)
    requires 0 < n && c <= n
    ensures 0.0 <= c as real / n as real <= 1.0
  {
    assert (c as real / n as real) * n as real == c as real;
  }

  /** A count below a positive `n` is a fraction of `n` below 1. */
  lemma FractionBelowOne(c: nat, n: nat)
    requires 0 < n
    ensures c < n ==> c as real / n as real < 1.0
  {
    assert (c as real / n as real) * n as real == c as real;
  }

  /** Buckets of `w` cells each hold at most `w` occupied cells apiece. */
  lemma {:induction false} GridOccupiedBound<K, V>(g: seq<seq<Slot<K, V>>>, w: nat)
    requires forall r | 0 <= r < |g| :: |g[r]| == w
    ensures GridOccupied(g) <= |g| * w
  {
    if g != [] {
      GridOccupiedBound(g[..|g| - 1], w);
    }
  }

  /** Maps with disjoint keys merge without losing entries. */
  lemma DisjointUnionSize<K, V>(a: map<K, V>, b: map<K, V>)
    requires a.Keys !! b.Keys
    ensures |a + b| == |a| + |b|
  {
    assert (a + b).Keys == a.Keys + b.Keys;
  }

  /** Updating a key of the left map of a merge, when the right one lacks it. */
  lemma MergeUpdateLeft<K, V>(a: map<K, V>, b: map<K, V>, k: K, v: V)
    requires k !in b
    ensures a[k := v] + b == (a + b)[k := v]
  {
  }

  /** Updating a key of the right map of a merge. */
  lemma MergeUpdateRight<K, V>(a: map<K, V>, b: map<K, V>, k: K, v: V)
    ensures a + b[k := v] == (a + b)[k := v]
  {
  }

}
