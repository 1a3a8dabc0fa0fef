/**
 * A probed region: a slot list addressed by double hashing, written only by
 * placing an entry in the first empty probe slot or by overwriting a key's
 * value where it lies (the whole of SubArray._table and part B of
 * LastSubArray). Nothing is ever removed, and that is what lets a scan stop at
 * the first empty slot: the `Placed` invariant below.
 */
module Region {
  import opened Wrappers
  import opened Probing

  /**
   * The first attempt in [i, m) whose probe slot is empty: the placement scan
   * of an insert.
   */
  function FirstEmpty<K, V>(t: seq<Slot<K, V>>, h: Hasher<K>, k: K, m: nat, i: nat): (r: Option<nat>)
    requires |t| >= 2
    decreases m - i
    ensures r.Some? ==> i <= r.value < m && t[Probe(h, k, |t|, r.value)].Empty?
    ensures r.Some? ==> forall j | i <= j < r.value :: t[Probe(h, k, |t|, j)].Full?
    ensures r.None? <==> forall j | i <= j < m :: t[Probe(h, k, |t|, j)].Full?
  {
    if i >= m then None
    else if t[Probe(h, k, |t|, i)].Empty? then Some(i)
    else FirstEmpty(t, h, k, m, i + 1)
  }

  /**
   * The existence scan of SubArray.insert over attempts [i, m): stops with no
   * result at the first empty slot, with the attempt at the first slot that
   * holds `k`.
   */
  function UpdateAttempt<K(==), V>(t: seq<Slot<K, V>>, h: Hasher<K>, k: K, m: nat, i: nat): (r: Option<nat>)
    requires |t| >= 2
    decreases m - i
    ensures r.Some? ==> i <= r.value < m && t[Probe(h, k, |t|, r.value)].Full?
                        && t[Probe(h, k, |t|, r.value)].key == k
  {
    if i >= m then None
    else
      var s := t[Probe(h, k, |t|, i)];
      if s.Empty? then None
      else if s.key == k then Some(i)
      else UpdateAttempt(t, h, k, m, i + 1)
  }

  /**
   * The existence scan of LastSubArray.insert over attempts [i, m) of part B:
   * it does not stop at empty slots.
   */
  function ScanKey<K(==), V>(t: seq<Slot<K, V>>, h: Hasher<K>, k: K, m: nat, i: nat): (r: Option<nat>)
    requires |t| >= 2
    decreases m - i
    ensures r.Some? ==> i <= r.value < m && t[Probe(h, k, |t|, r.value)].Full?
                        && t[Probe(h, k, |t|, r.value)].key == k
    ensures r.None? ==> forall j | i <= j < m :: !(t[Probe(h, k, |t|, j)].Full? && t[Probe(h, k, |t|, j)].key == k)
  {
    if i >= m then None
    else if t[Probe(h, k, |t|, i)].Full? && t[Probe(h, k, |t|, i)].key == k then Some(i)
    else ScanKey(t, h, k, m, i + 1)
  }

  /**
   * The lookup over attempts [i, m): absent at the first empty slot, the value
   * at the first slot that holds `k`.
   */
  function Find<K(==), V>(t: seq<Slot<K, V>>, h: Hasher<K>, k: K, m: nat, i: nat): (r: Option<V>)
    requires |t| >= 2
    decreases m - i
    ensures r.Some? ==> Full(k, r.value) in t
  {
    if i >= m then None
    else
      var s := t[Probe(h, k, |t|, i)];
      if s.Empty? then None
      else if s.key == k then Some(s.value)
      else Find(t, h, k, m, i + 1)
  }

  /**
   * The no-reordering invariant of a probed region. `at[k]` is the attempt at
   * which `k` was placed: that slot holds `k` with its current value, every
   * earlier probe slot of `k` holds some other key, and every occupied slot
   * is the placement slot of its own key (so a key occupies at most one slot).
   * `bound` caps the placement attempts.
   */
  ghost predicate Placed<K, V>(t: seq<Slot<K, V>>, h: Hasher<K>, contents: map<K, V>, at: map<K, nat>, bound: nat)
    requires |t| >= 2
  {
    && contents.Keys == at.Keys
    && (forall k | k in at :: at[k] < bound && t[Probe(h, k, |t|, at[k])] == Full(k, contents[k]))
    && (forall k, j | k in at && 0 <= j < at[k] ::
          t[Probe(h, k, |t|, j)].Full? && t[Probe(h, k, |t|, j)].key != k)
    && (forall p | 0 <= p < |t| && t[p].Full? :: t[p].key in at && Probe(h, t[p].key, |t|, at[t[p].key]) == p)
  }

  /** A region that has never been written is consistent with the empty map. */
  lemma PlacedEmpty<K, V>(t: seq<Slot<K, V>>, h: Hasher<K>, bound: nat)
    requires |t| >= 2 && forall p | 0 <= p < |t| :: t[p].Empty?
    ensures Placed(t, h, map[], map[], bound)
  {
  }

  /** A key occupies at most one slot of a consistent region. */
  lemma KeyAtMostOnce<K, V>(t: seq<Slot<K, V>>, h: Hasher<K>, contents: map<K, V>, at: map<K, nat>, bound: nat, p: nat, q: nat)
    requires |t| >= 2 && Placed(t, h, contents, at, bound)
    requires p < |t| && q < |t| && t[p].Full? && t[q].Full? && t[p].key == t[q].key
    ensures p == q
  {
  }

  /**
   * Soundness of stopping at the first empty slot: when every placement
   * attempt is below `m`, the lookup over `m` attempts returns exactly the
   * stored value, and absence for a key that was never placed.
   */
  lemma FindCorrect<K, V>(t: seq<Slot<K, V>>, h: Hasher<K>, contents: map<K, V>, at: map<K, nat>, bound: nat, k: K, m: nat)
    requires |t| >= 2 && Placed(t, h, contents, at, bound) && bound <= m
    ensures Find(t, h, k, m, 0) == if k in contents then Some(contents[k]) else None
  {
    FindFrom(t, h, contents, at, bound, k, m, 0);
  }

  lemma {:induction false} FindFrom<K, V>(t: seq<Slot<K, V>>, h: Hasher<K>, contents: map<K, V>, at: map<K, nat>, bound: nat, k: K, m: nat, i: nat)
    requires |t| >= 2 && Placed(t, h, contents, at, bound) && bound <= m
    requires k in at ==> i <= at[k]
    ensures Find(t, h, k, m, i) == if k in contents then Some(contents[k]) else None
    decreases m - i
  {
    if i < m {
      var s := t[Probe(h, k, |t|, i)];
      if k in at && i == at[k] {
      } else if s.Full? {
        FindFrom(t, h, contents, at, bound, k, m, i + 1);
      }
    }
  }

  /**
   * The existence scan of SubArray.insert finds the key exactly when it was
   * placed within the first `m` attempts.
   */
  lemma UpdateAttemptCorrect<K, V>(t: seq<Slot<K, V>>, h: Hasher<K>, contents: map<K, V>, at: map<K, nat>, bound: nat, k: K, m: nat)
    requires |t| >= 2 && Placed(t, h, contents, at, bound)
    ensures UpdateAttempt(t, h, k, m, 0) == if k in at && at[k] < m then Some(at[k]) else None
  {
    UpdateAttemptFrom(t, h, contents, at, bound, k, m, 0);
  }

  lemma {:induction false} UpdateAttemptFrom<K, V>(t: seq<Slot<K, V>>, h: Hasher<K>, contents: map<K, V>, at: map<K, nat>, bound: nat, k: K, m: nat, i: nat)
    requires |t| >= 2 && Placed(t, h, contents, at, bound)
    requires k in at ==> i <= at[k]
    ensures UpdateAttempt(t, h, k, m, i) == if k in at && at[k] < m then Some(at[k]) else None
    decreases m - i
  {
    if i < m {
      var s := t[Probe(h, k, |t|, i)];
      if k in at && i == at[k] {
      } else if s.Full? {
        UpdateAttemptFrom(t, h, contents, at, bound, k, m, i + 1);
      }
    }
  }

  /**
   * The full existence scan of part B finds the key exactly when it was placed
   * within the first `m` attempts.
   */
  lemma ScanKeyCorrect<K, V>(t: seq<Slot<K, V>>, h: Hasher<K>, contents: map<K, V>, at: map<K, nat>, bound: nat, k: K, m: nat)
    requires |t| >= 2 && Placed(t, h, contents, at, bound)
    ensures ScanKey(t, h, k, m, 0) == if k in at && at[k] < m then Some(at[k]) else None
  {
    ScanKeyFrom(t, h, contents, at, bound, k, m, 0);
  }

  lemma {:induction false} ScanKeyFrom<K, V>(t: seq<Slot<K, V>>, h: Hasher<K>, contents: map<K, V>, at: map<K, nat>, bound: nat, k: K, m: nat, i: nat)
    requires |t| >= 2 && Placed(t, h, contents, at, bound)
    requires k in at ==> i <= at[k]
    ensures ScanKey(t, h, k, m, i) == if k in at && at[k] < m then Some(at[k]) else None
    decreases m - i
  {
    if i < m && !(k in at && i == at[k]) {
      ScanKeyFrom(t, h, contents, at, bound, k, m, i + 1);
    }
  }

  /**
   * A key placed at attempt `m` or later has all of its first `m` probe slots
   * occupied, so no placement within `m` attempts exists.
   */
  lemma FirstEmptyBlocked<K, V>(t: seq<Slot<K, V>>, h: Hasher<K>, contents: map<K, V>, at: map<K, nat>, bound: nat, k: K, m: nat)
    requires |t| >= 2 && Placed(t, h, contents, at, bound)
    requires k in at && m <= at[k]
    ensures FirstEmpty(t, h, k, m, 0).None?
  {
  }

  /**
   * The first empty probe slot is reached within `|t|` attempts: later
   * attempts revisit the same slots.
   */
  lemma FirstEmptyBelowSize<K, V>(t: seq<Slot<K, V>>, h: Hasher<K>, k: K, m: nat)
    requires |t| >= 2 && FirstEmpty(t, h, k, m, 0).Some?
    ensures FirstEmpty(t, h, k, m, 0).value < |t|
  {
    var e := FirstEmpty(t, h, k, m, 0).value;
    if e >= |t| {
      ProbePeriodic(h, k, |t|, e - |t|);
    }
  }

  /**
   * Placing a new key in its first empty probe slot keeps the region
   * consistent, with the key recorded at that attempt.
   */
  lemma PlacedInsertNew<K, V>(t: seq<Slot<K, V>>, h: Hasher<K>, contents: map<K, V>, at: map<K, nat>, bound: nat,
                              k: K, v: V, m: nat)
    requires |t| >= 2 && Placed(t, h, contents, at, bound) && k !in at
    requires FirstEmpty(t, h, k, m, 0).Some? && FirstEmpty(t, h, k, m, 0).value < bound
    ensures var e := FirstEmpty(t, h, k, m, 0).value;
            Placed(t[Probe(h, k, |t|, e) := Full(k, v)], h, contents[k := v], at[k := e], bound)
  {
    var e := FirstEmpty(t, h, k, m, 0).value;
    var q := Probe(h, k, |t|, e);
    var t' := t[q := Full(k, v)];
    var c', a' := contents[k := v], at[k := e];
    forall k', j | k' in a' && 0 <= j < a'[k']
      ensures t'[Probe(h, k', |t|, j)].Full? && t'[Probe(h, k', |t|, j)].key != k'
    {
      if k' == k {
        assert t[Probe(h, k, |t|, j)].Full?;
      } else {
        assert t[Probe(h, k', |t|, j)].Full?;
      }
    }
  }

  /** Overwriting a key's value where it lies keeps the region consistent. */
  lemma PlacedOverwrite<K, V>(t: seq<Slot<K, V>>, h: Hasher<K>, contents: map<K, V>, at: map<K, nat>, bound: nat,
                              k: K, v: V)
    requires |t| >= 2 && Placed(t, h, contents, at, bound) && k in at
    ensures Placed(t[Probe(h, k, |t|, at[k]) := Full(k, v)], h, contents[k := v], at, bound)
  {
  }

}
