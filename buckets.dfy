/**
 * Part C of the last tier (src/hash_table.py, LastSubArray._c): a list of
 * equal-size buckets in which each key lives in one of its two candidate
 * buckets (two-choice hashing). Entries are only ever written into an empty
 * cell or overwritten in place, never moved or removed.
 */
module Buckets {
  import opened Wrappers
  import opened Probing

  /** Whether `r` is one of the two candidate buckets of `k` among `|g|` buckets. */
  predicate IsCandidate<K>(h: Hasher<K>, k: K, n: nat, r: nat)
    requires n >= 2
  {
    r == BucketPair(h, k, n).0 || r == BucketPair(h, k, n).1
  }

  /**
   * The two-choice invariant of part C. `at[k]` is the (bucket, cell) of `k`:
   * the bucket is one of the two candidates of `k`, the cell holds `k` with its
   * current value, and every occupied cell is the recorded cell of its own key
   * (so a key occupies at most one cell).
   */
  ghost predicate Bucketed<K, V>(g: seq<seq<Slot<K, V>>>, h: Hasher<K>, contents: map<K, V>, at: map<K, (nat, nat)>)
    requires |g| >= 2
  {
    && contents.Keys == at.Keys
    && (forall k | k in at ::
          IsCandidate(h, k, |g|, at[k].0) && at[k].1 < |g[at[k].0]| && g[at[k].0][at[k].1] == Full(k, contents[k]))
    && (forall r, s | 0 <= r < |g| && 0 <= s < |g[r]| && g[r][s].Full? ::
          g[r][s].key in at && at[g[r][s].key] == (r, s))
  }

  /** The recorded cell of a stored key lies in the grid and holds the key with its value. */
  lemma BucketedCell<K, V>(g: seq<seq<Slot<K, V>>>, h: Hasher<K>, contents: map<K, V>, at: map<K, (nat, nat)>, k: K)
    requires |g| >= 2 && Bucketed(g, h, contents, at) && k in at
    ensures at[k].0 < |g| && at[k].1 < |g[at[k].0]| && g[at[k].0][at[k].1] == Full(k, contents[k])
  {
  }

  /** The first cell of `row` in [i, |row|) that holds `k`, if any. */
  function KeyCell<K(==), V>(row: seq<Slot<K, V>>, k: K, i: nat): (r: Option<nat>)
    decreases |row| - i
    ensures r.Some? ==> i <= r.value < |row| && row[r.value].Full? && row[r.value].key == k
    ensures r.None? <==> forall s | i <= s < |row| :: !(row[s].Full? && row[s].key == k)
  {
    if i >= |row| then None
    else if row[i].Full? && row[i].key == k then Some(i)
    else KeyCell(row, k, i + 1)
  }

  /**
   * The first empty cell of `row` in [i, |row|), if any: where an insert into
   * the chosen bucket writes.
   */
  function EmptyCell<K, V>(row: seq<Slot<K, V>>, i: nat): (r: Option<nat>)
    decreases |row| - i
    ensures r.Some? ==> i <= r.value < |row| && row[r.value].Empty?
                        && forall s | i <= s < r.value :: row[s].Full?
    ensures r.None? <==> forall s | i <= s < |row| :: row[s].Full?
  {
    if i >= |row| then None
    else if row[i].Empty? then Some(i)
    else EmptyCell(row, i + 1)
  }

  /**
   * The scan of part C for `k`: the first cell holding `k` in the first
   * candidate bucket, else in the second one, as (bucket, cell).
   */
  function LocateKey<K(==), V>(g: seq<seq<Slot<K, V>>>, h: Hasher<K>, k: K): (r: Option<(nat, nat)>)
    requires |g| >= 2
    ensures r.Some? ==> IsCandidate(h, k, |g|, r.value.0) && r.value.1 < |g[r.value.0]|
                        && g[r.value.0][r.value.1].Full? && g[r.value.0][r.value.1].key == k
    ensures r.None? ==> forall t, s | t in {BucketPair(h, k, |g|).0, BucketPair(h, k, |g|).1} && 0 <= s < |g[t]| ::
                          !(g[t][s].Full? && g[t][s].key == k)
  {
    var (b1, b2) := BucketPair(h, k, |g|);
    match KeyCell(g[b1], k, 0)
    case Some(s) => Some((b1, s))
    case None =>
      match KeyCell(g[b2], k, 0)
      case Some(s) => Some((b2, s))
      case None => None
  }

  /** Buckets that have never been written are consistent with the empty map. */
  lemma BucketedEmpty<K, V>(g: seq<seq<Slot<K, V>>>, h: Hasher<K>)
    requires |g| >= 2 && forall r, s | 0 <= r < |g| && 0 <= s < |g[r]| :: g[r][s].Empty?
    ensures Bucketed(g, h, map[], map[])
  {
  }

  /**
   * In consistent buckets, the scan of the two candidate buckets meets `k`
   * exactly at its recorded cell, and nowhere when `k` is not stored.
   */
  lemma KeyCellCorrect<K, V>(g: seq<seq<Slot<K, V>>>, h: Hasher<K>, contents: map<K, V>, at: map<K, (nat, nat)>, k: K, r: nat)
    requires |g| >= 2 && Bucketed(g, h, contents, at) && r < |g|
    ensures KeyCell(g[r], k, 0) == if k in at && at[k].0 == r then Some(at[k].1) else None
  {
    var c := KeyCell(g[r], k, 0);
    if c.Some? {
      assert g[r][c.value].key == k;
    }
  }

  /** The scan of part C finds exactly the recorded cell of a stored key. */
  lemma LocateKeyCorrect<K, V>(g: seq<seq<Slot<K, V>>>, h: Hasher<K>, contents: map<K, V>, at: map<K, (nat, nat)>, k: K)
    requires |g| >= 2 && Bucketed(g, h, contents, at)
    ensures LocateKey(g, h, k) == if k in at then Some(at[k]) else None
  {
    var (b1, b2) := BucketPair(h, k, |g|);
    KeyCellCorrect(g, h, contents, at, k, b1);
    KeyCellCorrect(g, h, contents, at, k, b2);
  }

  /** Overwriting a stored key's value in its own cell keeps the buckets consistent. */
  lemma BucketedOverwrite<K, V>(g: seq<seq<Slot<K, V>>>, h: Hasher<K>, contents: map<K, V>, at: map<K, (nat, nat)>, k: K, v: V)
    requires |g| >= 2 && Bucketed(g, h, contents, at) && k in at
    ensures var r, s := at[k].0, at[k].1;
            Bucketed(g[r := g[r][s := Full(k, v)]], h, contents[k := v], at)
  {
    var r, s := at[k].0, at[k].1;
    var g': seq<seq<Slot<K, V>>> := g[r := g[r][s := Full(k, v)]];
    var c' := contents[k := v];
    forall k' | k' in at
      ensures at[k'].1 < |g'[at[k'].0]| && g'[at[k'].0][at[k'].1] == Full(k', c'[k'])
    {
      if k' != k {
        assert at[k'] != (r, s);
      }
    }
    forall r': nat, s': nat | 0 <= r' < |g'| && 0 <= s' < |g'[r']| && g'[r'][s'].Full?
      ensures g'[r'][s'].key in at && at[g'[r'][s'].key] == (r', s')
    {
      if r' != r || s' != s {
        assert g'[r'][s'] == g[r'][s'];
      }
    }
  }

  /**
   * Writing a new key into an empty cell of one of its candidate buckets keeps
   * the buckets consistent, with the key recorded at that cell.
   */
  lemma BucketedInsert<K, V>(g: seq<seq<Slot<K, V>>>, h: Hasher<K>, contents: map<K, V>, at: map<K, (nat, nat)>,
                             k: K, v: V, r: nat, s: nat)
    requires |g| >= 2 && Bucketed(g, h, contents, at) && k !in at
    requires r < |g| && IsCandidate(h, k, |g|, r) && s < |g[r]| && g[r][s].Empty?
    ensures Bucketed(g[r := g[r][s := Full(k, v)]], h, contents[k := v], at[k := (r, s)])
  {
    InsertKeepsRecorded(g, h, contents, at, k, v, r, s);
    InsertKeepsCells(g, h, contents, at, k, v, r, s);
  }

  /** After the write, every recorded key, old or new, is still in its recorded cell. */
  lemma InsertKeepsRecorded<K, V>(g: seq<seq<Slot<K, V>>>, h: Hasher<K>, contents: map<K, V>, at: map<K, (nat, nat)>,
                                  k: K, v: V, r: nat, s: nat)
    requires |g| >= 2 && Bucketed(g, h, contents, at) && k !in at
    requires r < |g| && s < |g[r]| && g[r][s].Empty?
    ensures var g', at' := g[r := g[r][s := Full(k, v)]], at[k := (r, s)];
            forall k' | k' in at' :: at'[k'].1 < |g'[at'[k'].0]| && g'[at'[k'].0][at'[k'].1] == Full(k', contents[k := v][k'])
  {
    var g': seq<seq<Slot<K, V>>> := g[r := g[r][s := Full(k, v)]];
    var at' := at[k := (r, s)];
    forall k' | k' in at'
      ensures at'[k'].1 < |g'[at'[k'].0]| && g'[at'[k'].0][at'[k'].1] == Full(k', contents[k := v][k'])
    {
      if k' != k {
        assert at[k'] != (r, s);
      }
    }
  }

  /** After the write, every occupied cell is the recorded cell of its key. */
  lemma InsertKeepsCells<K, V>(g: seq<seq<Slot<K, V>>>, h: Hasher<K>, contents: map<K, V>, at: map<K, (nat, nat)>,
                               k: K, v: V, r: nat, s: nat)
    requires |g| >= 2 && Bucketed(g, h, contents, at) && k !in at
    requires r < |g| && s < |g[r]|
    ensures var g', at' := g[r := g[r][s := Full(k, v)]], at[k := (r, s)];
            forall r', s' | 0 <= r' < |g'| && 0 <= s' < |g'[r']| && g'[r'][s'].Full? ::
              g'[r'][s'].key in at' && at'[g'[r'][s'].key] == (r', s')
  {
    var g': seq<seq<Slot<K, V>>> := g[r := g[r][s := Full(k, v)]];
    var at' := at[k := (r, s)];
    forall r': nat, s': nat | 0 <= r' < |g'| && 0 <= s' < |g'[r']| && g'[r'][s'].Full?
      ensures g'[r'][s'].key in at' && at'[g'[r'][s'].key] == (r', s')
    {
      if r' != r || s' != s {
        assert g'[r'][s'] == g[r'][s'];
      }
    }
  }

  /**
   * The bucket a new key goes to: the candidate with more empty cells, the
   * first candidate on a tie.
   */
  function ChosenBucket<K, V>(g: seq<seq<Slot<K, V>>>, h: Hasher<K>, k: K): (r: nat)
    requires |g| >= 2
    ensures r < |g| && IsCandidate(h, k, |g|, r)
    ensures EmptyCount(g[r]) >= EmptyCount(g[BucketPair(h, k, |g|).0])
    ensures EmptyCount(g[r]) >= EmptyCount(g[BucketPair(h, k, |g|).1])
    ensures EmptyCount(g[BucketPair(h, k, |g|).0]) == EmptyCount(g[BucketPair(h, k, |g|).1]) ==> r == BucketPair(h, k, |g|).0
  {
    var (b1, b2) := BucketPair(h, k, |g|);
    if EmptyCount(g[b1]) >= EmptyCount(g[b2]) then b1 else b2
  }

}
