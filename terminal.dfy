/**
 * The last tier (src/hash_table.py, class LastSubArray): part B, a slot list
 * probed by bounded double hashing, and part C, equal-size buckets filled by
 * two-choice hashing. Both are written in place.
 */
module Terminal {
  import opened Wrappers
  import opened Probing
  import opened Region
  import opened Buckets
  import opened Layout

  /**
   * The consistency of the two parts of a last tier, on values: part B
   * consistent under probing with every key placed within `m` attempts, part
   * C made of buckets of `w` cells each and consistent under two-choice
   * placement, no key in both parts, and `count`
   * both the number of keys and the number of occupied slots.
   */
  ghost predicate Consistent<K, V>(t: seq<Slot<K, V>>, g: seq<seq<Slot<K, V>>>, h: Hasher<K>, m: nat, w: nat,
                                   cb: map<K, V>, wb: map<K, nat>, cc: map<K, V>, wc: map<K, (nat, nat)>, count: nat)
    requires |t| >= 2 && |g| >= 2
  {
    && (forall r | 0 <= r < |g| :: |g[r]| == w)
    && Placed(t, h, cb, wb, m)
    && Bucketed(g, h, cc, wc)
    && cb.Keys !! cc.Keys
    && count == |cb| + |cc|
    && count == OccupiedCount(t) + GridOccupied(g)
  }

  /** Overwriting a part-B key in its slot keeps the tier consistent. */
  lemma ConsistentUpdateB<K, V>(t: seq<Slot<K, V>>, g: seq<seq<Slot<K, V>>>, h: Hasher<K>, m: nat, w: nat,
                                cb: map<K, V>, wb: map<K, nat>, cc: map<K, V>, wc: map<K, (nat, nat)>, count: nat, k: K, v: V)
    requires |t| >= 2 && |g| >= 2 && Consistent(t, g, h, m, w, cb, wb, cc, wc, count) && k in wb
    ensures Consistent(t[Probe(h, k, |t|, wb[k]) := Full(k, v)], g, h, m, w, cb[k := v], wb, cc, wc, count)
  {
    PlacedOverwrite(t, h, cb, wb, m, k, v);
    OccupiedCountUpdate(t, Probe(h, k, |t|, wb[k]), Full(k, v));
  }

  /** Overwriting a part-C key in its cell keeps the tier consistent. */
  lemma ConsistentUpdateC<K, V>(t: seq<Slot<K, V>>, g: seq<seq<Slot<K, V>>>, h: Hasher<K>, m: nat, w: nat,
                                cb: map<K, V>, wb: map<K, nat>, cc: map<K, V>, wc: map<K, (nat, nat)>, count: nat,
                                k: K, v: V, r: nat, s: nat)
    requires |t| >= 2 && |g| >= 2 && Consistent(t, g, h, m, w, cb, wb, cc, wc, count)
    requires k in wc && wc[k].0 == r && wc[k].1 == s
    ensures r < |g| && s < |g[r]|
    ensures Consistent(t, g[r := g[r][s := Full(k, v)]], h, m, w, cb, wb, cc[k := v], wc, count)
  {
    BucketedCell(g, h, cc, wc, k);
    var row := g[r][s := Full(k, v)];
    BucketedOverwrite(g, h, cc, wc, k, v);
    GridOccupiedUpdate(g, r, row);
    OccupiedCountUpdate(g[r], s, Full(k, v));
  }

  /** Placing a new key in its first empty part-B probe slot keeps the tier consistent. */
  lemma ConsistentPlaceB<K, V>(t: seq<Slot<K, V>>, g: seq<seq<Slot<K, V>>>, h: Hasher<K>, m: nat, w: nat,
                               cb: map<K, V>, wb: map<K, nat>, cc: map<K, V>, wc: map<K, (nat, nat)>, count: nat, k: K, v: V)
    requires |t| >= 2 && |g| >= 2 && Consistent(t, g, h, m, w, cb, wb, cc, wc, count)
    requires k !in cb && k !in cc && FirstEmpty(t, h, k, m, 0).Some?
    ensures var e := FirstEmpty(t, h, k, m, 0).value;
            Consistent(t[Probe(h, k, |t|, e) := Full(k, v)], g, h, m, w, cb[k := v], wb[k := e], cc, wc, count + 1)
  {
    var e := FirstEmpty(t, h, k, m, 0).value;
    PlacedInsertNew(t, h, cb, wb, m, k, v, m);
    OccupiedCountUpdate(t, Probe(h, k, |t|, e), Full(k, v));
  }

  /** Placing a new key in an empty cell of a candidate bucket keeps the tier consistent. */
  lemma ConsistentPlaceC<K, V>(t: seq<Slot<K, V>>, g: seq<seq<Slot<K, V>>>, h: Hasher<K>, m: nat, w: nat,
                               cb: map<K, V>, wb: map<K, nat>, cc: map<K, V>, wc: map<K, (nat, nat)>, count: nat,
                               k: K, v: V, r: nat, s: nat)
    requires |t| >= 2 && |g| >= 2 && Consistent(t, g, h, m, w, cb, wb, cc, wc, count)
    requires k !in cb && k !in cc && r < |g| && IsCandidate(h, k, |g|, r) && s < |g[r]| && g[r][s].Empty?
    ensures Consistent(t, g[r := g[r][s := Full(k, v)]], h, m, w, cb, wb, cc[k := v], wc[k := (r, s)], count + 1)
  {
    BucketedInsert(g, h, cc, wc, k, v, r, s);
    GridOccupiedUpdate(g, r, g[r][s := Full(k, v)]);
    OccupiedCountUpdate(g[r], s, Full(k, v));
  }

  /**
   * The part B and part C that `insert(k, v)` leaves behind, or None when it
   * fails. A stored key is overwritten where it lies: in part B when one of
   * the first `m` probes meets it, else in the candidate bucket holding it. A
   * new key goes to its first empty probe slot of part B within `m` attempts,
   * else to the first empty cell of the candidate bucket with more empty
   * cells (the first candidate on a tie).
   */
  function Inserted<K(==), V>(t: seq<Slot<K, V>>, g: seq<seq<Slot<K, V>>>, h: Hasher<K>, m: nat, k: K, v: V)
    : (r: Option<(seq<Slot<K, V>>, seq<seq<Slot<K, V>>>)>)
    requires |t| >= 2 && |g| >= 2
    ensures r.Some? ==> |r.value.0| == |t| && |r.value.1| == |g|
  {
    match ScanKey(t, h, k, m, 0)
    case Some(i) => Some((t[Probe(h, k, |t|, i) := Full(k, v)], g))
    case None =>
      match LocateKey(g, h, k)
      case Some(cell) => Some((t, g[cell.0 := g[cell.0][cell.1 := Full(k, v)]]))
      case None => InsertedNew(t, g, h, m, k, v)
  }

  /** The placement of a key that is stored in neither part, as in Inserted. */
  function InsertedNew<K, V>(t: seq<Slot<K, V>>, g: seq<seq<Slot<K, V>>>, h: Hasher<K>, m: nat, k: K, v: V)
    : (r: Option<(seq<Slot<K, V>>, seq<seq<Slot<K, V>>>)>)
    requires |t| >= 2 && |g| >= 2
    ensures r.Some? ==> |r.value.0| == |t| && |r.value.1| == |g|
  {
    match FirstEmpty(t, h, k, m, 0)
    case Some(i) => Some((t[Probe(h, k, |t|, i) := Full(k, v)], g))
    case None =>
      var r := ChosenBucket(g, h, k);
      match EmptyCell(g[r], 0)
      case Some(s) => Some((t, g[r := g[r][s := Full(k, v)]]))
      case None => None
  }

  /**
   * On a consistent tier, insertion fails exactly when the key is not stored,
   * all of its `m` probe slots in part B are occupied and both of its
   * candidate buckets are full.
   */
  lemma InsertedFails<K, V>(t: seq<Slot<K, V>>, g: seq<seq<Slot<K, V>>>, h: Hasher<K>, m: nat, w: nat,
                            cb: map<K, V>, wb: map<K, nat>, cc: map<K, V>, wc: map<K, (nat, nat)>, count: nat, k: K, v: V)
    requires |t| >= 2 && |g| >= 2 && Consistent(t, g, h, m, w, cb, wb, cc, wc, count)
    ensures Inserted(t, g, h, m, k, v).None?
        <==> && k !in cb && k !in cc
             && (forall j | 0 <= j < m :: t[Probe(h, k, |t|, j)].Full?)
             && (forall s | 0 <= s < w :: g[BucketPair(h, k, |g|).0][s].Full? && g[BucketPair(h, k, |g|).1][s].Full?)
  {
    ScanKeyCorrect(t, h, cb, wb, m, k, m);
    LocateKeyCorrect(g, h, cc, wc, k);
    var (b1, b2) := BucketPair(h, k, |g|);
    var r := ChosenBucket(g, h, k);
    if EmptyCell(g[r], 0).None? {
      assert EmptyCount(g[r]) == 0;
    }
  }

  /** Insertion into the last tier disturbs no entry of another key, in part B or in part C. */
  lemma InsertedKeepsEntries<K, V>(t: seq<Slot<K, V>>, g: seq<seq<Slot<K, V>>>, h: Hasher<K>, m: nat, k: K, v: V)
    requires |t| >= 2 && |g| >= 2
    ensures var r := Inserted(t, g, h, m, k, v);
            r.Some? ==> KeepsEntries(t, r.value.0, k) && GridKeepsEntries(g, r.value.1, k)
  {
    match ScanKey(t, h, k, m, 0)
    case Some(i) =>
      KeepsEntriesWrite(t, Probe(h, k, |t|, i), k, v);
    case None =>
      match LocateKey(g, h, k)
      case Some(cell) =>
        GridKeepsEntriesWrite(g, cell.0, cell.1, k, v);
      case None =>
        match FirstEmpty(t, h, k, m, 0)
        case Some(i) =>
          KeepsEntriesWrite(t, Probe(h, k, |t|, i), k, v);
        case None =>
          var r := ChosenBucket(g, h, k);
          match EmptyCell(g[r], 0)
          case Some(s) =>
            GridKeepsEntriesWrite(g, r, s, k, v);
          case None =>
  }

  class LastSubArray<K(==), V> {
    /** `_size`: the number of slots the table assigned to this tier. */
    const size: nat
    /** `_b_size`. */
    const bSize: nat
    /** `_c_size`. */
    const cSize: nat
    /** The `max_attempts` that insert and search recompute: the probe budget of part B. */
    const maxAttempts: nat
    /** `_bucket_size`. */
    const bucketSize: nat
    /** The key hashes behind `_hash_b` and `_hash_c`. */
    const hash: Hasher<K>
    /** `_b`: the slots of part B. */
    var b: seq<Slot<K, V>>
    /** `len(_c)`: the number of buckets of part C. */
    const numBuckets: nat
    /** `_c`: the buckets of part C, each a list of `bucketSize` cells. */
    var c: seq<seq<Slot<K, V>>>
    /** `_count`. */
    var count: nat

    /** The key-value mapping held in part B, and the probe attempt of each of its keys. */
    ghost var ContentsB: map<K, V>
    ghost var WhereB: map<K, nat>
    /** The key-value mapping held in part C, and the (bucket, cell) of each of its keys. */
    ghost var ContentsC: map<K, V>
    ghost var WhereC: map<K, (nat, nat)>

    /** Everything the tier holds. */
    ghost function Contents(): map<K, V>
      reads this
    {
      ContentsB + ContentsC
    }

    /** A lookup in the tier is a lookup in part B, else in part C. */
    lemma LookupSplit(k: K)
      requires ContentsB.Keys !! ContentsC.Keys
      ensures (if k in Contents() then Some(Contents()[k]) else None)
           == (if k in ContentsB then Some(ContentsB[k]) else if k in ContentsC then Some(ContentsC[k]) else None)
    {
    }

    /**
     * The tier invariant: part B and every bucket keep the sizes the
     * constructor gave them (at least two slots, at least two buckets); part B
     * consistent under bounded probing with every key within `maxAttempts`
     * attempts; part C consistent under two-choice placement; no key in both
     * parts; `_count` is both the number of keys and the number of occupied
     * slots.
     */
    ghost predicate Valid()
      reads this
    {
      && size >= 4 && |b| == bSize && bSize >= 2
      && |c| == numBuckets && numBuckets >= 2
      && Consistent(b, c, hash, maxAttempts, bucketSize, ContentsB, WhereB, ContentsC, WhereC, count)
    }

    /**
     * `LastSubArray(size)`: part B takes `size // 2` slots, part C the rest,
     * rounded up to whole buckets of `2 * max_attempts` cells.
     */
    constructor (size: nat, hash: Hasher<K>)
      requires LastLayoutOk(size)
      ensures Valid()
      ensures this.size == size && this.hash == hash
      ensures bSize == BSize(size) && cSize == CSize(size) && bSize + cSize == size
      ensures maxAttempts == MaxAttempts(size) && bucketSize == 2 * maxAttempts
      ensures numBuckets == NumBuckets(size)
      ensures Contents() == map[] && count == 0
    {
      this.size := size;
      this.hash := hash;
      bSize := BSize(size);
      cSize := CSize(size);
      maxAttempts := MaxAttempts(size);
      bucketSize := BucketSize(size);
      numBuckets := NumBuckets(size);
      b := seq(BSize(size), _ => Empty);
      c := seq(NumBuckets(size), _ => seq(BucketSize(size), _ => Empty));
      count := 0;
      ContentsB, WhereB := map[], map[];
      ContentsC, WhereC := map[], map[];
      new;
      PlacedEmpty(b, hash, maxAttempts);
      OccupiedCountAllEmpty(b);
      BucketedEmpty(c, hash);
      GridOccupiedAllEmpty(c);
      assert Consistent(b, c, hash, maxAttempts, bucketSize, ContentsB, WhereB, ContentsC, WhereC, count);
    }

    /** `_hash_b(key, attempt)`. */
    function PosB(k: K, i: nat): (p: nat)
      reads this
      requires |b| >= 2
      ensures p < |b|
    {
      Probe(hash, k, |b|, i)
    }

    /** `_hash_c(key)`: the two candidate buckets, always distinct. */
    function HashC(k: K): (r: (nat, nat))
      reads this
      requires |c| >= 2
      ensures r.0 < |c| && r.1 < |c| && r.0 != r.1
    {
      BucketPair(hash, k, |c|)
    }

    /** `sum(1 for x in bucket if x is None)` for bucket `r`. */
    method CountEmpty(r: nat) returns (e: nat)
      requires r < |c|
      ensures e == EmptyCount(c[r])
    {
      e := 0;
      for i := 0 to |c[r]|
        invariant e == EmptyCount(c[r][..i])
      {
        assert c[r][..i + 1][..i] == c[r][..i];
        if c[r][i].Empty? {
          e := e + 1;
        }
      }
      assert c[r][..|c[r]|] == c[r];
    }

    /** The scan of bucket `r`, cell by cell, for a cell holding `k`. */
    method ScanBucket(r: nat, k: K) returns (cell: Option<nat>)
      requires r < |c|
      ensures cell == KeyCell(c[r], k, 0)
    {
      for s := 0 to |c[r]|
        invariant KeyCell(c[r], k, s) == KeyCell(c[r], k, 0)
      {
        if c[r][s].Full? && c[r][s].key == k {
          return Some(s);
        }
      }
      return None;
    }

    /**
     * The scan of the two candidate buckets of `k`, in order, that insert and
     * search share: the (bucket, cell) of the first cell holding `k`.
     */
    method ScanBuckets(k: K) returns (cell: Option<(nat, nat)>)
      requires |c| >= 2
      ensures cell == LocateKey(c, hash, k)
    {
      var (b1, b2) := HashC(k);
      var s1 := ScanBucket(b1, k);
      if s1.Some? {
        return Some((b1, s1.value));
      }
      var s2 := ScanBucket(b2, k);
      if s2.Some? {
        return Some((b2, s2.value));
      }
      return None;
    }

    /** The first empty cell of bucket `r`, where an insert into that bucket writes. */
    method FirstEmptyCell(r: nat) returns (cell: Option<nat>)
      requires r < |c|
      ensures cell == EmptyCell(c[r], 0)
    {
      for s := 0 to |c[r]|
        invariant EmptyCell(c[r], s) == EmptyCell(c[r], 0)
      {
        if c[r][s].Empty? {
          return Some(s);
        }
      }
      return None;
    }

    /**
     * The part-B half of search: up to `maxAttempts` probes, stopping at the
     * first empty slot.
     */
    method FindB(k: K) returns (r: Option<V>)
      requires |b| >= 2
      ensures r == Find(b, hash, k, maxAttempts, 0)
    {
      for i := 0 to maxAttempts
        invariant Find(b, hash, k, maxAttempts, i) == Find(b, hash, k, maxAttempts, 0)
      {
        var pos := PosB(k, i);
        if b[pos].Empty? {
          return None;
        }
        if b[pos].key == k {
          return Some(b[pos].value);
        }
      }
      return None;
    }

    /**
     * The part-B half of insert's existence check: every one of the
     * `maxAttempts` probes, not stopping at empty slots.
     */
    method ScanB(k: K) returns (r: Option<nat>)
      requires |b| >= 2
      ensures r == ScanKey(b, hash, k, maxAttempts, 0)
    {
      for i := 0 to maxAttempts
        invariant ScanKey(b, hash, k, maxAttempts, i) == ScanKey(b, hash, k, maxAttempts, 0)
      {
        var pos := PosB(k, i);
        if b[pos].Full? && b[pos].key == k {
          return Some(i);
        }
      }
      return None;
    }

    /** The placement scan of part B: the first attempt whose probe slot is empty. */
    method FirstEmptyB(k: K) returns (r: Option<nat>)
      requires |b| >= 2
      ensures r == FirstEmpty(b, hash, k, maxAttempts, 0)
    {
      for i := 0 to maxAttempts
        invariant FirstEmpty(b, hash, k, maxAttempts, i) == FirstEmpty(b, hash, k, maxAttempts, 0)
      {
        if b[PosB(k, i)].Empty? {
          return Some(i);
        }
      }
      return None;
    }

    /**
     * `search`: part B up to `maxAttempts` attempts, stopping at an empty slot,
     * then the two candidate buckets in order. By the tier invariant this is
     * exactly a lookup in the stored mapping.
     */
    method Search(k: K) returns (r: Option<V>)
      requires Valid()
      ensures r == if k in Contents() then Some(Contents()[k]) else None
    {
      LookupSplit(k);
      FindCorrect(b, hash, ContentsB, WhereB, maxAttempts, k, maxAttempts);
      r := FindB(k);
      if r.Some? {
        return;
      }
      LocateKeyCorrect(c, hash, ContentsC, WhereC, k);
      var cell := ScanBuckets(k);
      if cell.Some? {
        return Some(c[cell.value.0][cell.value.1].value);
      }
      return None;
    }

    /** Overwrites the value of a key stored in part B, in its slot. */
    method UpdateB(k: K, v: V, i: nat)
      requires Valid() && k in WhereB && WhereB[k] == i
      modifies this
      ensures Valid()
      ensures b == old(b)[PosB(k, i) := Full(k, v)]
      ensures ContentsB == old(ContentsB)[k := v] && WhereB == old(WhereB)
      ensures unchanged(this`ContentsC, this`WhereC, this`count, this`c)
    {
      var pos := PosB(k, i);
      ConsistentUpdateB(b, c, hash, maxAttempts, bucketSize, ContentsB, WhereB, ContentsC, WhereC, count, k, v);
      var t := b[pos := Full(k, v)];
      ghost var cb := ContentsB[k := v];
      b := t;
      ContentsB := cb;
      assert Consistent(b, c, hash, maxAttempts, bucketSize, ContentsB, WhereB, ContentsC, WhereC, count)
          == Consistent(t, c, hash, maxAttempts, bucketSize, cb, WhereB, ContentsC, WhereC, count);
    }

    /** Overwrites the value of a key stored in part C, in its cell. */
    method UpdateC(k: K, v: V, r: nat, s: nat)
      requires Valid() && k in WhereC && WhereC[k].0 == r && WhereC[k].1 == s
      modifies this
      ensures Valid()
      ensures c == old(c)[r := old(c)[r][s := Full(k, v)]]
      ensures ContentsC == old(ContentsC)[k := v]
      ensures unchanged(this`b, this`ContentsB, this`WhereB, this`WhereC, this`count)
    {
      ConsistentUpdateC(b, c, hash, maxAttempts, bucketSize, ContentsB, WhereB, ContentsC, WhereC, count, k, v, r, s);
      var g := c[r := c[r][s := Full(k, v)]];
      ghost var cc := ContentsC[k := v];
      c := g;
      ContentsC := cc;
      assert Consistent(b, c, hash, maxAttempts, bucketSize, ContentsB, WhereB, ContentsC, WhereC, count)
          == Consistent(b, g, hash, maxAttempts, bucketSize, ContentsB, WhereB, cc, WhereC, count);
    }

    /** Stores a new key in the empty part-B slot of probe attempt `i`. */
    method PlaceB(k: K, v: V, i: nat)
      requires Valid() && k !in ContentsB && k !in ContentsC
      requires FirstEmpty(b, hash, k, maxAttempts, 0) == Some(i)
      modifies this
      ensures Valid()
      ensures b == old(b)[PosB(k, i) := Full(k, v)]
      ensures ContentsB == old(ContentsB)[k := v] && WhereB == old(WhereB)[k := i]
      ensures unchanged(this`ContentsC, this`WhereC, this`c) && count == old(count) + 1
    {
      var pos := PosB(k, i);
      ConsistentPlaceB(b, c, hash, maxAttempts, bucketSize, ContentsB, WhereB, ContentsC, WhereC, count, k, v);
      var t := b[pos := Full(k, v)];
      ghost var cb, wb := ContentsB[k := v], WhereB[k := i];
      b, count := t, count + 1;
      ContentsB, WhereB := cb, wb;
      assert Consistent(b, c, hash, maxAttempts, bucketSize, ContentsB, WhereB, ContentsC, WhereC, count)
          == Consistent(t, c, hash, maxAttempts, bucketSize, cb, wb, ContentsC, WhereC, count);
    }

    /** Stores a new key in the empty cell `s` of its candidate bucket `r`. */
    method PlaceC(k: K, v: V, r: nat, s: nat)
      requires Valid() && k !in ContentsB && k !in ContentsC
      requires r < |c| && IsCandidate(hash, k, |c|, r) && s < |c[r]| && c[r][s].Empty?
      modifies this
      ensures Valid()
      ensures c == old(c)[r := old(c)[r][s := Full(k, v)]]
      ensures ContentsC == old(ContentsC)[k := v] && WhereC == old(WhereC)[k := (r, s)]
      ensures unchanged(this`b, this`ContentsB, this`WhereB) && count == old(count) + 1
    {
      ConsistentPlaceC(b, c, hash, maxAttempts, bucketSize, ContentsB, WhereB, ContentsC, WhereC, count, k, v, r, s);
      var g := c[r := c[r][s := Full(k, v)]];
      ghost var cc, wc := ContentsC[k := v], WhereC[k := (r, s)];
      c, count := g, count + 1;
      ContentsC, WhereC := cc, wc;
      assert Consistent(b, c, hash, maxAttempts, bucketSize, ContentsB, WhereB, ContentsC, WhereC, count)
          == Consistent(b, g, hash, maxAttempts, bucketSize, ContentsB, WhereB, cc, wc, count);
    }

    /**
     * `insert`. A stored key is overwritten where it lies (part B first, then
     * its candidate buckets). A new key goes to its first empty probe slot of
     * part B within `maxAttempts` attempts; failing that, to the first empty
     * cell of whichever candidate bucket has more empty cells (the first one
     * on a tie). Insertion fails, changing nothing, only when all of those
     * probe slots and both candidate buckets are full.
     */
    method Insert(k: K, v: V) returns (ok: bool)
      requires Valid()
      modifies this
      ensures Valid()
      ensures var r := Inserted(old(b), old(c), hash, maxAttempts, k, v);
              ok == r.Some? && (ok ==> b == r.value.0 && c == r.value.1)
      ensures ok ==> Contents() == old(Contents())[k := v]
      ensures ok ==> count == old(count) + (if k in old(Contents()) then 0 else 1)
      ensures k in old(Contents()) ==> ok
      ensures !ok ==> unchanged(this)
      ensures KeepsEntries(old(b), b, k) && GridKeepsEntries(old(c), c, k)
    {
      InsertedKeepsEntries(b, c, hash, maxAttempts, k, v);
      ghost var cb, cc := ContentsB, ContentsC;
      if k in Contents() {
        StoredKeyInserts(k, v);
      }
      ScanKeyCorrect(b, hash, ContentsB, WhereB, maxAttempts, k, maxAttempts);
      // Look for the key in part B, over every attempt.
      var found := ScanB(k);
      if found.Some? {
        UpdateB(k, v, found.value);
        MergeUpdateLeft(cb, cc, k, v);
        return true;
      }
      ok := InsertOutsideB(k, v);
    }

    /** Insert for a key that part B does not hold: its buckets, then a new placement. */
    method InsertOutsideB(k: K, v: V) returns (ok: bool)
      requires Valid() && k !in ContentsB && ScanKey(b, hash, k, maxAttempts, 0).None?
      modifies this
      ensures Valid()
      ensures var r := Inserted(old(b), old(c), hash, maxAttempts, k, v);
              ok == r.Some? && (ok ==> b == r.value.0 && c == r.value.1)
      ensures ok ==> Contents() == old(Contents())[k := v]
      ensures ok ==> count == old(count) + (if k in old(Contents()) then 0 else 1)
      ensures !ok ==> unchanged(this)
    {
      ghost var cb, cc := ContentsB, ContentsC;
      LocateKeyCorrect(c, hash, ContentsC, WhereC, k);
      var cell := ScanBuckets(k);
      if cell.Some? {
        UpdateC(k, v, cell.value.0, cell.value.1);
        MergeUpdateRight(cb, cc, k, v);
        return true;
      }
      ok := InsertNew(k, v);
    }

    /** The second half of insert: placing a key stored in neither part. */
    method InsertNew(k: K, v: V) returns (ok: bool)
      requires Valid() && k !in ContentsB && k !in ContentsC
      modifies this
      ensures Valid()
      ensures var r := InsertedNew(old(b), old(c), hash, maxAttempts, k, v);
              ok == r.Some? && (ok ==> b == r.value.0 && c == r.value.1)
      ensures ok ==> Contents() == old(Contents())[k := v] && count == old(count) + 1
      ensures !ok ==> unchanged(this)
    {
      ghost var cb, cc := ContentsB, ContentsC;
      // The first empty probe slot of part B.
      var attempt := FirstEmptyB(k);
      if attempt.Some? {
        PlaceB(k, v, attempt.value);
        MergeUpdateLeft(cb, cc, k, v);
        return true;
      }
      // Failing that, the candidate bucket with more empty cells.
      var (b1, b2) := HashC(k);
      var empty1 := CountEmpty(b1);
      var empty2 := CountEmpty(b2);
      var target := if empty1 >= empty2 then b1 else b2;
      var free := FirstEmptyCell(target);
      if free.Some? {
        PlaceC(k, v, target, free.value);
        MergeUpdateRight(cb, cc, k, v);
        return true;
      }
      return false;
    }

    /** Overwriting a stored key never fails: the key is met where it lies. */
    lemma StoredKeyInserts(k: K, v: V)
      requires Valid() && k in Contents()
      ensures Inserted(b, c, hash, maxAttempts, k, v).Some?
    {
      InsertedFails(b, c, hash, maxAttempts, bucketSize, ContentsB, WhereB, ContentsC, WhereC, count, k, v);
    }

    /** `_count` is the number of stored keys. */
    lemma CountIsSize()
      requires Valid()
      ensures count == |Contents()|
    {
      DisjointUnionSize(ContentsB, ContentsC);
    }

    /** `_count` never exceeds the slots allocated to parts B and C. */
    lemma CountWithinCapacity()
      requires Valid()
      ensures count <= |b| + |c| * bucketSize
    {
      GridOccupiedBound(c, bucketSize);
    }

    /**
     * `load_factor`: `_count / _size`, the stored keys per assigned slot. Part
     * C is rounded up to whole buckets, so this can exceed 1 (see
     * CountWithinCapacity for the bound that does hold).
     */
    function LoadFactor(): (lf: real)
      reads this
      requires Valid()
      ensures lf == |Contents()| as real / size as real
    {
      CountIsSize();
      count as real / size as real
    }
  }

}
