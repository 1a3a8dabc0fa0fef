/**
 * The table (src/hash_table.py, class OpenAddressHashTable): a fixed list of
 * uniform tiers of geometrically halving sizes followed by at most one last
 * tier. An entry is placed once and never moved; lookups try the tiers in
 * order.
 */
module Table {
  import opened Wrappers
  import opened Probing
  import opened Region
  import opened Layout
  import opened Tiers
  import opened Uniform
  import opened Terminal
  import opened Stack

  class OpenAddressHashTable<K(==), V> {
    /** `_size`: the `initial_size` the table was built with. */
    const size: nat
    /** `_delta` as the fraction deltaNum / deltaDen. */
    const deltaNum: nat
    const deltaDen: nat
    /** `_alpha`: the most uniform tiers the table creates. */
    const alpha: nat
    /** The `max_probes` that insert recomputes: `int(log2(1/delta))`. */
    const maxProbes: nat
    /** The key hashes every tier uses. */
    const hash: Hasher<K>
    /** `_subarrays`. */
    const tiers: seq<SubArray<K, V>>
    /** `_last_array`, null for Python's `None`. */
    const last: LastSubArray?<K, V>
    /** `_count`: the number of entries stored. */
    var count: nat

    /** The objects the table owns: its tiers and their slot arrays. */
    ghost const Repr: set<object>
    /** The key-value mapping of each tier, in lookup order, the last tier last. */
    ghost var Parts: seq<map<K, V>>

    /** Everything the table holds. */
    ghost function Contents(): map<K, V>
      reads this
    {
      Union(Parts)
    }

    /**
     * Across a write of key `k`, from the state `old` names to the current
     * one: every slot of every tier, uniform or last, is kept as SlotKept
     * says, so no entry of another key moves, changes or disappears.
     */
    twostate predicate KeepsOthers(k: K)
      requires Owned(tiers, last, Repr)
      reads Repr
    {
      && (forall i | 0 <= i < |tiers| :: KeepsEntries(old(tiers[i].Slots()), tiers[i].Slots(), k))
      && (last != null ==> KeepsEntries(old(last.b), last.b, k) && GridKeepsEntries(old(last.c), last.c, k))
    }

    /**
     * The table invariant: the table owns its tiers and not itself, the
     * tiers are Coherent with `Parts` and `_count`, and `_count` stays below
     * what the 0.9 load-factor gate lets through: a new key is counted only
     * when `10 * _count < 9 * _size` held before it.
     */
    ghost predicate Valid()
      reads this, Repr
    {
      this !in Repr && size >= 1 && 10 * count < 9 * size + 10
      && Coherent(hash, maxProbes, tiers, last, Repr, Parts, count)
    }

    /**
     * `OpenAddressHashTable(initial_size, delta)`: uniform tiers of
     * `(initial_size // 2) // 2**i` slots for i below alpha, stopping at the
     * first size below 1, and a last tier with whatever slots remain, if any.
     */
    constructor (initialSize: nat, deltaNum: nat, deltaDen: nat, hash: Hasher<K>)
      requires Configurable(initialSize, deltaNum, deltaDen)
      ensures Valid() && fresh(Repr)
      ensures size == initialSize && this.hash == hash
      ensures alpha == LogInvDelta(deltaNum, deltaDen) / 3 && maxProbes == LogInvDelta(deltaNum, deltaDen)
      ensures |tiers| == |TierSizes(initialSize, alpha)|
      ensures forall j | 0 <= j < |tiers| :: tiers[j].size == TierSizes(initialSize, alpha)[j]
      ensures (last != null) == (LastSize(initialSize, alpha) > 0)
      ensures last != null ==> last.size == LastSize(initialSize, alpha)
      ensures Contents() == map[] && count == 0
    {
      var a := LogInvDelta(deltaNum, deltaDen) / 3;
      var m := LogInvDelta(deltaNum, deltaDen);
      var ts, lst, repr, parts := NewStack(initialSize, a, m, hash);
      size, this.deltaNum, this.deltaDen := initialSize, deltaNum, deltaDen;
      alpha, maxProbes, this.hash := a, m, hash;
      tiers, last, count := ts, lst, 0;
      Repr, Parts := repr, parts;
    }

    /**
     * `search`: the value in the first tier that holds `k`, the last tier
     * last; with the tiers disjoint, a lookup in the table's mapping.
     */
    method Search(k: K) returns (r: Option<V>)
      requires Valid()
      ensures r == FirstHit(Parts, k)
      ensures r == if k in Contents() then Some(Contents()[k]) else None
    {
      FirstHitUnion(Parts, k);
      for j := 0 to |tiers|
        invariant FirstHit(Parts, k) == FirstHit(Parts[j..], k)
      {
        assert Parts[j..][1..] == Parts[j + 1..];
        assert TierOk(tiers[j], Parts[j], hash, maxProbes);
        r := tiers[j].Search(k);
        if r.Some? {
          return;
        }
      }
      if last != null {
        assert Parts[|tiers|..][1..] == [];
        r := last.Search(k);
        return;
      }
      assert Parts[|tiers|..] == [];
      return None;
    }

    /**
     * The existence check of insert: the first uniform tier whose search
     * finds `k`, if any.
     */
    method FindTier(k: K) returns (r: Option<nat>)
      requires Valid()
      ensures r.Some? ==> r.value < |tiers| && k in Parts[r.value]
      ensures r.Some? ==> forall i | 0 <= i < r.value :: k !in Parts[i]
      ensures r.None? ==> forall i | 0 <= i < |tiers| :: k !in Parts[i]
    {
      for j := 0 to |tiers|
        invariant forall i | 0 <= i < j :: k !in Parts[i]
      {
        assert TierOk(tiers[j], Parts[j], hash, maxProbes);
        var found := tiers[j].Search(k);
        if found.Some? {
          return Some(j);
        }
      }
      return None;
    }

    /** Counts a new entry, let through by the load-factor gate, now that the tiers hold `parts`. */
    method Count(ghost parts: seq<map<K, V>>)
      requires this !in Repr && size >= 1 && 10 * count < 9 * size
      requires Held(hash, maxProbes, tiers, last, Repr, parts) && Disjoint(parts) && count + 1 == TotalSize(parts)
      modifies this
      ensures Parts == parts && count == old(count) + 1 && Valid()
      ensures unchanged(Repr)
    {
      count := count + 1;
      Parts := parts;
    }

    /** Overwrites a key held by uniform tier `j`, where it lies. */
    method UpdateTier(j: nat, k: K, v: V)
      requires Valid() && j < |tiers| && k in Parts[j]
      modifies this, tiers[j], tiers[j].table
      ensures Valid()
      ensures Parts == old(Parts)[j := old(Parts)[j][k := v]]
      ensures Contents() == old(Contents())[k := v] && count == old(count)
      ensures KeepsOthers(k)
    {
      ghost var parts := Parts[j := Parts[j][k := v]];
      UpdatePart(Parts, j, k, v);
      var ok := TryTier(j, k, v, Parts, parts);
      SetParts(parts);
    }

    /** Records that the tiers now hold `parts`. */
    ghost method SetParts(parts: seq<map<K, V>>)
      requires this !in Repr && size >= 1 && 10 * count < 9 * size + 10
      requires Held(hash, maxProbes, tiers, last, Repr, parts) && Disjoint(parts) && count == TotalSize(parts)
      modifies this
      ensures Parts == parts && count == old(count) && Valid()
      ensures unchanged(Repr)
    {
      Parts := parts;
    }

    /** Overwrites a key held by the last tier, where it lies. */
    method UpdateLast(k: K, v: V)
      requires Valid() && last != null && k in Parts[|tiers|]
      modifies this, last
      ensures Valid()
      ensures Parts == old(Parts)[|tiers| := old(Parts)[|tiers|][k := v]]
      ensures Contents() == old(Contents())[k := v] && count == old(count)
      ensures KeepsOthers(k)
    {
      ghost var parts := Parts[|tiers| := Parts[|tiers|][k := v]];
      UpdatePart(Parts, |tiers|, k, v);
      var ok := TryLast(k, v, Parts, parts);
      SetParts(parts);
    }

    /**
     * Tries uniform tier `j` for a key the table does not hold, once the
     * load-factor gate has passed: the first empty slot among its first
     * `maxProbes` probes, if any.
     */
    method PlaceTier(j: nat, k: K, v: V) returns (ok: bool)
      requires Valid() && j < |tiers| && k !in Contents() && 10 * count < 9 * size
      modifies this, tiers[j], tiers[j].table
      ensures Valid()
      ensures ok == old(FirstEmpty(tiers[j].table[..], hash, k, maxProbes, 0)).Some?
      ensures ok ==> Parts == old(Parts)[j := old(Parts)[j][k := v]]
                     && Contents() == old(Contents())[k := v] && count == old(count) + 1
      ensures !ok ==> unchanged(this, tiers[j], tiers[j].table)
      ensures KeepsOthers(k)
    {
      UnionKeys(Parts, k);
      ghost var parts := Parts[j := Parts[j][k := v]];
      UpdatePart(Parts, j, k, v);
      ok := TryTier(j, k, v, Parts, parts);
      if ok {
        Count(parts);
      }
    }

    /**
     * Insert on uniform tier `j` itself, which always succeeds for a key the
     * tier holds: on success the tiers hold `parts`.
     */
    method TryTier(j: nat, k: K, v: V, ghost before: seq<map<K, V>>, ghost parts: seq<map<K, V>>) returns (ok: bool)
      requires Held(hash, maxProbes, tiers, last, Repr, before)
      requires j < |tiers| && parts == before[j := before[j][k := v]]
      modifies tiers[j], tiers[j].table
      ensures k !in before[j] ==> ok == old(FirstEmpty(tiers[j].table[..], hash, k, maxProbes, 0)).Some?
      ensures k in before[j] ==> ok
      ensures ok ==> Held(hash, maxProbes, tiers, last, Repr, parts)
      ensures !ok ==> unchanged(tiers[j], tiers[j].table)
      ensures KeepsOthers(k)
    {
      assert TierOk(tiers[j], before[j], hash, maxProbes);
      Separate(tiers, last, Repr, j);
      ok := tiers[j].Insert(k, v, maxProbes);
      if ok {
        forall i | 0 <= i < |tiers| && i != j
          ensures TierOk(tiers[i], parts[i], hash, maxProbes)
        {
          assert old(TierOk(tiers[i], before[i], hash, maxProbes));
        }
      }
    }

    /** Tries the last tier for a key the table does not hold, once the load-factor gate has passed. */
    method PlaceLast(k: K, v: V) returns (ok: bool)
      requires Valid() && last != null && k !in Contents() && 10 * count < 9 * size
      modifies this, last
      ensures Valid()
      ensures ok == old(Inserted(last.b, last.c, last.hash, last.maxAttempts, k, v)).Some?
      ensures ok ==> Parts == old(Parts)[|tiers| := old(Parts)[|tiers|][k := v]]
                     && Contents() == old(Contents())[k := v] && count == old(count) + 1
      ensures !ok ==> unchanged(this, last)
      ensures KeepsOthers(k)
    {
      UnionKeys(Parts, k);
      ghost var parts := Parts[|tiers| := Parts[|tiers|][k := v]];
      UpdatePart(Parts, |tiers|, k, v);
      ok := TryLast(k, v, Parts, parts);
      if ok {
        Count(parts);
      }
    }

    /**
     * Insert on the last tier itself, which always succeeds for a key it
     * holds: on success the tiers hold `parts`.
     */
    method TryLast(k: K, v: V, ghost before: seq<map<K, V>>, ghost parts: seq<map<K, V>>) returns (ok: bool)
      requires Held(hash, maxProbes, tiers, last, Repr, before)
      requires last != null && parts == before[|tiers| := before[|tiers|][k := v]]
      modifies last
      ensures ok == old(Inserted(last.b, last.c, last.hash, last.maxAttempts, k, v)).Some?
      ensures k in before[|tiers|] ==> ok
      ensures ok ==> Held(hash, maxProbes, tiers, last, Repr, parts)
      ensures !ok ==> unchanged(last)
      ensures KeepsOthers(k)
    {
      ok := last.Insert(k, v);
      if ok {
        forall j | 0 <= j < |tiers|
          ensures TierOk(tiers[j], parts[j], hash, maxProbes)
        {
          assert parts[j] == before[j];
          assert old(TierOk(tiers[j], before[j], hash, maxProbes));
        }
      }
    }

    /**
     * `insert`. A key the table holds is overwritten in the tier holding it,
     * which always succeeds. A new key is refused when the load factor is at
     * least 0.9; otherwise it goes to the first uniform tier with an empty
     * slot among its first `maxProbes` probes, failing that to the last
     * tier. A refused or failed insert changes nothing.
     */
    method Insert(k: K, v: V) returns (ok: bool)
      requires Valid()
      modifies this, Repr
      ensures Valid()
      ensures k in old(Contents()) ==> ok && Contents() == old(Contents())[k := v] && count == old(count)
      ensures k !in old(Contents()) && 10 * old(count) >= 9 * size ==> !ok
      ensures k !in old(Contents()) && 10 * old(count) < 9 * size ==>
                ok == (|| old(exists j | 0 <= j < |tiers| :: FirstEmpty(tiers[j].table[..], hash, k, maxProbes, 0).Some?)
                       || (last != null && old(Inserted(last.b, last.c, last.hash, last.maxAttempts, k, v)).Some?))
      ensures k in old(Contents()) ==>
                exists j | 0 <= j < |Parts| :: k in old(Parts)[j] && Parts == old(Parts)[j := old(Parts)[j][k := v]]
      ensures ok && k !in old(Contents()) ==>
                && Contents() == old(Contents())[k := v] && count == old(count) + 1
                && exists j | 0 <= j < |Parts| ::
                     && Parts == old(Parts)[j := old(Parts)[j][k := v]]
                     && (forall i | 0 <= i < j && i < |tiers| :: old(FirstEmpty(tiers[i].table[..], hash, k, maxProbes, 0)).None?)
                     && (j < |tiers| ==> old(FirstEmpty(tiers[j].table[..], hash, k, maxProbes, 0)).Some?)
      ensures !ok ==> Parts == old(Parts) && count == old(count)
      ensures !ok ==> unchanged(this) && unchanged(Repr)
      ensures KeepsOthers(k)
    {
      // First look for the key in each tier.
      var at := Locate(k);
      UnionKeys(Parts, k);
      if at.Some? {
        Overwrite(at.value, k, v);
        return true;
      }
      ok := InsertNew(k, v);
    }

    /**
     * The existence check of insert: the first uniform tier whose search
     * finds `k`, failing that the last tier if its search does.
     */
    method Locate(k: K) returns (r: Option<nat>)
      requires Valid()
      ensures r.Some? ==> r.value < |Parts| && k in Parts[r.value]
      ensures r.None? ==> forall i | 0 <= i < |Parts| :: k !in Parts[i]
    {
      r := FindTier(k);
      if r.None? && last != null {
        assert LastOk(last, Parts[|tiers|], hash);
        var found := last.Search(k);
        if found.Some? {
          r := Some(|tiers|);
        }
      }
    }

    /** Overwrites a key where it lies, in tier `j` (the last tier when `j` is past the uniform ones). */
    method Overwrite(j: nat, k: K, v: V)
      requires Valid() && j < |Parts| && k in Parts[j]
      modifies this, Repr
      ensures Valid()
      ensures Parts == old(Parts)[j := old(Parts)[j][k := v]]
      ensures Contents() == old(Contents())[k := v] && count == old(count)
      ensures KeepsOthers(k)
    {
      if j < |tiers| {
        UpdateTier(j, k, v);
      } else {
        UpdateLast(k, v);
      }
    }

    /** The second half of insert: the load-factor gate, then the placement loop. */
    method InsertNew(k: K, v: V) returns (ok: bool)
      requires Valid() && k !in Contents()
      modifies this, Repr
      ensures Valid()
      ensures 10 * old(count) >= 9 * size ==> !ok
      ensures 10 * old(count) < 9 * size ==>
                ok == (|| old(exists j | 0 <= j < |tiers| :: FirstEmpty(tiers[j].table[..], hash, k, maxProbes, 0).Some?)
                       || (last != null && old(Inserted(last.b, last.c, last.hash, last.maxAttempts, k, v)).Some?))
      ensures ok ==>
                && Contents() == old(Contents())[k := v] && count == old(count) + 1
                && exists j | 0 <= j < |Parts| ::
                     && Parts == old(Parts)[j := old(Parts)[j][k := v]]
                     && (forall i | 0 <= i < j && i < |tiers| :: old(FirstEmpty(tiers[i].table[..], hash, k, maxProbes, 0)).None?)
                     && (j < |tiers| ==> old(FirstEmpty(tiers[j].table[..], hash, k, maxProbes, 0)).Some?)
      ensures !ok ==> unchanged(this) && unchanged(Repr)
      ensures KeepsOthers(k)
    {
      var load := LoadFactor();
      GateIsIntegral(count, size);
      if load >= 0.9 {
        return false;
      }
      ok := Place(k, v);
    }

    /**
     * The placement loop, for a key the table does not hold once the gate has
     * passed: the first uniform tier with room takes it, else the last tier.
     */
    method Place(k: K, v: V) returns (ok: bool)
      requires Valid() && k !in Contents() && 10 * count < 9 * size
      modifies this, Repr
      ensures Valid()
      ensures ok == (|| old(exists j | 0 <= j < |tiers| :: FirstEmpty(tiers[j].table[..], hash, k, maxProbes, 0).Some?)
                     || (last != null && old(Inserted(last.b, last.c, last.hash, last.maxAttempts, k, v)).Some?))
      ensures ok ==>
                && Contents() == old(Contents())[k := v] && count == old(count) + 1
                && exists j | 0 <= j < |Parts| ::
                     && Parts == old(Parts)[j := old(Parts)[j][k := v]]
                     && (forall i | 0 <= i < j && i < |tiers| :: old(FirstEmpty(tiers[i].table[..], hash, k, maxProbes, 0)).None?)
                     && (j < |tiers| ==> old(FirstEmpty(tiers[j].table[..], hash, k, maxProbes, 0)).Some?)
      ensures !ok ==> unchanged(this) && unchanged(Repr)
      ensures KeepsOthers(k)
    {
      var room := FindRoom(k);
      if room.Some? {
        ok := PlaceTier(room.value, k, v);
        return;
      }
      if last != null {
        ok := PlaceLast(k, v);
        return;
      }
      return false;
    }

    /**
     * The uniform tiers in order until one has an empty slot among the
     * first `maxProbes` probes of `k`: the tier insert would place `k` in.
     */
    method FindRoom(k: K) returns (r: Option<nat>)
      requires Valid()
      ensures r.Some? ==> r.value < |tiers| && FirstEmpty(tiers[r.value].table[..], hash, k, maxProbes, 0).Some?
      ensures r.Some? ==> forall i | 0 <= i < r.value :: FirstEmpty(tiers[i].table[..], hash, k, maxProbes, 0).None?
      ensures r.None? ==> forall i | 0 <= i < |tiers| :: FirstEmpty(tiers[i].table[..], hash, k, maxProbes, 0).None?
    {
      for j := 0 to |tiers|
        invariant forall i | 0 <= i < j :: FirstEmpty(tiers[i].table[..], hash, k, maxProbes, 0).None?
      {
        assert TierOk(tiers[j], Parts[j], hash, maxProbes);
        var free := tiers[j].FindEmpty(k, maxProbes);
        if free.Some? {
          return Some(j);
        }
        assert FirstEmpty(tiers[j].table[..], hash, k, maxProbes, 0).None?;
      }
      return None;
    }

    /**
     * `load_factor`: `_count / _size`, the entries per slot of the table. The
     * gate keeps it at most 1, and below 1 once the table has 10 slots or
     * more; a smaller table can fill every slot.
     */
    function LoadFactor(): (lf: real)
      reads this, Repr
      requires Valid()
      ensures lf == |Contents()| as real / size as real
      ensures 0.0 <= lf <= 1.0
      ensures size >= 10 ==> lf < 1.0
    {
      DisjointSize(Parts);
      FractionBounds(count, size);
      FractionBelowOne(count, size);
      count as real / size as real
    }
  }

  /**
   * The uniform tiers the constructor creates: one fresh, empty tier of
   * `(initialSize // 2) // 2**i` slots for each i below `a`, stopping at the
   * first size below 1; `used` is the slots they take together.
   */
  method NewTiers<K(==), V>(half: nat, a: nat, i: nat, hash: Hasher<K>)
      returns (ts: seq<SubArray<K, V>>, used: nat, ghost objs: set<object>)
    requires forall j | 0 <= j < |TierSizesFrom(half, a, i)| :: TierSizesFrom(half, a, i)[j] >= 2
    ensures |ts| == |TierSizesFrom(half, a, i)| && used == Sum(TierSizesFrom(half, a, i))
    ensures fresh(objs) && forall j | 0 <= j < |ts| :: ts[j] in objs && ts[j].table in objs
    ensures forall j | 0 <= j < |ts| ::
              && ts[j].Valid() && ts[j].size == TierSizesFrom(half, a, i)[j] && ts[j].hash == hash
              && ts[j].Contents == map[] && ts[j].Where == map[]
    decreases a - i
  {
    var s := half / Pow2(i);
    if i >= a || s < 1 {
      return [], 0, {};
    }
    ghost var sizes := TierSizesFrom(half, a, i);
    assert sizes == [s] + TierSizesFrom(half, a, i + 1);
    assert sizes[1..] == TierSizesFrom(half, a, i + 1) && sizes[0] == s >= 2;
    var t := new SubArray(s, hash);
    var rest, restUsed;
    rest, restUsed, objs := NewTiers(half, a, i + 1, hash);
    ts, used, objs := [t] + rest, s + restUsed, objs + {t, t.table};
  }

  /**
   * The tiers the constructor builds, as the table holds them: the uniform
   * tiers of NewTiers, then a last tier of the slots they leave, if any; all
   * fresh and empty.
   */
  method NewStack<K(==), V>(initialSize: nat, a: nat, m: nat, hash: Hasher<K>)
      returns (ts: seq<SubArray<K, V>>, last: LastSubArray?<K, V>, ghost repr: set<object>, ghost parts: seq<map<K, V>>)
    requires forall j | 0 <= j < |TierSizes(initialSize, a)| :: TierSizes(initialSize, a)[j] >= 2
    requires LastSize(initialSize, a) > 0 ==> LastLayoutOk(LastSize(initialSize, a))
    ensures |ts| == |TierSizes(initialSize, a)|
    ensures forall j | 0 <= j < |ts| :: ts[j].size == TierSizes(initialSize, a)[j]
    ensures (last != null) == (LastSize(initialSize, a) > 0)
    ensures last != null ==> last.size == LastSize(initialSize, a)
    ensures fresh(repr) && Held(hash, m, ts, last, repr, parts)
    ensures Disjoint(parts) && Union(parts) == map[] && TotalSize(parts) == 0
  {
    var used;
    ts, used, repr := NewTiers(initialSize / 2, a, 0, hash);
    TierSizesDecrease(initialSize, a);
    ghost var blank: seq<map<K, V>> := seq(|ts|, _ => map[]);
    BlankTiers(hash, m, ts, blank);
    assert Held(hash, m, ts, null, repr, blank);
    var lastSize := initialSize - used;
    assert lastSize == LastSize(initialSize, a);
    if lastSize > 0 {
      var l := NewLast(lastSize, hash, m, ts, repr, blank);
      last, parts, repr := l, blank + [map[]], repr + {l};
    } else {
      last, parts := null, blank;
    }
    EmptyParts(parts);
  }

  /** The last tier for NewStack: fresh and empty, held beside the uniform tiers, which it leaves as they were. */
  method NewLast<K(==), V>(size: nat, hash: Hasher<K>, ghost m: nat, ghost ts: seq<SubArray<K, V>>,
                           ghost repr: set<object>, ghost blank: seq<map<K, V>>) returns (last: LastSubArray<K, V>)
    requires LastLayoutOk(size) && Held(hash, m, ts, null, repr, blank)
    ensures fresh(last) && last.size == size && Held(hash, m, ts, last, repr + {last}, blank + [map[]])
  {
    last := new LastSubArray(size, hash);
    OwnedLast(ts, repr, last);
  }

  /** A table of 64 slots with delta 0.1 is well-formed: one uniform tier of 32 slots and a last tier of 32 in four buckets. */
  lemma SixtyFourSlotsConfigurable()
    ensures Configurable(64, 1, 10)
    ensures TierSizes(64, LogInvDelta(1, 10) / 3) == [32] && LastSize(64, LogInvDelta(1, 10) / 3) == 32
    ensures NumBuckets(32) == 4
  {
    Log2FloorUnique(10, 3);
    assert LogInvDelta(1, 10) / 3 == 1;
    assert TierSizesFrom(32, 1, 1) == [];
    assert TierSizes(64, 1) == [32];
    Log2FloorUnique(33, 5);
    Log2FloorUnique(6, 2);
    assert BucketSize(32) == 4 && NumBuckets(32) == 4;
  }

  /**
   * With the default 16 slots and delta 0.1 the last tier of 8 slots has a
   * single bucket, so `_hash_c` divides by zero: the default is not well-formed.
   */
  lemma DefaultNotConfigurable()
    ensures !Configurable(16, 1, 10)
    ensures TierSizes(16, LogInvDelta(1, 10) / 3) == [8] && LastSize(16, LogInvDelta(1, 10) / 3) == 8
    ensures NumBuckets(8) == 1
  {
    Log2FloorUnique(10, 3);
    assert LogInvDelta(1, 10) / 3 == 1;
    assert TierSizesFrom(8, 1, 1) == [];
    assert TierSizes(16, 1) == [8];
    Log2FloorUnique(9, 3);
    Log2FloorUnique(4, 2);
    assert BucketSize(8) == 4 && NumBuckets(8) == 1;
  }

  /**
   * A table of 9 slots with delta 1/2 is well-formed: no uniform tier, and a
   * last tier of all 9 slots, 4 in part B and 5 in part C, the latter in two
   * buckets of 4 cells. Parts B and C thus have places for 12 entries, more
   * than the 9 slots, and with 8 keys stored the gate (`10 * 8 < 9 * 9`)
   * still lets a ninth through; whether that insert finds a free place
   * depends on the hashes.
   */
  lemma SmallTableCanFill()
    ensures Configurable(9, 1, 2)
    ensures TierSizes(9, LogInvDelta(1, 2) / 3) == [] && LastSize(9, LogInvDelta(1, 2) / 3) == 9
    ensures BSize(9) == 4 && CSize(9) == 5 && BucketSize(9) == 4 && NumBuckets(9) == 2
    ensures BSize(9) + NumBuckets(9) * BucketSize(9) >= 9
  {
    Log2FloorUnique(2, 1);
    assert LogInvDelta(1, 2) / 3 == 0;
    assert TierSizes(9, 0) == [];
    Log2FloorUnique(10, 3);
    Log2FloorUnique(4, 2);
    assert BucketSize(9) == 4 && NumBuckets(9) == 2;
  }

  /** The gate `load_factor >= 0.9` on whole numbers: ten times the entries reach nine times the slots. */
  lemma GateIsIntegral(count: nat, size: nat)
    requires size >= 1
    ensures count as real / size as real >= 0.9 <==> 10 * count >= 9 * size
  {
    var q := count as real / size as real;
    assert q * size as real == count as real;
  }

}
