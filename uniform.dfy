/**
 * The uniform tier (src/hash_table.py, class SubArray): a fixed-size slot
 * list addressed by bounded double hashing, written in place.
 */
module Uniform {
  import opened Wrappers
  import opened Probing
  import opened Region

  class SubArray<K(==), V> {
    /** `_size`: the number of slots. */
    const size: nat
    /** The key hashes behind `_hash`. */
    const hash: Hasher<K>
    /** `_table`. */
    const table: array<Slot<K, V>>
    /** `_count`: the number of entries stored. */
    var count: nat

    /** The key-value mapping the tier holds. */
    ghost var Contents: map<K, V>
    /** The probe attempt at which each stored key was placed. */
    ghost var Where: map<K, nat>

    /**
     * The tier invariant: no entry ever moves, so each key sits at a probe
     * slot all of whose predecessors hold other keys, within `size`
     * attempts; `_count` is both the number of keys and the number of
     * occupied slots.
     */
    ghost predicate Valid()
      reads this, table
    {
      && size >= 2 && table.Length == size
      && Placed(table[..], hash, Contents, Where, size)
      && count == |Contents|
      && count == OccupiedCount(table[..])
    }

    /** The slots of the tier: `_table` as a sequence. */
    ghost function Slots(): seq<Slot<K, V>>
      reads table
    {
      table[..]
    }

    /** Every key was placed within the first `m` probe attempts. */
    ghost predicate WithinProbes(m: nat)
      reads this
    {
      forall k | k in Where :: Where[k] < m
    }

    /**
     * `SubArray(size)`: an empty tier. Every operation but `load_factor`
     * divides by `size - 1`, hence `size >= 2`.
     */
    constructor (size: nat, hash: Hasher<K>)
      requires size >= 2
      ensures Valid() && fresh(table)
      ensures this.size == size && this.hash == hash
      ensures Contents == map[] && Where == map[] && count == 0
    {
      this.size := size;
      this.hash := hash;
      table := new Slot<K, V>[size](_ => Empty);
      count := 0;
      Contents := map[];
      Where := map[];
      new;
      PlacedEmpty(table[..], hash, size);
      OccupiedCountAllEmpty(table[..]);
    }

    /** `_hash(key, attempt)`: the slot probed at attempt `i`. */
    function Pos(k: K, i: nat): (p: nat)
      requires size >= 2
      ensures p < size
    {
      Probe(hash, k, size, i)
    }

    /**
     * `search`: probe up to `size` attempts, absent at the first empty slot.
     * By the tier invariant this is exactly a lookup in the stored mapping.
     */
    method Search(k: K) returns (r: Option<V>)
      requires Valid()
      ensures r == Find(table[..], hash, k, size, 0)
      ensures r == if k in Contents then Some(Contents[k]) else None
    {
      FindCorrect(table[..], hash, Contents, Where, size, k, size);
      for i := 0 to size
        invariant Find(table[..], hash, k, size, i) == Find(table[..], hash, k, size, 0)
      {
        var pos := Pos(k, i);
        if table[pos].Empty? {
          return None;
        }
        if table[pos].key == k {
          return Some(table[pos].value);
        }
      }
      return None;
    }

    /**
     * `insert(key, value, max_probes)`. A key placed within the first
     * `maxProbes` attempts is overwritten where it lies; a new key goes to
     * its first empty probe slot among those attempts; otherwise nothing
     * changes and the result is false.
     */
    method Insert(k: K, v: V, maxProbes: nat) returns (ok: bool)
      requires Valid()
      modifies this, table
      ensures Valid()
      ensures k in old(Contents) ==> ok == (old(Where)[k] < maxProbes)
      ensures k !in old(Contents) ==> ok == FirstEmpty(old(table[..]), hash, k, maxProbes, 0).Some?
      ensures ok ==> Contents == old(Contents)[k := v] && k in Where && Where[k] < maxProbes
      ensures ok && old(WithinProbes(maxProbes)) ==> WithinProbes(maxProbes)
      ensures ok ==> table[..] == old(table[..])[Pos(k, Where[k]) := Full(k, v)]
      ensures ok && k in old(Contents) ==> Where == old(Where) && count == old(count)
      ensures ok && k !in old(Contents) ==>
                Where == old(Where)[k := FirstEmpty(old(table[..]), hash, k, maxProbes, 0).value]
                && count == old(count) + 1
      ensures !ok ==> unchanged(this, table)
      ensures KeepsEntries(old(table[..]), table[..], k)
    {
      UpdateAttemptCorrect(table[..], hash, Contents, Where, size, k, maxProbes);
      var at := FindKey(k, maxProbes);
      if at.Some? {
        Overwrite(k, v, at.value);
        return true;
      }
      if k in Where {
        FirstEmptyBlocked(table[..], hash, Contents, Where, size, k, maxProbes);
      }
      var free := FindEmpty(k, maxProbes);
      if free.Some? {
        PlaceNew(k, v, maxProbes, free.value);
        return true;
      }
      return false;
    }

    /**
     * The first loop of insert: the attempt, among the first `m`, at which
     * `k` is found before any empty slot.
     */
    method FindKey(k: K, m: nat) returns (r: Option<nat>)
      requires Valid()
      ensures r == UpdateAttempt(table[..], hash, k, m, 0)
      ensures r == if k in Where && Where[k] < m then Some(Where[k]) else None
    {
      UpdateAttemptCorrect(table[..], hash, Contents, Where, size, k, m);
      for i := 0 to m
        invariant UpdateAttempt(table[..], hash, k, m, i) == UpdateAttempt(table[..], hash, k, m, 0)
      {
        var pos := Pos(k, i);
        if table[pos].Empty? {
          return None;
        }
        if table[pos].key == k {
          return Some(i);
        }
      }
      return None;
    }

    /** The second loop of insert: the first attempt, among the first `m`, whose slot is empty. */
    method FindEmpty(k: K, m: nat) returns (r: Option<nat>)
      requires Valid()
      ensures r == FirstEmpty(table[..], hash, k, m, 0)
    {
      for i := 0 to m
        invariant FirstEmpty(table[..], hash, k, m, i) == FirstEmpty(table[..], hash, k, m, 0)
      {
        if table[Pos(k, i)].Empty? {
          return Some(i);
        }
      }
      return None;
    }

    /** Overwrites the value of a stored key, found at attempt `i`, where it lies. */
    method Overwrite(k: K, v: V, i: nat)
      requires Valid() && k in Where && Where[k] == i
      modifies this, table
      ensures Valid()
      ensures Contents == old(Contents)[k := v] && Where == old(Where) && count == old(count)
      ensures table[..] == old(table[..])[Pos(k, i) := Full(k, v)]
      ensures KeepsEntries(old(table[..]), table[..], k)
    {
      var pos := Pos(k, i);
      ghost var t := table[..][pos := Full(k, v)];
      KeepsEntriesWrite(table[..], pos, k, v);
      PlacedOverwrite(table[..], hash, Contents, Where, size, k, v);
      OccupiedCountUpdate(table[..], pos, Full(k, v));
      table[pos] := Full(k, v);
      assert table[..] == t;
      Contents := Contents[k := v];
    }

    /** Stores a new key at attempt `i`, its first empty probe slot among the first `m`. */
    method PlaceNew(k: K, v: V, m: nat, i: nat)
      requires Valid() && k !in Contents && FirstEmpty(table[..], hash, k, m, 0) == Some(i)
      modifies this, table
      ensures Valid()
      ensures Contents == old(Contents)[k := v] && Where == old(Where)[k := i] && count == old(count) + 1
      ensures table[..] == old(table[..])[Pos(k, i) := Full(k, v)]
      ensures KeepsEntries(old(table[..]), table[..], k)
    {
      var pos := Pos(k, i);
      ghost var t := table[..][pos := Full(k, v)];
      KeepsEntriesWrite(table[..], pos, k, v);
      FirstEmptyBelowSize(table[..], hash, k, m);
      PlacedInsertNew(table[..], hash, Contents, Where, size, k, v, m);
      OccupiedCountUpdate(table[..], pos, Full(k, v));
      table[pos] := Full(k, v);
      assert table[..] == t;
      count, Contents, Where := count + 1, Contents[k := v], Where[k := i];
    }

    /** `load_factor`: `_count / _size`, the stored keys per slot, a fraction in [0, 1]. */
    function LoadFactor(): (lf: real)
      reads this, table
      requires Valid()
      ensures lf == |Contents| as real / size as real
      ensures 0.0 <= lf <= 1.0
    {
      FractionBounds(count, size);
      count as real / size as real
    }
  }

}
