/**
 * The tier stack of the table (src/hash_table.py, OpenAddressHashTable):
 * its uniform tiers and optional last tier as objects, and the invariant
 * tying them to the key-value mapping each tier holds.
 */
module Stack {
  import opened Probing
  import opened Tiers
  import opened Uniform
  import opened Terminal

  /**
   * A uniform tier as the table keeps it: valid under the table's hashes,
   * holding `part`, with every key placed within the first `m` probe
   * attempts (the budget the table always passes).
   */
  ghost predicate TierOk<K, V>(t: SubArray<K, V>, part: map<K, V>, h: Hasher<K>, m: nat)
    reads t, t.table
  {
    t.Valid() && t.hash == h && part == t.Contents && t.WithinProbes(m)
  }

  /** The last tier as the table keeps it: valid under the table's hashes, holding `part`. */
  ghost predicate LastOk<K, V>(t: LastSubArray<K, V>, part: map<K, V>, h: Hasher<K>)
    reads t
  {
    t.Valid() && t.hash == h && part == t.Contents()
  }

  /**
   * The tiers and their slot arrays are all in `repr`, each array as long as
   * its tier's size and at least two slots; tier sizes strictly decrease, so
   * no two tiers, nor their arrays, are the same object.
   */
  ghost predicate Owned<K, V>(tiers: seq<SubArray<K, V>>, last: LastSubArray?<K, V>, repr: set<object>)
  {
    && (forall j | 0 <= j < |tiers| ::
          tiers[j] in repr && tiers[j].table in repr && tiers[j].table.Length == tiers[j].size >= 2)
    && (last != null ==> last in repr)
    && (forall i, j | 0 <= i < j < |tiers| :: tiers[j].size < tiers[i].size)
  }

  /** A last tier added to `repr` leaves the uniform tiers owned. */
  lemma OwnedLast<K, V>(tiers: seq<SubArray<K, V>>, repr: set<object>, last: LastSubArray<K, V>)
    requires Owned(tiers, null, repr)
    ensures Owned(tiers, last, repr + {last})
  {
  }

  /** No other uniform tier is tier `j` or shares its slot array. */
  lemma Separate<K, V>(tiers: seq<SubArray<K, V>>, last: LastSubArray?<K, V>, repr: set<object>, j: nat)
    requires Owned(tiers, last, repr) && j < |tiers|
    ensures forall i | 0 <= i < |tiers| && i != j :: tiers[i] != tiers[j] && tiers[i].table != tiers[j].table
  {
  }

  /**
   * The tiers hold the mappings `parts`, the last tier's last: each tier is
   * valid under the hashes `h` and holds its own mapping.
   */
  ghost predicate TiersOk<K, V>(h: Hasher<K>, m: nat, tiers: seq<SubArray<K, V>>, last: LastSubArray?<K, V>,
                                parts: seq<map<K, V>>)
    reads set j | 0 <= j < |tiers| :: tiers[j], set j | 0 <= j < |tiers| :: tiers[j].table, last
  {
    && |parts| == |tiers| + (if last == null then 0 else 1)
    && (forall j {:trigger TierOk(tiers[j], parts[j], h, m)} | 0 <= j < |tiers| :: TierOk(tiers[j], parts[j], h, m))
    && (last != null ==> LastOk(last, parts[|tiers|], h))
  }

  /** The tiers are owned through `repr` and hold `parts`. */
  ghost predicate Held<K, V>(h: Hasher<K>, m: nat, tiers: seq<SubArray<K, V>>, last: LastSubArray?<K, V>,
                             repr: set<object>, parts: seq<map<K, V>>)
    reads repr
  {
    Owned(tiers, last, repr) && TiersOk(h, m, tiers, last, parts)
  }

  /** Newly built, empty uniform tiers and no last tier hold empty mappings. */
  lemma BlankTiers<K, V>(h: Hasher<K>, m: nat, tiers: seq<SubArray<K, V>>, parts: seq<map<K, V>>)
    requires forall j | 0 <= j < |tiers| ::
               tiers[j].Valid() && tiers[j].hash == h && tiers[j].Contents == map[] && tiers[j].Where == map[]
    requires |parts| == |tiers| && forall j | 0 <= j < |parts| :: parts[j] == map[]
    ensures TiersOk(h, m, tiers, null, parts)
  {
  }

  /**
   * The table's invariant over its tiers: it owns them, they hold `parts`,
   * no key is held by two tiers, and `n` counts the entries over all tiers.
   */
  ghost predicate Coherent<K, V>(h: Hasher<K>, m: nat, tiers: seq<SubArray<K, V>>, last: LastSubArray?<K, V>,
                                 repr: set<object>, parts: seq<map<K, V>>, n: nat)
    reads repr
  {
    && Held(h, m, tiers, last, repr, parts)
    && Disjoint(parts)
    && n == TotalSize(parts)
  }

}
