/**
 * The contents of the table's tiers (src/hash_table.py, OpenAddressHashTable),
 * on values: one key-value map per tier, in the order the table tries them,
 * the last tier last. The table stores each key in exactly one tier, so the
 * maps are pairwise disjoint and their union is the table's mapping.
 */
module Tiers {
  import opened Wrappers
  import opened Probing

  /** Everything the tiers hold together. */
  function Union<K, V>(parts: seq<map<K, V>>): map<K, V>
  {
    if parts == [] then map[] else Union(parts[..|parts| - 1]) + parts[|parts| - 1]
  }

  /** No key is held by two tiers. */
  ghost predicate Disjoint<K, V>(parts: seq<map<K, V>>)
  {
    forall i, j | 0 <= i < j < |parts| :: parts[i].Keys !! parts[j].Keys
  }

  /** With disjoint tiers, a key held by tier `i` is held by no other tier. */
  lemma Apart<K, V>(parts: seq<map<K, V>>, i: nat, j: nat, k: K)
    requires Disjoint(parts) && i < |parts| && j < |parts| && i != j && k in parts[i]
    ensures k !in parts[j]
  {
    if i < j {
      assert parts[i].Keys !! parts[j].Keys;
    } else {
      assert parts[j].Keys !! parts[i].Keys;
    }
  }

  /** The number of entries over all tiers, counted tier by tier. */
  function TotalSize<K, V>(parts: seq<map<K, V>>): nat
  {
    if parts == [] then 0 else TotalSize(parts[..|parts| - 1]) + |parts[|parts| - 1]|
  }

  /**
   * The table's lookup order: the value in the first tier holding `k`, as the
   * table's `search` returns it.
   */
  function FirstHit<K, V>(parts: seq<map<K, V>>, k: K): (r: Option<V>)
    ensures r.None? <==> forall j | 0 <= j < |parts| :: k !in parts[j]
    ensures r.Some? ==> exists j | 0 <= j < |parts| :: k in parts[j] && parts[j][k] == r.value
  {
    if parts == [] then None
    else if k in parts[0] then Some(parts[0][k])
    else FirstHit(parts[1..], k)
  }

  /** The union holds exactly the keys some tier holds. */
  lemma {:induction false} UnionKeys<K, V>(parts: seq<map<K, V>>, k: K)
    ensures k in Union(parts) <==> exists j | 0 <= j < |parts| :: k in parts[j]
  {
    if parts != [] {
      var init := parts[..|parts| - 1];
      UnionKeys(init, k);
      if k in Union(parts) && k !in parts[|parts| - 1] {
        var j :| 0 <= j < |init| && k in init[j];
        assert k in parts[j];
      }
      if k !in Union(parts) {
        forall j | 0 <= j < |parts|
          ensures k !in parts[j]
        {
          if j < |init| {
            assert parts[j] == init[j];
          }
        }
      }
    }
  }

  /** With disjoint tiers, the union maps a key to the value its own tier holds. */
  lemma {:induction false} UnionLookup<K, V>(parts: seq<map<K, V>>, j: nat, k: K)
    requires Disjoint(parts) && j < |parts| && k in parts[j]
    ensures k in Union(parts) && Union(parts)[k] == parts[j][k]
  {
    var n := |parts| - 1;
    var init := parts[..n];
    if j < n {
      assert init[j] == parts[j];
      assert Disjoint(init) by {
        forall i, i' | 0 <= i < i' < |init|
          ensures init[i].Keys !! init[i'].Keys
        {
          assert init[i] == parts[i] && init[i'] == parts[i'];
        }
      }
      UnionLookup(init, j, k);
      Apart(parts, j, n, k);
    }
  }

  /** With disjoint tiers, the table's lookup order finds what the union holds. */
  lemma {:induction false} FirstHitUnion<K, V>(parts: seq<map<K, V>>, k: K)
    requires Disjoint(parts)
    ensures FirstHit(parts, k) == if k in Union(parts) then Some(Union(parts)[k]) else None
  {
    if parts != [] {
      if k in parts[0] {
        UnionLookup(parts, 0, k);
      } else {
        var rest := parts[1..];
        assert Disjoint(rest) by {
          forall i, i' | 0 <= i < i' < |rest|
            ensures rest[i].Keys !! rest[i'].Keys
          {
            assert rest[i] == parts[i + 1] && rest[i'] == parts[i' + 1];
          }
        }
        FirstHitUnion(rest, k);
        UnionKeys(parts, k);
        UnionKeys(rest, k);
        if k in Union(rest) {
          var j :| 0 <= j < |rest| && k in rest[j];
          assert rest[j] == parts[j + 1];
          UnionLookup(rest, j, k);
          UnionLookup(parts, j + 1, k);
        } else {
          forall j | 0 <= j < |parts|
            ensures k !in parts[j]
          {
            if j > 0 {
              assert parts[j] == rest[j - 1];
            }
          }
        }
      }
    }
  }

  /** With disjoint tiers, the entries counted tier by tier are the entries of the union. */
  lemma {:induction false} DisjointSize<K, V>(parts: seq<map<K, V>>)
    requires Disjoint(parts)
    ensures |Union(parts)| == TotalSize(parts)
  {
    if parts != [] {
      var n := |parts| - 1;
      var init := parts[..n];
      assert Disjoint(init) by {
        forall i, i' | 0 <= i < i' < |init|
          ensures init[i].Keys !! init[i'].Keys
        {
          assert init[i] == parts[i] && init[i'] == parts[i'];
        }
      }
      DisjointSize(init);
      assert Union(init).Keys !! parts[n].Keys by {
        forall k | k in Union(init)
          ensures k !in parts[n]
        {
          UnionKeys(init, k);
          var j :| 0 <= j < |init| && k in init[j];
          assert init[j] == parts[j];
          Apart(parts, j, n, k);
        }
      }
      assert (Union(init) + parts[n]).Keys == Union(init).Keys + parts[n].Keys;
    }
  }

  /**
   * Writing `k` into tier `j`, where `k` already lives or which no tier holds
   * yet, keeps the tiers disjoint, updates the union at `k` and adds one entry
   * exactly when `k` is new.
   */
  lemma {:induction false} UpdatePart<K, V>(parts: seq<map<K, V>>, j: nat, k: K, v: V)
    requires Disjoint(parts) && j < |parts|
    requires k in parts[j] || k !in Union(parts)
    ensures var parts' := parts[j := parts[j][k := v]];
            && Disjoint(parts')
            && Union(parts') == Union(parts)[k := v]
            && TotalSize(parts') == TotalSize(parts) + (if k in parts[j] then 0 else 1)
  {
    var parts' := parts[j := parts[j][k := v]];
    if k !in parts[j] {
      UnionKeys(parts, k);
    }
    forall i | 0 <= i < |parts| && i != j
      ensures k !in parts[i]
    {
      if k in parts[j] {
        Apart(parts, j, i, k);
      }
    }
    assert Disjoint(parts') by {
      forall i, i' | 0 <= i < i' < |parts'|
        ensures parts'[i].Keys !! parts'[i'].Keys
      {
        assert parts[i].Keys !! parts[i'].Keys;
      }
    }
    UnionUpdate(parts, j, k, v);
    TotalSizeUpdate(parts, j, k, v);
  }

  /** The union after writing `k` into tier `j` when no other tier holds `k`. */
  lemma {:induction false} UnionUpdate<K, V>(parts: seq<map<K, V>>, j: nat, k: K, v: V)
    requires j < |parts| && forall i | 0 <= i < |parts| && i != j :: k !in parts[i]
    ensures Union(parts[j := parts[j][k := v]]) == Union(parts)[k := v]
    decreases |parts|
  {
    var n := |parts| - 1;
    var parts' := parts[j := parts[j][k := v]];
    var init := parts[..n];
    if j == n {
      assert parts'[..n] == init;
      MergeUpdateRight(Union(init), parts[n], k, v);
    } else {
      var init' := init[j := init[j][k := v]];
      assert parts'[..n] == init';
      assert k !in parts[n];
      assert forall i | 0 <= i < |init| && i != j :: k !in init[i] by {
        forall i | 0 <= i < |init| && i != j
          ensures k !in init[i]
        {
          assert init[i] == parts[i];
        }
      }
      UnionUpdate(init, j, k, v);
      MergeUpdateLeft(Union(init), parts[n], k, v);
    }
  }

  /** The entry count after writing `k` into tier `j`: one more exactly when `k` is new there. */
  lemma {:induction false} TotalSizeUpdate<K, V>(parts: seq<map<K, V>>, j: nat, k: K, v: V)
    requires j < |parts|
    ensures TotalSize(parts[j := parts[j][k := v]]) == TotalSize(parts) + (if k in parts[j] then 0 else 1)
    decreases |parts|
  {
    var n := |parts| - 1;
    var parts' := parts[j := parts[j][k := v]];
    var init := parts[..n];
    if j == n {
      assert parts'[..n] == init;
    } else {
      assert parts'[..n] == init[j := init[j][k := v]];
      TotalSizeUpdate(init, j, k, v);
    }
  }

  /** Tiers that hold nothing: disjoint, with an empty union and no entries. */
  lemma {:induction false} EmptyParts<K, V>(parts: seq<map<K, V>>)
    requires forall j | 0 <= j < |parts| :: parts[j] == map[]
    ensures Disjoint(parts) && Union(parts) == map[] && TotalSize(parts) == 0
  {
    if parts != [] {
      EmptyParts(parts[..|parts| - 1]);
    }
  }

}
