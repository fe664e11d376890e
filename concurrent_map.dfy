/**
 * ConcurrentMap<T>: a fixed-capacity, insert-only hash table from byte
 * strings to values, kept in three arrays indexed in parallel (key cells,
 * key lengths, values), with linear probing from hash & (nbuckets - 1).
 * The object is modelled for a single thread; module ProbeTable gives the
 * meaning of one insert and what it preserves.
 */
module ConcurrentMaps {
  import opened Bits
  import opened ProbeTable

  /**
   * The content of a key cell: the null pointer (empty), the `locked`
   * sentinel (claimed, being filled), or a published key.
   */
  datatype KeyCell = Null | Locked | Ptr(bytes: seq<byte>)

  class ConcurrentMap<T(0)> {
    var nbuckets: int
    var keys: array?<KeyCell>
    var sizes: array?<u32>
    var values: array?<T>

    /** The buckets as abstract slots; empty while the table is unsized. */
    ghost var Slots: seq<Slot<T>>
    /** For each stored key, the hash it was inserted with. */
    ghost var Hashes: map<seq<byte>, u64>

    /** Bucket i of the arrays holds what Slots says, and no cell is left Locked. */
    ghost predicate Holds(i: nat)
      reads this, keys, sizes, values
      requires keys != null && sizes != null && values != null
      requires i < keys.Length && i < sizes.Length && i < values.Length && i < |Slots|
    {
      match Slots[i]
      case Empty => keys[i] == Null
      case Published(k, v) => keys[i] == Ptr(k) && sizes[i] as int == |k| && values[i] == v
    }

    /** The table has storage of a valid size, and the arrays hold what Slots says. */
    ghost predicate Sized()
      reads this, keys, sizes, values
    {
      && keys != null && sizes != null && values != null
      && (values as object) != (keys as object) && (values as object) != (sizes as object)
      && keys.Length == nbuckets && sizes.Length == nbuckets && values.Length == nbuckets
      && IsPowerOfTwo(nbuckets) && MIN_NBUCKETS <= nbuckets < 0x8000_0000_0000_0000
      && |Slots| == nbuckets
      && (forall i :: 0 <= i < nbuckets ==> Holds(i))
    }

    /**
     * Either unsized and empty, or sized with arrays that match Slots; in
     * particular no key cell is left holding the `locked` sentinel.
     */
    ghost predicate Valid()
      reads this, keys, sizes, values
      ensures Valid() && keys != null ==>
        nbuckets == keys.Length && forall i :: 0 <= i < keys.Length ==> keys[i] != Locked
    {
      if keys == null then
        sizes == null && values == null && nbuckets == 0 && Slots == [] && Hashes == map[]
      else
        SizedHasNoLockedCell();
        Sized()
    }

    /** Sized() pins every key cell to Null or Ptr, as Slots says. */
    lemma SizedHasNoLockedCell()
      ensures Sized() ==> forall i :: 0 <= i < keys.Length ==> keys[i] != Locked
    {
      if Sized() {
        forall i | 0 <= i < keys.Length
          ensures keys[i] != Locked
        {
          assert Holds(i);
        }
      }
    }

    /**
     * Valid, and every stored key is found by the probe from the hash it was
     * inserted with; kept as long as callers hash each key the same way.
     */
    ghost predicate Consistent()
      reads this, keys, sizes, values
    {
      Valid() && WellFormed(Slots, Hashes)
    }

    /** A table with no storage: every insert reports Unsized until it is resized. */
    constructor ()
      ensures Consistent() && keys == null && nbuckets == 0 && Slots == []
    {
      nbuckets := 0;
      keys, sizes, values := null, null, null;
      Slots, Hashes := [], map[];
    }

    /** A table sized for the requested capacity. */
    constructor WithCapacity(n: int)
      requires 0 <= n <= MAX_CAPACITY
      ensures Consistent() && keys != null && fresh(keys) && fresh(sizes) && fresh(values)
      ensures nbuckets == BucketCount(n)
      ensures Slots == EmptyTable(nbuckets) && Hashes == map[]
    {
      nbuckets := 0;
      keys, sizes, values := null, null, null;
      Slots, Hashes := [], map[];
      new;
      Resize(n);
    }

    /**
     * Drops the current storage and allocates zero-filled arrays for
     * BucketCount(n) buckets; every bucket is empty afterwards.
     */
    method Resize(n: int)
      requires 0 <= n <= MAX_CAPACITY
      modifies this
      ensures Consistent() && keys != null && fresh(keys) && fresh(sizes) && fresh(values)
      ensures nbuckets == BucketCount(n)
      ensures Slots == EmptyTable(nbuckets) && Hashes == map[]
    {
      var count := BucketCount(n);
      nbuckets := count;
      keys := new KeyCell[count](_ => Null);
      sizes := new u32[count](_ => 0);
      values := new T[count];
      Slots, Hashes := EmptyTable(count), map[];
      EmptyTableWellFormed<T>(count);
    }

    /**
     * Claims the empty bucket idx for key: the cell goes from null to the
     * `locked` sentinel (the compare-exchange, which cannot fail for a single
     * thread), then the value, the length and finally the key are written.
     */
    method Claim(idx: nat, key: seq<byte>, hash: u64, val: T)
      requires Sized() && idx < nbuckets && keys[idx] == Null
      requires |key| < 0x1_0000_0000
      requires ProbeTable.Insert(Slots, key, hash, val).0 == Inserted(idx)
      modifies this`Slots, this`Hashes, keys, sizes, values
      ensures Sized()
      ensures old(WellFormed(Slots, Hashes)) && (key in old(Hashes) ==> old(Hashes)[key] == hash) ==>
        WellFormed(Slots, Hashes)
      ensures Slots == old(Slots)[idx := Published(key, val)] && Hashes == old(Hashes)[key := hash]
      ensures keys[idx] == Ptr(key) && sizes[idx] as int == |key| && values[idx] == val
      ensures forall j :: 0 <= j < nbuckets && j != idx ==>
        keys[j] == old(keys[j]) && sizes[j] == old(sizes[j]) && values[j] == old(values[j])
    {
      keys[idx] := Locked;
      values[idx] := val;
      sizes[idx] := |key| as u32;
      keys[idx] := Ptr(key);
      if WellFormed(Slots, Hashes) && (key in Hashes ==> Hashes[key] == hash) {
        InsertKeepsWellFormed(Slots, Hashes, key, hash, val);
      }
      Slots := Slots[idx := Published(key, val)];
      Hashes := Hashes[key := hash];
      assert forall i :: 0 <= i < nbuckets ==> Holds(i) by {
        forall i | 0 <= i < nbuckets ensures Holds(i) {
          if i != idx {
            assert old(Holds(i));
          }
        }
      }
    }

    /**
     * The probe loop of insert: from bucket hash & (nbuckets - 1), stop at
     * the first empty bucket or at a bucket holding key, pass over any other,
     * and give up after MIN_NBUCKETS advances. Reads the table only.
     */
    method Find(key: seq<byte>, hash: u64) returns (r: Outcome)
      requires Sized()
      ensures r == Probe(Slots, key, Start(hash, nbuckets), 0)
      ensures r.Inserted? ==> r.index < nbuckets && keys[r.index] == Null
    {
      // The sanity check on the bucket count, read as the 64-bit population count.
      assert PopCount(nbuckets) == 1 by {
        PowerOfTwoHasOneBit(nbuckets);
      }
      MaskIsMod(hash as nat, nbuckets);
      var idx := And(hash as nat, nbuckets - 1);
      var nretry := 0;
      while nretry < MIN_NBUCKETS
        invariant 0 <= idx < nbuckets && 0 <= nretry <= MIN_NBUCKETS
        invariant Probe(Slots, key, idx, nretry) == Probe(Slots, key, Start(hash, nbuckets), 0)
        decreases MIN_NBUCKETS - nretry
      {
        // A Locked cell, on which the source spins, is never seen by a
        // single thread: Valid() leaves every cell Null or Ptr.
        assert Holds(idx);
        match keys[idx]
        case Null =>
          assert Probe(Slots, key, idx, nretry) == Inserted(idx);
          return Inserted(idx);
        case Ptr(stored) =>
          assert Slots[idx] == Published(stored, values[idx]) && |stored| == sizes[idx] as int;
          if |key| == sizes[idx] as int && stored == key {
            assert Probe(Slots, key, idx, nretry) == Found(idx);
            return Found(idx);
          }
          assert Probe(Slots, key, idx, nretry) == Probe(Slots, key, Next(idx, nbuckets), nretry + 1);
          MaskIsMod(idx + 1, nbuckets);
          idx := And(idx + 1, nbuckets - 1);
          nretry := nretry + 1;
      }
      return Full;
    }

    /**
     * Looks key up and, when it is absent, stores it with val in the empty
     * bucket where the probe stopped. The key length must fit the u32
     * length array.
     */
    method Insert(key: seq<byte>, hash: u64, val: T) returns (r: Outcome)
      requires Valid()
      requires |key| < 0x1_0000_0000
      modifies this`Slots, this`Hashes, keys, sizes, values
      ensures Valid()
      ensures old(Consistent()) && (key in old(Hashes) ==> old(Hashes)[key] == hash) ==> Consistent()
      ensures (r, Slots) == ProbeTable.Insert(old(Slots), key, hash, val)
      ensures Hashes == if r.Inserted? then old(Hashes)[key := hash] else old(Hashes)
      ensures keys != null ==> forall j :: 0 <= j < nbuckets && !(r.Inserted? && j == r.index) ==>
        keys[j] == old(keys[j]) && sizes[j] == old(sizes[j]) && values[j] == old(values[j])
    {
      if keys == null {
        return Unsized;
      }
      r := Find(key, hash);
      if r.Inserted? {
        Claim(r.index, key, hash, val);
      }
    }
  }
}
