/**
 * What one insert does to an open-addressing, linear-probing table, stated
 * on a sequence of slots. The table of concurrent_map.cc is the object in
 * module ConcurrentMaps; this module is the reference its methods are proved
 * against, together with the properties of that reference.
 */
module ProbeTable {
  import opened Bits

  /** The floor on the bucket count, and also the number of probe advances allowed. */
  const MIN_NBUCKETS: nat := 256

  /** Largest capacity request whose rounded bucket count still fits an i64. */
  const MAX_CAPACITY: nat := 0x4000_0000_0000_0000

  newtype byte = b: int | 0 <= b < 0x100
  newtype u32 = x: int | 0 <= x < 0x1_0000_0000
  newtype u64 = x: int | 0 <= x < 0x1_0000_0000_0000_0000

  /** The abstract content of one bucket. */
  datatype Slot<T> = Empty | Published(key: seq<byte>, value: T)

  /**
   * Result of an insert: the table had no storage; the key was already in
   * slot `index`; the key was stored in the previously empty slot `index`;
   * the probe bound was exhausted.
   */
  datatype Outcome = Unsized | Found(index: nat) | Inserted(index: nat) | Full

  /** The bucket count resize chooses for a requested capacity n. */
  function BucketCount(n: nat): (r: nat)
    requires n <= MAX_CAPACITY
    ensures IsPowerOfTwo(r) && MIN_NBUCKETS <= r && n <= r
    ensures r < 0x8000_0000_0000_0000
  {
    assert IsPowerOfTwo(MIN_NBUCKETS) by { assert Pow2(8) == MIN_NBUCKETS; }
    var p := NextPowerOfTwo(n);
    if p < MIN_NBUCKETS then MIN_NBUCKETS else p
  }

  /** No smaller bucket count would do: BucketCount(n) is the least power of two >= max(256, n). */
  lemma BucketCountIsLeast(n: nat, p: nat)
    requires n <= MAX_CAPACITY
    requires IsPowerOfTwo(p) && MIN_NBUCKETS <= p && n <= p
    ensures BucketCount(n) <= p
  {
    NextPowerOfTwoIsLeast(n, p);
  }

  /**
   * A request for 2^32 buckets is granted exactly, and the 32-bit population
   * count of that bucket count is 0, not 1.
   */
  lemma PopCount32RejectsReachableSize()
    ensures BucketCount(0x1_0000_0000) == 0x1_0000_0000
    ensures PopCount32(BucketCount(0x1_0000_0000)) == 0
  {
    PopCount32RejectsPowerOfTwo();
    NextPowerOfTwoIsLeast(0x1_0000_0000, 0x1_0000_0000);
  }

  /** A table of n buckets straight after resize. */
  function EmptyTable<T>(n: nat): (slots: seq<Slot<T>>)
    ensures |slots| == n && forall i :: 0 <= i < n ==> slots[i].Empty?
  {
    seq(n, _ => Empty)
  }

  /** The bucket a hash starts probing at (hash & (n - 1) for a power of two n). */
  function Start(hash: u64, n: nat): (i: nat)
    requires n > 0
    ensures i < n
  {
    hash as nat % n
  }

  /** The bucket after idx, wrapping around ((idx + 1) & (n - 1)). */
  function Next(idx: nat, n: nat): (i: nat)
    requires n > 0
    ensures i < n
  {
    (idx + 1) % n
  }

  /** The bucket d probe advances after start. */
  function Pos(start: nat, d: nat, n: nat): (i: nat)
    requires n > 0
    ensures i < n
  {
    (start + d) % n
  }

  /** A slot the probe for key passes over: occupied by a different key. */
  predicate Skips<T>(slot: Slot<T>, key: seq<byte>)
  {
    slot.Published? && slot.key != key
  }

  /** The first d buckets from start are all passed over. */
  ghost predicate PassedOver<T>(slots: seq<Slot<T>>, key: seq<byte>, start: nat, d: nat)
    requires |slots| > 0
  {
    forall j :: 0 <= j < d ==> Skips(slots[Pos(start, j, |slots|)], key)
  }

  /**
   * The probe loop of insert from bucket idx after nretry advances: stop at
   * an empty bucket or at a bucket holding an equal key, pass over any
   * other, and give up after MIN_NBUCKETS advances.
   */
  function Probe<T>(slots: seq<Slot<T>>, key: seq<byte>, idx: nat, nretry: nat): (r: Outcome)
    requires idx < |slots| && nretry <= MIN_NBUCKETS
    ensures r.Found? ==> r.index < |slots| && slots[r.index].Published? && slots[r.index].key == key
    ensures r.Inserted? ==> r.index < |slots| && slots[r.index].Empty?
    ensures !r.Unsized?
    decreases MIN_NBUCKETS - nretry
  {
    if nretry == MIN_NBUCKETS then Full
    else match slots[idx]
      case Empty => Inserted(idx)
      case Published(k, _) =>
        if |k| == |key| && k == key then Found(idx)
        else Probe(slots, key, Next(idx, |slots|), nretry + 1)
  }

  /**
   * One insert of key with the given hash and value: the outcome and the
   * table afterwards. An empty sequence stands for a table never sized.
   */
  function Insert<T>(slots: seq<Slot<T>>, key: seq<byte>, hash: u64, val: T): (res: (Outcome, seq<Slot<T>>))
    ensures |res.1| == |slots|
    ensures res.0.Unsized? <==> |slots| == 0
    ensures res.0.Found? ==> res.0.index < |slots| && slots[res.0.index].Published? && slots[res.0.index].key == key
    ensures res.0.Inserted? ==>
      res.0.index < |slots| && slots[res.0.index].Empty? && res.1[res.0.index] == Published(key, val)
    ensures forall i :: 0 <= i < |slots| && !(res.0.Inserted? && i == res.0.index) ==> res.1[i] == slots[i]
  {
    if |slots| == 0 then (Unsized, slots)
    else
      var r := Probe(slots, key, Start(hash, |slots|), 0);
      (r, if r.Inserted? then slots[r.index := Published(key, val)] else slots)
  }

  /** Stepping past a remainder agrees with stepping before reducing. */
  lemma ModSucc(a: nat, n: nat)
    requires n > 0
    ensures (a % n + 1) % n == (a + 1) % n
  {
    var q, m := a / n, a % n;
    if m + 1 < n {
      ModUnique(a + 1, n, q, m + 1);
      ModUnique(m + 1, n, 0, m + 1);
    } else {
      ModUnique(a + 1, n, q + 1, 0);
      ModUnique(m + 1, n, 1, 0);
    }
  }

  /**
   * The probe resumed d advances after start, with the first d buckets
   * passed over, stops within the bound at a bucket it does not pass over.
   */
  lemma {:induction false} ProbeScan<T>(slots: seq<Slot<T>>, key: seq<byte>, start: nat, d: nat)
    requires 0 < |slots| && start < |slots| && d <= MIN_NBUCKETS
    requires PassedOver(slots, key, start, d)
    ensures var r := Probe(slots, key, Pos(start, d, |slots|), d);
      && (r.Full? ==> PassedOver(slots, key, start, MIN_NBUCKETS))
      && (r.Found? || r.Inserted? ==>
            exists e :: d <= e < MIN_NBUCKETS && r.index == Pos(start, e, |slots|) && PassedOver(slots, key, start, e))
    decreases MIN_NBUCKETS - d
  {
    var n := |slots|;
    var i := Pos(start, d, n);
    if d < MIN_NBUCKETS && Skips(slots[i], key) {
      ModSucc(start + d, n);
      assert Next(i, n) == Pos(start, d + 1, n);
      ProbeScan(slots, key, start, d + 1);
    }
  }

  /**
   * The probe stops at the first bucket from the start that it does not
   * pass over, within MIN_NBUCKETS advances; it reports Full exactly when
   * the first MIN_NBUCKETS buckets are all occupied by other keys.
   */
  lemma ProbeStopsAtFirstNonSkip<T>(slots: seq<Slot<T>>, key: seq<byte>, hash: u64)
    requires |slots| > 0
    ensures var s := Start(hash, |slots|);
      var r := Probe(slots, key, s, 0);
      && (r.Full? <==> PassedOver(slots, key, s, MIN_NBUCKETS))
      && (r.Found? || r.Inserted? ==>
            exists e :: 0 <= e < MIN_NBUCKETS && r.index == Pos(s, e, |slots|) && PassedOver(slots, key, s, e))
  {
    var s := Start(hash, |slots|);
    assert Pos(s, 0, |slots|) == s;
    ProbeScan(slots, key, s, 0);
  }

  /** On a table of the minimum size, Full means every bucket holds some other key. */
  lemma FullMinimalTableHasNoRoom<T>(slots: seq<Slot<T>>, key: seq<byte>, hash: u64)
    requires |slots| == MIN_NBUCKETS
    requires Probe(slots, key, Start(hash, |slots|), 0) == Full
    ensures forall i :: 0 <= i < |slots| ==> Skips(slots[i], key)
  {
    var s := Start(hash, |slots|);
    ProbeStopsAtFirstNonSkip(slots, key, hash);
    forall i | 0 <= i < |slots|
      ensures Skips(slots[i], key)
    {
      var e := if s <= i then i - s else i + MIN_NBUCKETS - s;
      assert Pos(s, e, |slots|) == i;
    }
  }

  /** Filling an empty bucket off a probe's path does not change where that probe finds its key. */
  lemma {:induction false} ProbeFrame<T>(slots: seq<Slot<T>>, key: seq<byte>, idx: nat, nretry: nat, e: nat, x: Slot<T>)
    requires idx < |slots| && nretry <= MIN_NBUCKETS && e < |slots| && slots[e].Empty?
    requires Probe(slots, key, idx, nretry).Found?
    ensures Probe(slots[e := x], key, idx, nretry) == Probe(slots, key, idx, nretry)
    decreases MIN_NBUCKETS - nretry
  {
    assert idx != e;
    if !(slots[idx].key == key) {
      ProbeFrame(slots, key, Next(idx, |slots|), nretry + 1, e, x);
    }
  }

  /** After a key is stored where the probe for it stopped, the same probe finds it there. */
  lemma {:induction false} ProbeFindsInserted<T>(slots: seq<Slot<T>>, key: seq<byte>, idx: nat, nretry: nat, val: T)
    requires idx < |slots| && nretry <= MIN_NBUCKETS
    requires Probe(slots, key, idx, nretry).Inserted?
    ensures var e := Probe(slots, key, idx, nretry).index;
      Probe(slots[e := Published(key, val)], key, idx, nretry) == Found(e)
    decreases MIN_NBUCKETS - nretry
  {
    if slots[idx].Published? {
      ProbeFindsInserted(slots, key, Next(idx, |slots|), nretry + 1, val);
    }
  }

  /**
   * Inserting the same key twice with the same hash: the second call finds
   * the slot the first one reported and changes nothing, whatever value it
   * carries; a table that was full or unsized stays so.
   */
  lemma InsertTwice<T>(slots: seq<Slot<T>>, key: seq<byte>, hash: u64, v1: T, v2: T)
    ensures var (r1, s1) := Insert(slots, key, hash, v1);
      var (r2, s2) := Insert(s1, key, hash, v2);
      && s2 == s1
      && (r1.Found? || r1.Inserted? ==> r2 == Found(r1.index))
      && (r1.Full? || r1.Unsized? ==> r2 == r1)
  {
    if |slots| > 0 {
      var r1 := Probe(slots, key, Start(hash, |slots|), 0);
      if r1.Inserted? {
        ProbeFindsInserted(slots, key, Start(hash, |slots|), 0, v1);
      }
    }
  }

  /** The keys held by the table. */
  ghost function StoredKeys<T>(slots: seq<Slot<T>>): (stored: set<seq<byte>>)
  {
    set i | 0 <= i < |slots| && slots[i].Published? :: slots[i].key
  }

  /** Number of occupied buckets. */
  function Occupied<T>(slots: seq<Slot<T>>): (c: nat)
    ensures c <= |slots|
  {
    if slots == [] then 0
    else (if slots[0].Published? then 1 else 0) + Occupied(slots[1..])
  }

  /**
   * The table is consistent with the hash each key was inserted with:
   * hashes records exactly the stored keys, and the probe from each stored
   * key's hash finds it in the slot it occupies.
   */
  ghost predicate WellFormed<T>(slots: seq<Slot<T>>, hashes: map<seq<byte>, u64>)
  {
    && hashes.Keys == StoredKeys(slots)
    && forall i :: 0 <= i < |slots| && slots[i].Published? ==>
         slots[i].key in hashes && Probe(slots, slots[i].key, Start(hashes[slots[i].key], |slots|), 0) == Found(i)
  }

  /** A freshly sized table holds nothing, and its empty hash record is consistent with it. */
  lemma EmptyTableWellFormed<T>(n: nat)
    ensures StoredKeys(EmptyTable<T>(n)) == {} && Occupied(EmptyTable<T>(n)) == 0
    ensures WellFormed(EmptyTable<T>(n), map[])
  {
    EmptyOccupied(EmptyTable<T>(n));
  }

  /** A table with every bucket empty has no occupied bucket. */
  lemma {:induction false} EmptyOccupied<T>(slots: seq<Slot<T>>)
    requires forall i :: 0 <= i < |slots| ==> slots[i].Empty?
    ensures Occupied(slots) == 0
  {
    if slots != [] {
      EmptyOccupied(slots[1..]);
    }
  }

  /** In a well-formed table no two buckets hold equal keys. */
  lemma KeysUnique<T>(slots: seq<Slot<T>>, hashes: map<seq<byte>, u64>, i: nat, j: nat)
    requires WellFormed(slots, hashes)
    requires i < |slots| && j < |slots| && slots[i].Published? && slots[j].Published?
    requires slots[i].key == slots[j].key
    ensures i == j
  {
  }

  /**
   * Insert on a well-formed table, with the hash the key was stored under
   * if it is stored: it reports Found exactly when the key is already there,
   * and otherwise it adds the key (or the table is full).
   */
  lemma {:induction false} InsertReportsMembership<T>(slots: seq<Slot<T>>, hashes: map<seq<byte>, u64>, key: seq<byte>, hash: u64, val: T)
    requires WellFormed(slots, hashes)
    requires key in hashes ==> hashes[key] == hash
    ensures var (r, s) := Insert(slots, key, hash, val);
      && (r.Found? <==> key in StoredKeys(slots))
      && (r.Inserted? ==> StoredKeys(s) == StoredKeys(slots) + {key})
  {
    var (r, s) := Insert(slots, key, hash, val);
    if key in StoredKeys(slots) {
      var i :| 0 <= i < |slots| && slots[i].Published? && slots[i].key == key;
      assert r == Found(i);
    }
    if r.Inserted? {
      InsertedKeys(slots, r.index, key, val);
    }
  }

  /** Filling an empty bucket with key adds exactly key to the stored keys. */
  lemma InsertedKeys<T>(slots: seq<Slot<T>>, e: nat, key: seq<byte>, val: T)
    requires e < |slots| && slots[e].Empty?
    ensures StoredKeys(slots[e := Published(key, val)]) == StoredKeys(slots) + {key}
  {
    var s := slots[e := Published(key, val)];
    forall k | k in StoredKeys(slots) + {key}
      ensures k in StoredKeys(s)
    {
      if k == key {
        assert s[e].Published? && s[e].key == key;
      } else {
        var i :| 0 <= i < |slots| && slots[i].Published? && slots[i].key == k;
        assert s[i] == slots[i];
      }
    }
  }

  /** Insert keeps the table well-formed, adding the inserted key's hash to the record. */
  lemma InsertKeepsWellFormed<T>(slots: seq<Slot<T>>, hashes: map<seq<byte>, u64>, key: seq<byte>, hash: u64, val: T)
    requires WellFormed(slots, hashes)
    requires key in hashes ==> hashes[key] == hash
    ensures var (r, s) := Insert(slots, key, hash, val);
      WellFormed(s, if r.Inserted? then hashes[key := hash] else hashes)
  {
    var (r, s) := Insert(slots, key, hash, val);
    if r.Inserted? {
      var e := r.index;
      var h := hashes[key := hash];
      InsertReportsMembership(slots, hashes, key, hash, val);
      forall i | 0 <= i < |s| && s[i].Published?
        ensures s[i].key in h && Probe(s, s[i].key, Start(h[s[i].key], |s|), 0) == Found(i)
      {
        if i == e {
          ProbeFindsInserted(slots, key, Start(hash, |slots|), 0, val);
        } else {
          var k := slots[i].key;
          assert h[k] == hashes[k];
          ProbeFrame(slots, k, Start(hashes[k], |slots|), 0, e, Published(key, val));
        }
      }
    }
  }

  /** Filling an empty bucket raises the occupied count by one. */
  lemma {:induction false} OccupiedAfterFill<T>(slots: seq<Slot<T>>, e: nat, x: Slot<T>)
    requires e < |slots| && slots[e].Empty? && x.Published?
    ensures Occupied(slots[e := x]) == Occupied(slots) + 1
  {
    if e == 0 {
      assert slots[e := x][1..] == slots[1..];
    } else {
      assert slots[e := x][1..] == slots[1..][e - 1 := x];
      OccupiedAfterFill(slots[1..], e - 1, x);
    }
  }

  /** Only a successful claim changes the number of occupied buckets, and by exactly one. */
  lemma InsertOccupied<T>(slots: seq<Slot<T>>, key: seq<byte>, hash: u64, val: T)
    ensures var (r, s) := Insert(slots, key, hash, val);
      Occupied(s) == Occupied(slots) + (if r.Inserted? then 1 else 0)
  {
    var (r, s) := Insert(slots, key, hash, val);
    if r.Inserted? {
      OccupiedAfterFill(slots, r.index, Published(key, val));
    }
  }

  /** On a freshly sized table every key is new: it goes straight into its start bucket. */
  lemma InsertIntoEmptyTable<T>(n: nat, key: seq<byte>, hash: u64, val: T)
    requires n > 0
    ensures Insert(EmptyTable<T>(n), key, hash, val).0 == Inserted(Start(hash, n))
  {
  }
}
