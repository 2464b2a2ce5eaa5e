/**
 * The hash tables of the data-structure notes: a separate-chaining table whose buckets are
 * updated in place, a linear-probing table over a fixed row of slots, and the two hashing
 * exercises `twoSum` and `firstUniqueChar`.
 */
module HashTableNotes {
  import opened Wrappers
  import opened StringHash

  /** A stored `[key, value]` pair. */
  datatype Entry<V> = Entry(key: string, value: V)

  // ---------------------------------------------------------------------------------------
  // Separate chaining: what one bucket holds and how `set`, `get` and `delete` change it
  // ---------------------------------------------------------------------------------------

  predicate HasKey<V>(bucket: seq<Entry<V>>, key: string)
  {
    exists j :: 0 <= j < |bucket| && bucket[j].key == key
  }

  predicate DistinctKeys<V>(bucket: seq<Entry<V>>)
  {
    forall i, j :: 0 <= i < j < |bucket| ==> bucket[i].key != bucket[j].key
  }

  /** Every pair of `bucket` hashes to bucket `index`. */
  predicate InBucket<V>(bucket: seq<Entry<V>>, index: int, size: int)
  {
    size >= 1 && forall j :: 0 <= j < |bucket| ==> HashOf(bucket[j].key, size) == index
  }

  /** Where the scans over a bucket stop: the first pair holding `key`. */
  function FirstIndex<V>(bucket: seq<Entry<V>>, key: string): (j: nat)
    requires HasKey(bucket, key)
    ensures j < |bucket| && bucket[j].key == key
    ensures forall i :: 0 <= i < j ==> bucket[i].key != key
  {
    if bucket[0].key == key then 0
    else
      assert HasKey(bucket[1..], key) by {
        var j :| 0 <= j < |bucket| && bucket[j].key == key;
        assert bucket[1..][j - 1].key == key;
      }
      FirstIndex(bucket[1..], key) + 1
  }

  /** The value `get` returns: that of the first pair holding `key`, or none. */
  function Find<V>(bucket: seq<Entry<V>>, key: string): (r: Option<V>)
  {
    if HasKey(bucket, key) then Some(bucket[FirstIndex(bucket, key)].value) else None
  }

  /** The bucket after `set`: the first pair holding `key` is overwritten, or a new pair is pushed. */
  function Upsert<V>(bucket: seq<Entry<V>>, key: string, value: V): (r: seq<Entry<V>>)
    ensures HasKey(r, key) && |r| == if HasKey(bucket, key) then |bucket| else |bucket| + 1
    ensures forall i :: 0 <= i < |bucket| && bucket[i].key != key ==> r[i] == bucket[i]
    ensures forall e :: e in r ==> e in bucket || e == Entry(key, value)
  {
    if HasKey(bucket, key) then
      var j := FirstIndex(bucket, key);
      assert bucket[j := Entry(key, value)][j].key == key;
      bucket[j := Entry(key, value)]
    else
      assert (bucket + [Entry(key, value)])[|bucket|].key == key;
      bucket + [Entry(key, value)]
  }

  /** The bucket after `delete`: the first pair holding `key` is spliced out. */
  function RemoveFirst<V>(bucket: seq<Entry<V>>, key: string): (r: seq<Entry<V>>)
    ensures |r| == if HasKey(bucket, key) then |bucket| - 1 else |bucket|
    ensures forall e :: e in r ==> e in bucket
  {
    if HasKey(bucket, key) then
      var j := FirstIndex(bucket, key);
      bucket[..j] + bucket[j + 1..]
    else bucket
  }

  /** After `set(key, value)` the bucket answers `value` for `key`. */
  lemma UpsertFinds<V>(bucket: seq<Entry<V>>, key: string, value: V)
    ensures Find(Upsert(bucket, key, value), key) == Some(value)
  {
    var r := Upsert(bucket, key, value);
    if HasKey(bucket, key) {
      var j := FirstIndex(bucket, key);
      assert r[j].key == key;
      assert FirstIndex(r, key) == j;
    } else {
      assert r[|bucket|].key == key;
      assert FirstIndex(r, key) == |bucket|;
    }
  }

  /** `set(key, value)` changes the answer for no other key. */
  lemma UpsertKeepsOthers<V>(bucket: seq<Entry<V>>, key: string, value: V, other: string)
    requires other != key
    ensures Find(Upsert(bucket, key, value), other) == Find(bucket, other)
  {
    var r := Upsert(bucket, key, value);
    assert forall i :: 0 <= i < |bucket| ==> (r[i].key == other <==> bucket[i].key == other);
    if HasKey(bucket, other) {
      var j := FirstIndex(bucket, other);
      assert r[j].key == other;
      assert FirstIndex(r, other) == j;
    }
  }

  /**
   * `set` overwrites a key already in the bucket (the length stays) and otherwise appends
   * `[key, value]` at the end; keys stay distinct.
   */
  lemma {:induction false} UpsertShape<V>(bucket: seq<Entry<V>>, key: string, value: V)
    requires DistinctKeys(bucket)
    ensures HasKey(bucket, key) ==> |Upsert(bucket, key, value)| == |bucket|
    ensures !HasKey(bucket, key) ==> Upsert(bucket, key, value) == bucket + [Entry(key, value)]
    ensures DistinctKeys(Upsert(bucket, key, value))
  {
    var r := Upsert(bucket, key, value);
    if HasKey(bucket, key) {
      var j := FirstIndex(bucket, key);
      forall a, b | 0 <= a < b < |r| ensures r[a].key != r[b].key {
        assert r[a].key == bucket[a].key && r[b].key == bucket[b].key;
      }
    } else {
      forall a, b | 0 <= a < b < |r| ensures r[a].key != r[b].key {
        if b == |bucket| {
          assert bucket[a].key != key;
        }
      }
    }
  }

  /** `delete(key)` on a bucket with distinct keys leaves no pair for `key` and keeps keys distinct. */
  lemma RemoveFirstDrops<V>(bucket: seq<Entry<V>>, key: string)
    requires DistinctKeys(bucket)
    ensures Find(RemoveFirst(bucket, key), key) == None
    ensures DistinctKeys(RemoveFirst(bucket, key))
    ensures |RemoveFirst(bucket, key)| == if HasKey(bucket, key) then |bucket| - 1 else |bucket|
    ensures forall index, size :: InBucket(bucket, index, size) ==> InBucket(RemoveFirst(bucket, key), index, size)
  {
    var r := RemoveFirst(bucket, key);
    if HasKey(bucket, key) {
      var j := FirstIndex(bucket, key);
      assert forall i :: 0 <= i < |r| ==> r[i] == if i < j then bucket[i] else bucket[i + 1];
    }
  }

  /** `delete(key)` changes the answer for no other key, and keeps the order of the rest. */
  lemma RemoveFirstKeepsOthers<V>(bucket: seq<Entry<V>>, key: string, other: string)
    requires other != key
    ensures Find(RemoveFirst(bucket, key), other) == Find(bucket, other)
  {
    var r := RemoveFirst(bucket, key);
    if HasKey(bucket, key) {
      var j := FirstIndex(bucket, key);
      assert forall i :: 0 <= i < |r| ==> r[i] == if i < j then bucket[i] else bucket[i + 1];
      if HasKey(bucket, other) {
        var k := FirstIndex(bucket, other);
        var k' := if k < j then k else k - 1;
        assert r[k'] == bucket[k];
        assert FirstIndex(r, other) == k' by {
          forall i | 0 <= i < k' ensures r[i].key != other {
            assert r[i] == bucket[if i < j then i else i + 1];
          }
        }
      }
    }
  }

  /** Upserting into the bucket of `key` keeps every bucket well formed and changes the answer for `key` only. */
  lemma UpsertTable<V>(t: seq<seq<Entry<V>>>, size: int, key: string, value: V)
    requires size >= 1 && |t| == size
    requires forall i :: 0 <= i < size ==> DistinctKeys(t[i]) && InBucket(t[i], i, size)
    ensures var t' := t[HashOf(key, size) := Upsert(t[HashOf(key, size)], key, value)];
      (forall i :: 0 <= i < size ==> DistinctKeys(t'[i]) && InBucket(t'[i], i, size)) &&
      Find(t'[HashOf(key, size)], key) == Some(value) &&
      forall k :: k != key ==> Find(t'[HashOf(k, size)], k) == Find(t[HashOf(k, size)], k)
  {
    var h := HashOf(key, size);
    var t' := t[h := Upsert(t[h], key, value)];
    UpsertShape(t[h], key, value);
    UpsertFinds(t[h], key, value);
    forall k | k != key
      ensures Find(t'[HashOf(k, size)], k) == Find(t[HashOf(k, size)], k)
    {
      if HashOf(k, size) == h {
        UpsertKeepsOthers(t[h], key, value, k);
      }
    }
  }

  /** `HashTable`: an array of buckets, each a list of `[key, value]` pairs. */
  class ChainingTable<V> {
    const size: int
    /** `table[i]` is bucket `i`; a bucket never created reads as the empty one. */
    var table: seq<seq<Entry<V>>>

    ghost predicate Valid()
      reads this
    {
      size >= 1 && |table| == size &&
      forall i :: 0 <= i < size ==> DistinctKeys(table[i]) && InBucket(table[i], i, size)
    }

    /** What `get(key)` answers in the current state. */
    ghost function Lookup(key: string): Option<V>
      reads this
      requires Valid()
    {
      Find(table[HashOf(key, size)], key)
    }

    /** `new HashTable(size)`: every bucket empty, so every key is absent. */
    constructor(size: int := 10)
      requires size >= 1
      ensures Valid() && this.size == size
      ensures forall i :: 0 <= i < size ==> table[i] == []
      ensures forall key :: Lookup(key) == None
    {
      this.size := size;
      table := seq(size, _ => []);
    }

    /** `set(key, value)`: insert, or update the pair already holding `key`. */
    method Set(key: string, value: V)
      requires Valid()
      modifies this
      ensures Valid()
      ensures table == old(table)[HashOf(key, size) := Upsert(old(table)[HashOf(key, size)], key, value)]
      ensures Lookup(key) == Some(value)
      ensures forall k :: k != key ==> Lookup(k) == old(Lookup(k))
    {
      var index := SimpleHash(key, size);
      var bucket := table[index];
      var j := 0;
      while j < |bucket| && bucket[j].key != key
        invariant 0 <= j <= |bucket|
        invariant forall i :: 0 <= i < j ==> bucket[i].key != key
      {
        j := j + 1;
      }
      if j < |bucket| {
        assert FirstIndex(bucket, key) == j;
        table := table[index := bucket[j := Entry(key, value)]];
      } else {
        table := table[index := bucket + [Entry(key, value)]];
      }
      UpsertTable(old(table), size, key, value);
    }

    /** `get(key)`: the value of the pair holding `key` in its bucket, or none. */
    method Get(key: string) returns (r: Option<V>)
      requires Valid()
      ensures r == Lookup(key)
    {
      var index := SimpleHash(key, size);
      var bucket := table[index];
      var j := 0;
      while j < |bucket| && bucket[j].key != key
        invariant 0 <= j <= |bucket|
        invariant forall i :: 0 <= i < j ==> bucket[i].key != key
      {
        j := j + 1;
      }
      if j < |bucket| {
        assert FirstIndex(bucket, key) == j;
        r := Some(bucket[j].value);
      } else {
        r := None;
      }
    }

    /** `delete(key)`: splice out the pair holding `key`; report whether there was one. */
    method Delete(key: string) returns (deleted: bool)
      requires Valid()
      modifies this
      ensures Valid()
      ensures deleted == old(Lookup(key)).Some?
      ensures table == old(table)[HashOf(key, size) := RemoveFirst(old(table)[HashOf(key, size)], key)]
      ensures Lookup(key) == None
      ensures forall k :: k != key ==> Lookup(k) == old(Lookup(k))
    {
      var index := SimpleHash(key, size);
      var bucket := table[index];
      var j := 0;
      while j < |bucket| && bucket[j].key != key
        invariant 0 <= j <= |bucket|
        invariant forall i :: 0 <= i < j ==> bucket[i].key != key
      {
        j := j + 1;
      }
      deleted := j < |bucket|;
      if deleted {
        assert FirstIndex(bucket, key) == j;
        table := table[index := bucket[..j] + bucket[j + 1..]];
      }
      RemoveFirstDrops(bucket, key);
      forall k | k != key
        ensures Find(table[HashOf(k, size)], k) == Find(old(table)[HashOf(k, size)], k)
      {
        if HashOf(k, size) == index {
          RemoveFirstKeepsOthers(bucket, key, k);
        }
      }
    }
  }

  // ---------------------------------------------------------------------------------------
  // Linear probing: a row of slots searched cyclically from the key's hash
  // ---------------------------------------------------------------------------------------

  /**
   * A slot of the probing table: `null`, a pair, or a tombstone. The table as written only
   * ever holds `null` and pairs; tombstones appear only under the corrected delete below.
   */
  datatype Slot<V> = Empty | Deleted | Full(entry: Entry<V>)

  /** A probe for `key` stops at this slot: it is `null` or holds `key`. */
  predicate Stops<V>(slot: Slot<V>, key: string)
  {
    slot.Empty? || (slot.Full? && slot.entry.key == key)
  }

  /** Some slot stops a probe for `key`; without one the probing loops never end. */
  predicate CanStop<V>(t: seq<Slot<V>>, key: string)
  {
    exists i :: 0 <= i < |t| && Stops(t[i], key)
  }

  /** The slot `e` steps of `index = (index + 1) % size` after slot `h`. */
  function Cyc(h: int, e: int, n: int): (i: int)
    requires 0 <= h < n && 0 <= e < n
    ensures 0 <= i < n
  {
    if h + e < n then h + e else h + e - n
  }

  /** How many steps lead from slot `from` to slot `to`. */
  function Offset(from: int, to: int, n: int): (d: nat)
    requires 0 <= from < n && 0 <= to < n
    ensures d < n && Cyc(from, d, n) == to
  {
    if from <= to then to - from else to + n - from
  }

  /** One probing step, `(index + 1) % size`, moves one slot further along the cycle. */
  lemma NextSlot(h: int, e: int, n: int)
    requires 0 <= h < n && 0 <= e && e + 1 < n
    ensures (Cyc(h, e, n) + 1) % n == Cyc(h, e + 1, n)
  {
    var i := Cyc(h, e, n);
    if i + 1 < n {
      ModUnique(i + 1, 0, i + 1, n);
    } else {
      ModUnique(i + 1, 1, 0, n);
    }
  }

  /** The least offset `e >= d` whose slot, counted cyclically from `start`, stops a probe for `key`. */
  function FirstStop<V>(t: seq<Slot<V>>, key: string, start: int, d: nat): (e: nat)
    requires 0 <= start < |t| && d <= |t|
    requires exists e :: d <= e < |t| && Stops(t[Cyc(start, e, |t|)], key)
    ensures d <= e < |t| && Stops(t[Cyc(start, e, |t|)], key)
    ensures forall e' :: d <= e' < e ==> !Stops(t[Cyc(start, e', |t|)], key)
    decreases |t| - d
  {
    if Stops(t[Cyc(start, d, |t|)], key) then d else FirstStop(t, key, start, d + 1)
  }

  /** A slot that stops the probe is met within one turn of the table from any start. */
  lemma ProbeReachesStop<V>(t: seq<Slot<V>>, key: string, start: int)
    requires 0 <= start < |t| && CanStop(t, key)
    ensures exists e :: 0 <= e < |t| && Stops(t[Cyc(start, e, |t|)], key)
  {
    var i :| 0 <= i < |t| && Stops(t[i], key);
    var e := Offset(start, i, |t|);
    assert Stops(t[Cyc(start, e, |t|)], key);
  }

  /**
   * The slot where the loops of `set`, `get` and `delete` stop: the first slot, cyclically
   * from the key's hash, that is `null` or holds the key.
   */
  function ProbeSlot<V>(t: seq<Slot<V>>, key: string): (p: nat)
    requires |t| >= 1 && CanStop(t, key)
    ensures p < |t| && Stops(t[p], key)
    ensures forall e :: 0 <= e < Offset(HashOf(key, |t|), p, |t|) ==>
      !Stops(t[Cyc(HashOf(key, |t|), e, |t|)], key)
  {
    var h := HashOf(key, |t|);
    ProbeReachesStop(t, key, h);
    Cyc(h, FirstStop(t, key, h, 0), |t|)
  }

  /** The slots after `set(key, value)`. */
  function ProbeSet<V>(t: seq<Slot<V>>, key: string, value: V): (t': seq<Slot<V>>)
    requires |t| >= 1 && CanStop(t, key)
    ensures |t'| == |t| && t'[ProbeSlot(t, key)] == Full(Entry(key, value))
    ensures forall i :: 0 <= i < |t| && i != ProbeSlot(t, key) ==> t'[i] == t[i]
  {
    t[ProbeSlot(t, key) := Full(Entry(key, value))]
  }

  /** What `get(key)` answers. */
  function ProbeGet<V>(t: seq<Slot<V>>, key: string): (r: Option<V>)
    requires |t| >= 1 && CanStop(t, key)
    ensures r.Some? ==> exists i :: 0 <= i < |t| && t[i] == Full(Entry(key, r.value))
  {
    var p := ProbeSlot(t, key);
    if t[p].Full? then Some(t[p].entry.value) else None
  }

  /** The slots after `delete(key)` as written: the matching slot becomes `null` again. */
  function ProbeDeleteAsWritten<V>(t: seq<Slot<V>>, key: string): (r: (seq<Slot<V>>, bool))
    requires |t| >= 1 && CanStop(t, key)
    ensures r.1 <==> ProbeGet(t, key).Some?
    ensures !r.1 ==> r.0 == t
    ensures r.1 ==> |r.0| == |t| && r.0[ProbeSlot(t, key)] == Empty
    ensures r.1 ==> forall i :: 0 <= i < |t| && i != ProbeSlot(t, key) ==> r.0[i] == t[i]
  {
    var p := ProbeSlot(t, key);
    if t[p].Full? then (t[p := Empty], true) else (t, false)
  }

  /** The slots after a delete that leaves a tombstone, which later probes step over. */
  function ProbeDelete<V>(t: seq<Slot<V>>, key: string): (r: (seq<Slot<V>>, bool))
    requires |t| >= 1 && CanStop(t, key)
    ensures r.1 <==> ProbeGet(t, key).Some?
    ensures !r.1 ==> r.0 == t
    ensures r.1 ==> |r.0| == |t| && r.0[ProbeSlot(t, key)] == Deleted
    ensures r.1 ==> forall i :: 0 <= i < |t| && i != ProbeSlot(t, key) ==> r.0[i] == t[i]
  {
    var p := ProbeSlot(t, key);
    if t[p].Full? then (t[p := Deleted], true) else (t, false)
  }

  /**
   * Every stored pair is reachable: each slot on the cyclic path from the pair's hash up to
   * the pair itself is occupied by some other key, so a probe for the key cannot stop early.
   */
  ghost predicate ChainsIntact<V>(t: seq<Slot<V>>)
  {
    |t| >= 1 &&
    forall i, j :: 0 <= i < |t| && 0 <= j < |t| && t[i].Full? &&
      Offset(HashOf(t[i].entry.key, |t|), j, |t|) < Offset(HashOf(t[i].entry.key, |t|), i, |t|)
      ==> !Stops(t[j], t[i].entry.key)
  }

  /** With intact chains `get` finds every stored pair, at the slot where it is stored. */
  lemma ProbeGetFindsStored<V>(t: seq<Slot<V>>, i: int)
    requires ChainsIntact(t) && 0 <= i < |t| && t[i].Full?
    ensures CanStop(t, t[i].entry.key)
    ensures ProbeSlot(t, t[i].entry.key) == i
    ensures ProbeGet(t, t[i].entry.key) == Some(t[i].entry.value)
  {
    var key := t[i].entry.key;
    var n := |t|;
    assert Stops(t[i], key);
    var h := HashOf(key, n);
    var p := ProbeSlot(t, key);
    var op, oi := Offset(h, p, n), Offset(h, i, n);
    if op < oi {
      assert false;
    } else if oi < op {
      assert false;
    }
  }

  /** With intact chains a key is stored in at most one slot. */
  lemma ChainsUniqueKeys<V>(t: seq<Slot<V>>, i: int, j: int)
    requires ChainsIntact(t) && 0 <= i < |t| && 0 <= j < |t| && t[i].Full? && t[j].Full?
    requires t[i].entry.key == t[j].entry.key
    ensures i == j
  {
    ProbeGetFindsStored(t, i);
    ProbeGetFindsStored(t, j);
  }

  /** `set` keeps every chain intact. */
  lemma ProbeSetKeepsChains<V>(t: seq<Slot<V>>, key: string, value: V)
    requires ChainsIntact(t) && CanStop(t, key)
    ensures ChainsIntact(ProbeSet(t, key, value))
  {
    var n := |t|;
    var p := ProbeSlot(t, key);
    var t' := ProbeSet(t, key, value);
    var h := HashOf(key, n);
    forall i, j | 0 <= i < n && 0 <= j < n && t'[i].Full? &&
      Offset(HashOf(t'[i].entry.key, n), j, n) < Offset(HashOf(t'[i].entry.key, n), i, n)
      ensures !Stops(t'[j], t'[i].entry.key)
    {
      if i == p {
        assert !Stops(t[Cyc(h, Offset(h, j, n), n)], key);
      } else if j == p {
        assert !Stops(t[p], t[i].entry.key);
      }
    }
  }

  /** After `set(key, value)`, `get(key)` answers `value`. */
  lemma ProbeSetThenGet<V>(t: seq<Slot<V>>, key: string, value: V)
    requires |t| >= 1 && CanStop(t, key)
    ensures CanStop(ProbeSet(t, key, value), key)
    ensures ProbeGet(ProbeSet(t, key, value), key) == Some(value)
  {
    var n := |t|;
    var p := ProbeSlot(t, key);
    var t' := ProbeSet(t, key, value);
    assert Stops(t'[p], key);
    var h := HashOf(key, n);
    var p' := ProbeSlot(t', key);
    var o, o' := Offset(h, p, n), Offset(h, p', n);
    if o' < o {
      assert false;
    } else if o < o' {
      assert false;
    }
  }

  /**
   * The corrected delete keeps every chain intact: the tombstone is occupied for later probes
   * and holds no key. The deleted key is then gone from the table.
   */
  lemma ProbeDeleteKeepsChains<V>(t: seq<Slot<V>>, key: string)
    requires ChainsIntact(t) && CanStop(t, key)
    ensures ChainsIntact(ProbeDelete(t, key).0)
    ensures forall i :: 0 <= i < |t| && ProbeDelete(t, key).0[i].Full? ==> ProbeDelete(t, key).0[i].entry.key != key
    ensures ProbeDelete(t, key).1 <==> exists i :: 0 <= i < |t| && t[i].Full? && t[i].entry.key == key
  {
    var p := ProbeSlot(t, key);
    forall i | 0 <= i < |t| && t[i].Full? && t[i].entry.key == key
      ensures i == p
    {
      ProbeGetFindsStored(t, i);
    }
  }

  /**
   * The delete as written loses keys: in a table of two slots, "a" and "c" both hash to slot 1,
   * so "c" is stored in slot 0 after "a"; deleting "a" empties slot 1 and `get("c")` then stops
   * there and answers null although "c" is still stored.
   */
  lemma ProbeDeleteAsWrittenLosesKey()
    ensures HashOf("a", 2) == 1 && HashOf("c", 2) == 1
    ensures var t0: seq<Slot<int>> := [Empty, Empty];
      CanStop(t0, "a") && CanStop(ProbeSet(t0, "a", 10), "c") &&
      var t := ProbeSet(ProbeSet(t0, "a", 10), "c", 20);
      t == [Full(Entry("c", 20)), Full(Entry("a", 10))] &&
      CanStop(t, "c") && ProbeGet(t, "c") == Some(20) && CanStop(t, "a") &&
      var t' := ProbeDeleteAsWritten(t, "a").0;
      t' == [Full(Entry("c", 20)), Empty] && CanStop(t', "c") && ProbeGet(t', "c") == None
  {
    assert "a"[..0] == "" && "c"[..0] == "";
    assert HashOf("a", 2) == (HashOf("", 2) + Code('a') * 23) % 2 == 1;
    assert HashOf("c", 2) == (HashOf("", 2) + Code('c') * 23) % 2 == 1;
    var t0: seq<Slot<int>> := [Empty, Empty];
    assert Stops(t0[1], "a");
    assert ProbeSlot(t0, "a") == 1;
    var t1 := ProbeSet(t0, "a", 10);
    assert Stops(t1[0], "c");
    assert ProbeSlot(t1, "c") == 0 by { assert !Stops(t1[Cyc(1, 0, 2)], "c"); }
    var t := ProbeSet(t1, "c", 20);
    assert Stops(t[0], "c") && Stops(t[1], "a");
    assert ProbeSlot(t, "c") == 0 by { assert !Stops(t[Cyc(1, 0, 2)], "c"); }
    assert ProbeSlot(t, "a") == 1;
    var t' := ProbeDeleteAsWritten(t, "a").0;
    assert Stops(t'[1], "c");
    assert ProbeSlot(t', "c") == 1;
  }

  /** `HashTableLinearProbing`: a fixed row of `size` slots, all `null` at first. */
  class ProbingTable<V> {
    const size: int
    var table: seq<Slot<V>>

    ghost predicate Valid()
      reads this
    {
      size >= 1 && |table| == size && forall i :: 0 <= i < size ==> !table[i].Deleted?
    }

    constructor(size: int := 10)
      requires size >= 1
      ensures Valid() && this.size == size
      ensures forall i :: 0 <= i < size ==> table[i] == Empty
      ensures ChainsIntact(table)
    {
      this.size := size;
      table := seq(size, _ => Empty);
    }

    /** The probing loop shared by `set`, `get` and `delete`: from the hash, step until a slot stops. */
    method Probe(key: string) returns (index: nat)
      requires Valid() && CanStop(table, key)
      ensures index == ProbeSlot(table, key)
    {
      var h := SimpleHash(key, size);
      ProbeReachesStop(table, key, h);
      ghost var stop := FirstStop(table, key, h, 0);
      ghost var d := 0;
      index := h;
      while table[index].Full? && table[index].entry.key != key
        invariant 0 <= d <= stop && index == Cyc(h, d, size)
        invariant forall e :: 0 <= e < d ==> !Stops(table[Cyc(h, e, size)], key)
        decreases size - d
      {
        NextSlot(h, d, size);
        index := (index + 1) % size;
        d := d + 1;
      }
    }

    /** `set(key, value)`: write the pair at the first slot that is `null` or holds `key`. */
    method Set(key: string, value: V)
      requires Valid() && CanStop(table, key)
      modifies this
      ensures Valid()
      ensures table == ProbeSet(old(table), key, value)
    {
      var index := Probe(key);
      table := table[index := Full(Entry(key, value))];
    }

    /** `get(key)`: the value at the slot where the probe stops, or none if that slot is `null`. */
    method Get(key: string) returns (r: Option<V>)
      requires Valid() && CanStop(table, key)
      ensures r == ProbeGet(table, key)
    {
      var index := Probe(key);
      if table[index].Full? {
        r := Some(table[index].entry.value);
      } else {
        r := None;
      }
    }

    /** `delete(key)`: set the slot where the probe stops back to `null` if it holds `key`. */
    method Delete(key: string) returns (deleted: bool)
      requires Valid() && CanStop(table, key)
      modifies this
      ensures Valid()
      ensures (table, deleted) == ProbeDeleteAsWritten(old(table), key)
    {
      var index := Probe(key);
      deleted := table[index].Full?;
      if deleted {
        table := table[index := Empty];
      }
    }
  }

  // ---------------------------------------------------------------------------------------
  // Hashing exercises
  // ---------------------------------------------------------------------------------------

  /** Indices `i < j` whose numbers add up to `target`. */
  predicate SumPair(nums: seq<int>, target: int, i: int, j: int)
  {
    0 <= i < j < |nums| && nums[i] + nums[j] == target
  }

  /**
   * `twoSum`: scanning left to right, the first `j` that completes a pair, together with the
   * latest earlier index holding `target - nums[j]` (the map keeps the last index seen for each
   * number); none when no pair adds up to `target`.
   */
  method TwoSum(nums: seq<int>, target: int) returns (r: Option<(int, int)>)
    ensures r.Some? ==> SumPair(nums, target, r.value.0, r.value.1)
    ensures r.Some? ==> forall i, j :: 0 <= i < j < r.value.1 ==> !SumPair(nums, target, i, j)
    ensures r.Some? ==> forall i :: r.value.0 < i < r.value.1 ==> nums[i] != nums[r.value.0]
    ensures r.None? ==> forall i, j :: !SumPair(nums, target, i, j)
  {
    var seen: map<int, int> := map[];
    for j := 0 to |nums|
      invariant forall i :: 0 <= i < j ==> nums[i] in seen
      invariant forall x :: x in seen ==> 0 <= seen[x] < j && nums[seen[x]] == x
      invariant forall x, i :: x in seen && seen[x] < i < j ==> nums[i] != x
      invariant forall a, b :: 0 <= a < b < j ==> !SumPair(nums, target, a, b)
    {
      var needed := target - nums[j];
      if needed in seen {
        return Some((seen[needed], j));
      }
      seen := seen[nums[j] := j];
    }
    return None;
  }

  /** How often `c` occurs in `s`. */
  function Occurrences(s: string, c: char): nat
  {
    multiset(s)[c]
  }

  /** `firstUniqueChar`: the first index whose character occurs exactly once, or -1. */
  method FirstUniqueChar(s: string) returns (r: int)
    ensures -1 <= r < |s|
    ensures r >= 0 ==> Occurrences(s, s[r]) == 1
    ensures forall j :: 0 <= j < |s| && (r == -1 || j < r) ==> Occurrences(s, s[j]) != 1
  {
    var counts: map<char, nat> := map[];
    for i := 0 to |s|
      invariant forall j :: 0 <= j < i ==> s[j] in counts
      invariant forall c :: c in counts ==> counts[c] == multiset(s[..i])[c]
    {
      assert s[..i + 1] == s[..i] + [s[i]];
      counts := counts[s[i] := (if s[i] in counts then counts[s[i]] else 0) + 1];
    }
    assert s[..|s|] == s;
    for i := 0 to |s|
      invariant forall j :: 0 <= j < i ==> Occurrences(s, s[j]) != 1
    {
      if counts[s[i]] == 1 {
        return i;
      }
    }
    return -1;
  }
}
