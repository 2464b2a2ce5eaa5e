/**
 * The hash table of the course exercises (constructor, `set`, `get`): a row of buckets that
 * start out undefined, a `set` that always appends `[key, value]` to the key's bucket, even
 * when the key is already there, and a `get` that answers the first match.
 */
module CourseHashTable {
  import opened Wrappers
  import opened StringHash
  import opened HashTableNotes

  /** The pairs of a bucket; a bucket never created holds none. */
  function Pairs<V>(bucket: Option<seq<Entry<V>>>): seq<Entry<V>>
  {
    if bucket.Some? then bucket.value else []
  }

  /**
   * Appending a pair keeps the first match: the answer for a key changes only when that key
   * was not in the bucket before, and then it is the appended value.
   */
  lemma AppendKeepsFirstMatch<V>(bucket: seq<Entry<V>>, key: string, value: V, other: string)
    ensures Find(bucket + [Entry(key, value)], other) ==
      if other == key && !HasKey(bucket, key) then Some(value) else Find(bucket, other)
  {
    var r := bucket + [Entry(key, value)];
    if HasKey(bucket, other) {
      var j := FirstIndex(bucket, other);
      assert r[j] == bucket[j];
      assert FirstIndex(r, other) == j;
    } else if other == key {
      assert r[|bucket|].key == key;
      assert FirstIndex(r, key) == |bucket|;
    } else {
      assert forall i :: 0 <= i < |r| ==> r[i].key != other;
    }
  }

  /** The row of buckets after `set(key, value)`: the pair is pushed onto the key's bucket. */
  function Appended<V>(dataMap: seq<Option<seq<Entry<V>>>>, key: string, value: V): seq<Option<seq<Entry<V>>>>
    requires |dataMap| >= 1
  {
    var h := HashOf(key, |dataMap|);
    dataMap[h := Some(Pairs(dataMap[h]) + [Entry(key, value)])]
  }

  /** What `get(key)` answers on a row of buckets. */
  function LookupIn<V>(dataMap: seq<Option<seq<Entry<V>>>>, key: string): Option<V>
    requires |dataMap| >= 1
  {
    Find(Pairs(dataMap[HashOf(key, |dataMap|)]), key)
  }

  /**
   * After `set(key, value)`, `get(key)` answers `value` if the key was absent and the earlier
   * value otherwise (first match wins); every other key keeps its answer.
   */
  lemma SetThenGet<V>(dataMap: seq<Option<seq<Entry<V>>>>, key: string, value: V, other: string)
    requires |dataMap| >= 1
    ensures LookupIn(Appended(dataMap, key, value), other) ==
      if other == key && LookupIn(dataMap, key).None? then Some(value) else LookupIn(dataMap, other)
  {
    var h := HashOf(key, |dataMap|);
    if HashOf(other, |dataMap|) == h {
      AppendKeepsFirstMatch(Pairs(dataMap[h]), key, value, other);
    }
  }

  lemma HashOfNails()
    ensures HashOf("nails", 7) == 6
  {
    assert "" + ['n'] == "n";
    HashSnoc("", 'n', 7);
    assert HashOf("n", 7) == 3;
    assert "n" + ['a'] == "na";
    HashSnoc("n", 'a', 7);
    assert HashOf("na", 7) == 1;
    assert "na" + ['i'] == "nai";
    HashSnoc("na", 'i', 7);
    assert HashOf("nai", 7) == 1;
    assert "nai" + ['l'] == "nail";
    HashSnoc("nai", 'l', 7);
    assert HashOf("nail", 7) == 0;
    assert "nail" + ['s'] == "nails";
    HashSnoc("nail", 's', 7);
    assert HashOf("nails", 7) == 6;
  }

  lemma HashOfTile()
    ensures HashOf("tile", 7) == 6
  {
    assert "" + ['t'] == "t";
    HashSnoc("", 't', 7);
    assert HashOf("t", 7) == 1;
    assert "t" + ['i'] == "ti";
    HashSnoc("t", 'i', 7);
    assert HashOf("ti", 7) == 1;
    assert "ti" + ['l'] == "til";
    HashSnoc("ti", 'l', 7);
    assert HashOf("til", 7) == 0;
    assert "til" + ['e'] == "tile";
    HashSnoc("til", 'e', 7);
    assert HashOf("tile", 7) == 6;
  }

  lemma HashOfLumber()
    ensures HashOf("lumber", 7) == 6
  {
    assert "" + ['l'] == "l";
    HashSnoc("", 'l', 7);
    assert HashOf("l", 7) == 6;
    assert "l" + ['u'] == "lu";
    HashSnoc("l", 'u', 7);
    assert HashOf("lu", 7) == 2;
    assert "lu" + ['m'] == "lum";
    HashSnoc("lu", 'm', 7);
    assert HashOf("lum", 7) == 3;
    assert "lum" + ['b'] == "lumb";
    HashSnoc("lum", 'b', 7);
    assert HashOf("lumb", 7) == 3;
    assert "lumb" + ['e'] == "lumbe";
    HashSnoc("lumb", 'e', 7);
    assert HashOf("lumbe", 7) == 2;
    assert "lumbe" + ['r'] == "lumber";
    HashSnoc("lumbe", 'r', 7);
    assert HashOf("lumber", 7) == 6;
  }

  lemma HashOfBolts()
    ensures HashOf("bolts", 7) == 4
  {
    assert "" + ['b'] == "b";
    HashSnoc("", 'b', 7);
    assert HashOf("b", 7) == 0;
    assert "b" + ['o'] == "bo";
    HashSnoc("b", 'o', 7);
    assert HashOf("bo", 7) == 5;
    assert "bo" + ['l'] == "bol";
    HashSnoc("bo", 'l', 7);
    assert HashOf("bol", 7) == 4;
    assert "bol" + ['t'] == "bolt";
    HashSnoc("bol", 't', 7);
    assert HashOf("bolt", 7) == 5;
    assert "bolt" + ['s'] == "bolts";
    HashSnoc("bolt", 's', 7);
    assert HashOf("bolts", 7) == 4;
  }

  lemma HashOfScrews()
    ensures HashOf("screws", 7) == 3
  {
    assert "" + ['s'] == "s";
    HashSnoc("", 's', 7);
    assert HashOf("s", 7) == 6;
    assert "s" + ['c'] == "sc";
    HashSnoc("s", 'c', 7);
    assert HashOf("sc", 7) == 1;
    assert "sc" + ['r'] == "scr";
    HashSnoc("sc", 'r', 7);
    assert HashOf("scr", 7) == 5;
    assert "scr" + ['e'] == "scre";
    HashSnoc("scr", 'e', 7);
    assert HashOf("scre", 7) == 4;
    assert "scre" + ['w'] == "screw";
    HashSnoc("scre", 'w', 7);
    assert HashOf("screw", 7) == 4;
    assert "screw" + ['s'] == "screws";
    HashSnoc("screw", 's', 7);
    assert HashOf("screws", 7) == 3;
  }

  /** The hashes of the keys of the worked examples, in a table of 7 buckets. */
  lemma ExampleKeyHashes()
    ensures HashOf("nails", 7) == 6 && HashOf("tile", 7) == 6 && HashOf("lumber", 7) == 6 && HashOf("bolts", 7) == 4 && HashOf("screws", 7) == 3
  {
    HashOfNails();
    HashOfTile();
    HashOfLumber();
    HashOfBolts();
    HashOfScrews();
  }

  /** `HashTable`: `dataMap` is a row of buckets, each undefined or a list of `[key, value]` pairs. */
  class HashTable<V> {
    var dataMap: seq<Option<seq<Entry<V>>>>

    ghost predicate Valid()
      reads this
    {
      |dataMap| >= 1 && forall i :: 0 <= i < |dataMap| ==> InBucket(Pairs(dataMap[i]), i, |dataMap|)
    }

    /** `new HashTable(size)`, 7 buckets by default, every one undefined. */
    constructor(size: int := 7)
      requires size >= 1
      ensures Valid() && |dataMap| == size
      ensures forall i :: 0 <= i < size ==> dataMap[i] == None
      ensures forall key :: LookupIn(dataMap, key) == None
    {
      dataMap := seq(size, _ => None);
    }

    /** `_hash(key)`: the accumulator loop, reduced modulo `dataMap.length` at every step. */
    method Hash(key: string) returns (h: int)
      requires |dataMap| >= 1
      ensures h == HashOf(key, |dataMap|) && 0 <= h < |dataMap|
      ensures h == (23 * CodeSum(key)) % |dataMap|
    {
      h := SimpleHash(key, |dataMap|);
      HashIsScaledCodeSum(key, |dataMap|);
    }

    /** `set(key, value)`: create the bucket if it is undefined, push the pair, return the table. */
    method Set(key: string, value: V) returns (table: HashTable<V>)
      requires Valid()
      modifies this
      ensures Valid() && table == this
      ensures dataMap == Appended(old(dataMap), key, value)
    {
      var index := Hash(key);
      if dataMap[index].None? {
        dataMap := dataMap[index := Some([])];
      }
      var bucket := dataMap[index].value;
      dataMap := dataMap[index := Some(bucket + [Entry(key, value)])];
      table := this;
      assert InBucket(bucket + [Entry(key, value)], index, |dataMap|);
    }

    /** `get(key)`: scan the key's bucket from index 0; undefined when no pair matches. */
    method Get(key: string) returns (r: Option<V>)
      requires Valid()
      ensures r == LookupIn(dataMap, key)
    {
      var index := Hash(key);
      r := None;
      if dataMap[index].Some? {
        var bucket := dataMap[index].value;
        for i := 0 to |bucket|
          invariant forall j :: 0 <= j < i ==> bucket[j].key != key
        {
          if bucket[i].key == key {
            assert FirstIndex(bucket, key) == i;
            return Some(bucket[i].value);
          }
        }
      }
    }
  }

  /** The constructor exercise: a default table has 7 buckets, all undefined. */
  method ConstructorExample() returns (t: HashTable<int>)
    ensures |t.dataMap| == 7 && forall i :: 0 <= i < 7 ==> t.dataMap[i] == None
  {
    t := new HashTable();
  }

  /** The first three keys of the `set` exercise, which all land in the last bucket, in order. */
  method SetSameBucket() returns (t: HashTable<int>)
    ensures t.Valid() && fresh(t)
    ensures t.dataMap == [None, None, None, None, None, None,
      Some([Entry("nails", 100), Entry("tile", 50), Entry("lumber", 80)])]
  {
    ExampleKeyHashes();
    var nails, tile, lumber := Entry("nails", 100), Entry("tile", 50), Entry("lumber", 80);
    t := new HashTable();
    assert t.dataMap == [None, None, None, None, None, None, None];
    var _ := t.Set("nails", 100);
    assert [] + [nails] == [nails];
    assert t.dataMap == [None, None, None, None, None, None, Some([nails])];
    var _ := t.Set("tile", 50);
    assert [nails] + [tile] == [nails, tile];
    assert t.dataMap == [None, None, None, None, None, None, Some([nails, tile])];
    var _ := t.Set("lumber", 80);
    assert [nails, tile] + [lumber] == [nails, tile, lumber];
  }

  /** The `set` exercise: five keys in a table of 7 buckets. */
  method SetExample() returns (t: HashTable<int>)
    ensures t.dataMap == [None, None, None, Some([Entry("screws", 140)]), Some([Entry("bolts", 200)]), None,
      Some([Entry("nails", 100), Entry("tile", 50), Entry("lumber", 80)])]
  {
    ExampleKeyHashes();
    t := SetSameBucket();
    var _ := t.Set("bolts", 200);
    assert [] + [Entry("bolts", 200)] == [Entry("bolts", 200)];
    var _ := t.Set("screws", 140);
    assert [] + [Entry("screws", 140)] == [Entry("screws", 140)];
  }

  /** The `get` exercise: after three sets, `lumber` is found and `bolts` is not. */
  method GetExample() returns (lumber: Option<int>, bolts: Option<int>)
    ensures lumber == Some(80) && bolts == None
  {
    ExampleKeyHashes();
    var t := new HashTable();
    var _ := t.Set("nails", 100);
    var _ := t.Set("tile", 50);
    var _ := t.Set("lumber", 80);
    lumber := t.Get("lumber");
    bolts := t.Get("bolts");
  }
}
