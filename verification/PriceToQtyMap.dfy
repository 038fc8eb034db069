/** A hash table of fixed buckets with no overflow area. A slot with key 0 is free. The hash function is a
    parameter: nothing here depends on how well it mixes. */
module PriceToQtyMaps {
  import opened Bits
  import opened Shared

  datatype Entry = Entry(key: u64, value: u64)

  const BUCKET_SIZE: nat := 8
  const TABLE_SIZE: nat := 8192
  const BUCKETS: nat := TABLE_SIZE / BUCKET_SIZE

  type Bucket = s: seq<Entry> | |s| == BUCKET_SIZE witness seq(BUCKET_SIZE, _ => Entry(0, 0))

  function Masked(h: u64, n: nat): nat
    requires n > 0
  {
    And(h, n - 1)
  }

  lemma MaskedIsMod(h: u64)
    ensures Masked(h, BUCKETS) == h % BUCKETS
  {
    Pow2Of10();
    MaskIsMod(h, 10);
  }

  lemma Pow2Of10()
    ensures Pow2(10) == BUCKETS
  {
  }

  /** The bucket of a key. */
  function Home(hash: u64 -> u64, key: u64): (b: nat)
    ensures b == hash(key) % 1024
  {
    MaskedIsMod(hash(key));
    Masked(hash(key), BUCKETS)
  }

  /** The keys that share a bucket. */
  function Residents(hash: u64 -> u64, m: map<u64, u64>, b: nat): set<u64> {
    set k | k in m && Home(hash, k) == b
  }

  predicate DistinctKeys(s: seq<Entry>) {
    forall i, j | 0 <= i < j < |s| && s[i].key != 0 :: s[i].key != s[j].key
  }

  function Keys(s: seq<Entry>): set<u64> {
    set i | 0 <= i < |s| && s[i].key != 0 :: s[i].key
  }

  /** A bucket holds exactly its residents, each in one slot and with its value. */
  ghost predicate Holds(s: seq<Entry>, hash: u64 -> u64, m: map<u64, u64>, b: nat) {
    && DistinctKeys(s)
    && Keys(s) == Residents(hash, m, b)
    && forall i | 0 <= i < |s| && s[i].key != 0 :: s[i].key in m && m[s[i].key] == s[i].value
  }

  lemma InKeys(s: seq<Entry>, i: nat)
    requires i < |s| && s[i].key != 0
    ensures s[i].key in Keys(s)
  {
  }

  lemma {:induction false} KeysSnoc(front: seq<Entry>, e: Entry)
    ensures Keys(front + [e]) == Keys(front) + (if e.key == 0 then {} else {e.key})
  {
    var s := front + [e];
    forall k | k in Keys(front) + (if e.key == 0 then {} else {e.key})
      ensures k in Keys(s)
    {
      if k in Keys(front) {
        var i :| 0 <= i < |front| && front[i].key != 0 && front[i].key == k;
        assert s[i].key == k;
      } else {
        assert s[|front|].key == k;
      }
    }
  }

  lemma {:induction false} KeyCount(s: seq<Entry>)
    requires DistinctKeys(s)
    ensures |Keys(s)| <= |s|
    ensures |Keys(s)| == |s| <==> forall i | 0 <= i < |s| :: s[i].key != 0
    decreases |s|
  {
    if s == [] {
    } else {
      var front, last := s[..|s| - 1], s[|s| - 1];
      assert s == front + [last];
      KeyCount(front);
      KeysSnoc(front, last);
      assert last.key != 0 ==> last.key !in Keys(front);
    }
  }

  /** A bucket has a free slot exactly when fewer than eight keys live in it. */
  lemma {:induction false} FullExactlyWhenCrowded(s: Bucket, hash: u64 -> u64, m: map<u64, u64>, b: nat)
    requires Holds(s, hash, m, b)
    ensures (forall i | 0 <= i < |s| :: s[i].key != 0) <==> |Residents(hash, m, b)| == 8
  {
    KeyCount(s);
  }

  /** Replacing the entry of one slot. */
  lemma {:induction false} KeysUpdated(s: seq<Entry>, i: nat, e: Entry)
    requires i < |s| && DistinctKeys(s) && (e.key == 0 || e.key == s[i].key || e.key !in Keys(s))
    ensures DistinctKeys(s[i := e])
    ensures Keys(s[i := e]) == Keys(s) - {s[i].key} + (if e.key == 0 then {} else {e.key})
  {
    var s' := s[i := e];
    forall j | 0 <= j < |s| && s[j].key != 0
      ensures s[j].key in Keys(s)
    {
      InKeys(s, j);
    }
    forall j | 0 <= j < |s| && s'[j].key != 0
      ensures s'[j].key in Keys(s')
    {
      InKeys(s', j);
    }
    var keys := Keys(s) - {s[i].key} + (if e.key == 0 then {} else {e.key});
    forall k | k in Keys(s')
      ensures k in keys
    {
      var j :| 0 <= j < |s| && s'[j].key != 0 && s'[j].key == k;
      if j != i {
        assert s[j].key != s[i].key;
      }
    }
    forall k | k in keys
      ensures k in Keys(s')
    {
      if k == e.key {
        assert s'[i].key == k;
      } else {
        var j :| 0 <= j < |s| && s[j].key != 0 && s[j].key == k;
        assert s'[j] == s[j];
      }
    }
  }

  /** A bucket does not notice what happens to the keys of another one. */
  lemma {:induction false} HoldsForOthers(s: seq<Entry>, hash: u64 -> u64, m: map<u64, u64>, m': map<u64, u64>, b: nat)
    requires Holds(s, hash, m, b)
    requires forall k | Home(hash, k) == b :: (k in m <==> k in m') && (k in m ==> m[k] == m'[k])
    ensures Holds(s, hash, m', b)
  {
    forall i | 0 <= i < |s| && s[i].key != 0
      ensures s[i].key in m' && m'[s[i].key] == s[i].value
    {
      InKeys(s, i);
    }
    assert Residents(hash, m, b) == Residents(hash, m', b);
  }

  lemma {:induction false} HoldsAfterSet(s: seq<Entry>, hash: u64 -> u64, m: map<u64, u64>, b: nat, i: nat, key: u64, value: u64)
    requires Holds(s, hash, m, b) && i < |s| && key != 0 && Home(hash, key) == b
    requires s[i].key == key || (s[i].key == 0 && key !in m)
    ensures Holds(s[i := Entry(key, value)], hash, m[key := value], b)
  {
    var s', m' := s[i := Entry(key, value)], m[key := value];
    KeysUpdated(s, i, Entry(key, value));
    assert Residents(hash, m', b) == Residents(hash, m, b) + {key};
    assert key == s[i].key ==> key in Keys(s);
    forall j | 0 <= j < |s| && s'[j].key != 0
      ensures s'[j].key in m' && m'[s'[j].key] == s'[j].value
    {
      if j != i {
        InKeys(s, j);
      }
    }
  }

  lemma {:induction false} HoldsAfterClear(s: seq<Entry>, hash: u64 -> u64, m: map<u64, u64>, b: nat, i: nat)
    requires Holds(s, hash, m, b) && i < |s| && s[i].key != 0
    ensures Holds(s[i := s[i].(key := 0)], hash, m - {s[i].key}, b)
  {
    var s', m' := s[i := s[i].(key := 0)], m - {s[i].key};
    KeysUpdated(s, i, s[i].(key := 0));
    assert Residents(hash, m', b) == Residents(hash, m, b) - {s[i].key};
    forall j | 0 <= j < |s| && s'[j].key != 0
      ensures s'[j].key in m' && m'[s'[j].key] == s'[j].value
    {
      assert s[j].key != s[i].key;
    }
  }

  /** Writing a free slot: harmless under key 0, an insertion under a new key, and under a key that lives
      here already the end of "each key in one slot". */
  lemma {:induction false} FillBucket(s: seq<Entry>, hash: u64 -> u64, m: map<u64, u64>, b: nat, i: nat, key: u64, value: u64)
    requires Holds(s, hash, m, b) && 0 !in m && i < |s| && s[i].key == 0 && Home(hash, key) == b
    ensures
      var s' := s[i := Entry(key, value)];
      if key == 0 then Holds(s', hash, m, b)
      else if key !in m then Holds(s', hash, m[key := value], b)
      else !DistinctKeys(s')
  {
    var s' := s[i := Entry(key, value)];
    if key == 0 {
      KeysUpdated(s, i, Entry(key, value));
    } else if key !in m {
      HoldsAfterSet(s, hash, m, b, i, key, value);
    } else {
      assert key in Keys(s);
      var j :| 0 <= j < |s| && s[j].key != 0 && s[j].key == key;
      assert s'[j].key == s'[i].key == key;
    }
  }

  /** Some slot of the bucket is free exactly when fewer than eight keys live in it. */
  lemma FreeExactlyWhen(s: Bucket, hash: u64 -> u64, m: map<u64, u64>, b: nat)
    requires Holds(s, hash, m, b)
    ensures (exists i | 0 <= i < |s| :: s[i].key == 0) <==> |Residents(hash, m, b)| != BUCKET_SIZE
  {
    FullExactlyWhenCrowded(s, hash, m, b);
  }

  /** A probe for the key finds a slot: for a key of the map its own, for key 0 a free one. */
  predicate Findable(hash: u64 -> u64, m: map<u64, u64>, key: u64) {
    if key == 0 then |Residents(hash, m, Home(hash, 0))| != BUCKET_SIZE else key in m
  }

  lemma FindableExactlyWhen(s: Bucket, hash: u64 -> u64, m: map<u64, u64>, key: u64)
    requires Holds(s, hash, m, Home(hash, key)) && 0 !in m
    ensures (exists i | 0 <= i < |s| :: s[i].key == key) <==> Findable(hash, m, key)
    ensures forall i | 0 <= i < |s| && s[i].key == key && key != 0 :: key in m && m[key] == s[i].value
  {
    if key == 0 {
      FreeExactlyWhen(s, hash, m, Home(hash, key));
    } else {
      assert key in Keys(s) <==> key in m;
    }
  }

  class PriceToQtyMap {
    const hash: u64 -> u64
    const table: array<Bucket>
    ghost var contents: map<u64, u64>

    ghost predicate Valid()
      reads this, table
    {
      && table.Length == BUCKETS
      && 0 !in contents
      && forall b | 0 <= b < BUCKETS :: Holds(table[b], hash, contents, b)
    }

    constructor (hash: u64 -> u64)
      ensures Valid() && fresh(table) && contents == map[] && this.hash == hash
    {
      this.hash := hash;
      table := new Bucket[BUCKETS](_ => seq(BUCKET_SIZE, _ => Entry(0, 0)));
      contents := map[];
    }

    /** Looks for a key in its bucket from the last slot down; the slot stands for the returned pointer.
        Key 0 finds a free slot with whatever value it holds. */
    method Find(key: u64) returns (slot: Option<nat>)
      requires Valid()
      ensures slot.Some? <==> Findable(hash, contents, key)
      ensures slot.Some? ==> slot.value < BUCKET_SIZE && table[Home(hash, key)][slot.value].key == key
      ensures slot.Some? && key != 0 ==> table[Home(hash, key)][slot.value].value == contents[key]
    {
      var bucket := Home(hash, key);
      FindableExactlyWhen(table[bucket], hash, contents, key);
      var i := BUCKET_SIZE - 1;
      while i >= 0
        invariant -1 <= i < BUCKET_SIZE
        invariant forall j | i < j < BUCKET_SIZE :: table[bucket][j].key != key
      {
        if table[bucket][i].key == key {
          return Some(i);
        }
        i := i - 1;
      }
      slot := None;
    }

    /** Looks for a key from the first slot up, and aborts without it. */
    method Lookup(key: u64) returns (r: Outcome<u64>)
      requires Valid()
      ensures if Findable(hash, contents, key) then r.Done? else r == Abort(LevelNotFound)
      ensures r.Done? && key != 0 ==> r.value == contents[key]
    {
      var bucket := Home(hash, key);
      FindableExactlyWhen(table[bucket], hash, contents, key);
      for i := 0 to BUCKET_SIZE
        invariant forall j | 0 <= j < i :: table[bucket][j].key != key
      {
        if table[bucket][i].key == key {
          return Done(table[bucket][i].value);
        }
      }
      r := Abort(LevelNotFound);
    }

    /** Writes through the pointer that a probe for the key returned. */
    method SetSlot(key: u64, i: nat, value: u64)
      requires Valid() && i < BUCKET_SIZE && table[Home(hash, key)][i].key == key
      modifies this`contents, table
      ensures Valid() && contents == if key == 0 then old(contents) else old(contents)[key := value]
    {
      var bucket := Home(hash, key);
      ghost var after := if key == 0 then contents else contents[key := value];
      if key == 0 {
        FillBucket(table[bucket], hash, contents, bucket, i, key, value);
      } else {
        HoldsAfterSet(table[bucket], hash, contents, bucket, i, key, value);
      }
      OthersHold(bucket, after);
      table[bucket] := table[bucket][i := Entry(key, value)];
      contents := after;
    }

    lemma OthersHold(bucket: nat, m: map<u64, u64>)
      requires Valid() && bucket < BUCKETS
      requires forall k | Home(hash, k) != bucket :: (k in contents <==> k in m) && (k in contents ==> contents[k] == m[k])
      ensures forall b | 0 <= b < BUCKETS && b != bucket :: Holds(table[b], hash, m, b)
    {
      forall b | 0 <= b < BUCKETS && b != bucket
        ensures Holds(table[b], hash, m, b)
      {
        HoldsForOthers(table[b], hash, contents, m, b);
      }
    }

    /** Writes an entry into a free slot. */
    method Fill(key: u64, i: nat, value: u64)
      requires Valid() && i < BUCKET_SIZE && table[Home(hash, key)][i].key == 0
      modifies this`contents, table
      ensures Valid() <==> key == 0 || key !in old(contents)
      ensures contents == if key == 0 then old(contents) else old(contents)[key := value]
    {
      var bucket := Home(hash, key);
      ghost var after := if key == 0 then contents else contents[key := value];
      FillBucket(table[bucket], hash, contents, bucket, i, key, value);
      OthersHold(bucket, after);
      table[bucket] := table[bucket][i := Entry(key, value)];
      contents := after;
    }

    /** Takes the first free slot, and aborts exactly when eight keys live in the bucket. The table remains
        a map if and only if the call aborts or the key is 0 or new. Under key 0 nothing is inserted. */
    method Insert(key: u64, value: u64) returns (r: Outcome<()>)
      requires Valid()
      modifies this`contents, table
      ensures r == if |Residents(hash, old(contents), Home(hash, key))| == 8 then Abort(BucketFull) else Done(())
      ensures Valid() <==> r.Abort? || key == 0 || key !in old(contents)
      ensures contents == if r.Done? && key != 0 then old(contents)[key := value] else old(contents)
    {
      var bucket := Home(hash, key);
      FullExactlyWhenCrowded(table[bucket], hash, contents, bucket);
      for i := 0 to BUCKET_SIZE
        invariant Valid() && contents == old(contents) && table[bucket] == old(table[bucket])
        invariant forall j | 0 <= j < i :: table[bucket][j].key != 0
      {
        if table[bucket][i].key == 0 {
          Fill(key, i, value);
          return Done(());
        }
      }
      r := Abort(BucketFull);
    }

    /** Frees the first slot with the key, whose value stays behind, and aborts when there is none. */
    method Erase(key: u64) returns (r: Outcome<()>)
      requires Valid()
      modifies this`contents, table
      ensures Valid()
      ensures r == if Findable(hash, old(contents), key) then Done(()) else Abort(LevelNotFound)
      ensures contents == old(contents) - {key}
    {
      var bucket := Home(hash, key);
      FindableExactlyWhen(table[bucket], hash, contents, key);
      for i := 0 to BUCKET_SIZE
        invariant Valid() && contents == old(contents) && table[bucket] == old(table[bucket])
        invariant forall j | 0 <= j < i :: table[bucket][j].key != key
      {
        if table[bucket][i].key == key {
          ClearSlot(key, i);
          return Done(());
        }
      }
      assert contents - {key} == contents;
      r := Abort(LevelNotFound);
    }

    method ClearSlot(key: u64, i: nat)
      requires Valid() && i < BUCKET_SIZE && table[Home(hash, key)][i].key == key
      modifies this`contents, table
      ensures Valid() && contents == old(contents) - {key}
    {
      var bucket := Home(hash, key);
      if key == 0 {
        assert contents - {key} == contents;
        FillBucket(table[bucket], hash, contents, bucket, i, 0, table[bucket][i].value);
      } else {
        HoldsAfterClear(table[bucket], hash, contents, bucket, i);
      }
      OthersHold(bucket, contents - {key});
      table[bucket] := table[bucket][i := table[bucket][i].(key := 0)];
      contents := contents - {key};
    }
  }
}
