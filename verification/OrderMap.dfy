/** `StaticOrderMap`: an open-addressed hash table with linear probing and tombstones
    that finds a resting order by its id.

    The buckets are an array that the operations overwrite in place. `index` records,
    for the proof only, which bucket holds each live key.
 */
module OrderMap {
  import opened Bits
  import opened Collections

  datatype BucketState = Empty | Occupied | Tombstone
  datatype Bucket = Bucket(orderId: u64, poolIdx: u32, state: BucketState)

  function Home(id: u64, capacity: nat): (h: nat)
    requires capacity > 0
    ensures h < capacity
  {
    id % capacity
  }

  /** The bucket reached from `home` after `i` probe steps. */
  function Walk(home: nat, i: nat, capacity: nat): (p: nat)
    requires home < capacity && i < capacity
    ensures p < capacity
  {
    if home + i < capacity then home + i else home + i - capacity
  }

  /** The number of probe steps from `home` to bucket `p`. */
  function Steps(home: nat, p: nat, capacity: nat): (i: nat)
    requires home < capacity && p < capacity
    ensures i < capacity && Walk(home, i, capacity) == p
  {
    if home <= p then p - home else p + capacity - home
  }

  /** No Empty bucket lies between the home of `id` and bucket `p`. */
  ghost predicate Chained(b: seq<Bucket>, id: u64, p: nat)
    requires p < |b|
  {
    var home := Home(id, |b|);
    forall i :: 0 <= i < Steps(home, p, |b|) ==> !b[Walk(home, i, |b|)].state.Empty?
  }

  /** `index` is exactly the set of occupied buckets, one per key, and each key can be
      reached from its home. */
  ghost predicate Represents(b: seq<Bucket>, index: map<u64, nat>) {
    && (forall k :: k in index ==>
          && index[k] < |b|
          && b[index[k]].state.Occupied?
          && b[index[k]].orderId == k
          && Chained(b, k, index[k]))
    && (forall p :: 0 <= p < |b| && b[p].state.Occupied? ==>
          b[p].orderId in index && index[b[p].orderId] == p)
  }

  ghost function Entries(b: seq<Bucket>, index: map<u64, nat>): map<u64, u32>
    requires Represents(b, index)
  {
    map k | k in index :: b[index[k]].poolIdx
  }

  /** What one probe of `insert` steps over. */
  predicate Blocked(b: Bucket, id: u64) {
    b.state.Occupied? && b.orderId != id
  }

  /** `p` is the first bucket on the probe path of `id` that `insert` does not step over. */
  ghost predicate FirstOpen(b: seq<Bucket>, id: u64, p: nat) {
    && p < |b|
    && !Blocked(b[p], id)
    && var home := Home(id, |b|);
       forall i :: 0 <= i < Steps(home, p, |b|) ==> Blocked(b[Walk(home, i, |b|)], id)
  }

  /** A tombstone lies on the probe path of the live key `id`, before its bucket. */
  ghost predicate TombstoneBefore(b: seq<Bucket>, index: map<u64, nat>, id: u64)
    requires Represents(b, index) && id in index
  {
    var home := Home(id, |b|);
    exists i :: 0 <= i < Steps(home, index[id], |b|) && b[Walk(home, i, |b|)].state.Tombstone?
  }

  // ----- the invariant across a single bucket write

  lemma WriteKeeps(b: seq<Bucket>, index: map<u64, nat>, id: u64, v: u32, p: nat)
    requires Represents(b, index) && FirstOpen(b, id, p)
    requires id in index ==> index[id] == p
    ensures Represents(b[p := Bucket(id, v, Occupied)], index[id := p])
    ensures Entries(b[p := Bucket(id, v, Occupied)], index[id := p]) == Entries(b, index)[id := v]
  {
    var b', index' := b[p := Bucket(id, v, Occupied)], index[id := p];
    forall k | k in index' ensures Chained(b', k, index'[k]) {
      if k == id {
        assert Chained(b', k, p);
      } else {
        assert Chained(b, k, index[k]);
      }
    }
    assert Represents(b', index');
  }

  lemma EraseKeeps(b: seq<Bucket>, index: map<u64, nat>, p: nat)
    requires Represents(b, index) && p < |b|
    ensures var index' := if b[p].state.Occupied? then index - {b[p].orderId} else index;
            && Represents(b[p := b[p].(state := Tombstone)], index')
            && Entries(b[p := b[p].(state := Tombstone)], index') ==
               if b[p].state.Occupied? then Entries(b, index) - {b[p].orderId} else Entries(b, index)
  {
    var b' := b[p := b[p].(state := Tombstone)];
    forall k | k in index ensures Chained(b', k, index[k]) {
      assert Chained(b, k, index[k]);
    }
  }

  // ----- pigeonhole

  ghost function OccupiedBuckets(b: seq<Bucket>): set<nat> {
    set p: nat | p < |b| && b[p].state.Occupied?
  }

  /** The table holds as many keys as it has occupied buckets; it is full exactly when
      every bucket is occupied. */
  lemma FullWhenAllOccupied(b: seq<Bucket>, index: map<u64, nat>)
    requires Represents(b, index)
    ensures |index| <= |b|
    ensures |index| == |b| <==> forall p :: 0 <= p < |b| ==> b[p].state.Occupied?
  {
    var occupied := OccupiedBuckets(b);
    forall p | p in occupied ensures exists k :: k in index && index[k] == p {
      assert b[p].orderId in index;
    }
    BijectionSize(index, occupied);
    RangeSize(|b|);
    SubsetSize(occupied, Range(|b|));
    if |index| == |b| {
      forall p | 0 <= p < |b| ensures b[p].state.Occupied? {
        assert p in Range(|b|);
      }
    }
    if forall p :: 0 <= p < |b| ==> b[p].state.Occupied? {
      assert occupied == Range(|b|);
    }
  }

  // ----- a direct insert of a live key

  ghost predicate IsMap(b: seq<Bucket>) {
    exists index :: Represents(b, index)
  }

  /** The first open bucket of a live key is the key's own, or a tombstone before it. */
  lemma OpenBucketOfLiveKey(b: seq<Bucket>, index: map<u64, nat>, id: u64, p: nat)
    requires Represents(b, index) && FirstOpen(b, id, p) && id in index
    ensures index[id] == p <==> !TombstoneBefore(b, index, id)
  {
    var q, home := index[id], Home(id, |b|);
    var i, j := Steps(home, p, |b|), Steps(home, q, |b|);
    assert Chained(b, id, q);
    assert i <= j;
    if p != q {
      assert b[Walk(home, i, |b|)].state.Tombstone?;
    }
  }

  /** `insert` looks no further than the first tombstone. On a live key it therefore
      keeps the table a map exactly when no tombstone precedes the key. */
  lemma InsertSoundWhen(b: seq<Bucket>, index: map<u64, nat>, id: u64, v: u32, p: nat)
    requires Represents(b, index) && FirstOpen(b, id, p) && id in index
    ensures IsMap(b[p := Bucket(id, v, Occupied)]) <==> !TombstoneBefore(b, index, id)
  {
    var q, b' := index[id], b[p := Bucket(id, v, Occupied)];
    OpenBucketOfLiveKey(b, index, id, p);
    if p == q {
      WriteKeeps(b, index, id, v, p);
    } else {
      forall index' ensures !Represents(b', index') {
        assert b'[p].orderId == b'[q].orderId;
      }
    }
  }

  /** While a probe has not met the live key, it is not at an Empty bucket and has not
      gone round the table. */
  lemma ProbeReaches(b: seq<Bucket>, index: map<u64, nat>, id: u64, n: nat)
    requires Represents(b, index) && id in index && n <= |b|
    requires var home := Home(id, |b|);
             forall i :: 0 <= i < n ==>
               var bucket := b[Walk(home, i, |b|)]; !(bucket.state.Occupied? && bucket.orderId == id)
    ensures n < |b| && !b[Walk(Home(id, |b|), n, |b|)].state.Empty?
  {
    assert Chained(b, id, index[id]);
    assert n <= Steps(Home(id, |b|), index[id], |b|);
  }

  lemma OverwriteKeeps(b: seq<Bucket>, index: map<u64, nat>, id: u64, v: u32)
    requires Represents(b, index) && id in index
    ensures var b' := b[index[id] := b[index[id]].(poolIdx := v)];
            Represents(b', index) && Entries(b', index) == Entries(b, index)[id := v]
  {
    var b' := b[index[id] := b[index[id]].(poolIdx := v)];
    forall k | k in index ensures Chained(b', k, index[k]) {
      assert Chained(b, k, index[k]);
    }
  }

  class StaticOrderMap {
    const capacity: nat
    const buckets: array<Bucket>
    ghost var index: map<u64, nat>

    ghost predicate Valid()
      reads this, buckets
    {
      && capacity > 0
      && (exists k :: capacity == Pow2(k))
      && buckets.Length == capacity
      && Represents(buckets[..], index)
    }

    ghost function Contents(): map<u64, u32>
      requires Valid()
      reads this, buckets
    {
      Entries(buckets[..], index)
    }

    constructor (ghost log: nat, capacity: nat)
      requires capacity == Pow2(log)
      ensures this.capacity == capacity && fresh(buckets)
      ensures Valid() && Contents() == map[] && index == map[]
    {
      this.capacity := capacity;
      buckets := new Bucket[capacity](_ => Bucket(0, 0, Empty));
      index := map[];
    }

    /** The bucket that holds `orderId`, or nothing when the key is absent. */
    method Find(orderId: u64) returns (found: Option<nat>)
      requires Valid()
      ensures found.Some? <==> orderId in Contents()
      ensures found.Some? ==> orderId in index && found.value == index[orderId] < buckets.Length
    {
      var idx := And(orderId, capacity - 1);
      ghost var k :| capacity == Pow2(k);
      AndMaskIsMod(orderId, k);
      ghost var home := Home(orderId, capacity);
      var checked := 0;
      while checked < capacity && !buckets[idx].state.Empty?
        invariant 0 <= checked <= capacity && idx < capacity
        invariant checked < capacity ==> idx == Walk(home, checked, capacity)
        invariant forall i :: 0 <= i < checked ==>
                    var b := buckets[Walk(home, i, capacity)];
                    !b.state.Empty? && !(b.state.Occupied? && b.orderId == orderId)
        decreases capacity - checked
      {
        if buckets[idx].orderId == orderId && buckets[idx].state.Occupied? {
          return Some(idx);
        }
        checked := checked + 1;
        idx := idx + 1;
        if idx == capacity {
          idx := 0;
        }
      }
      if orderId in index {
        ProbeReaches(buckets[..], index, orderId, checked);
      }
      return None;
    }

    /** The probe loop of `insert`. */
    method OpenBucket(orderId: u64) returns (p: nat, ok: bool)
      requires Valid()
      ensures ok ==> FirstOpen(buckets[..], orderId, p)
      ensures !ok <==> forall i :: 0 <= i < capacity ==> Blocked(buckets[i], orderId)
    {
      p := And(orderId, capacity - 1);
      ghost var k :| capacity == Pow2(k);
      AndMaskIsMod(orderId, k);
      ghost var home := Home(orderId, capacity);
      var checked := 0;
      while checked < capacity && buckets[p].state.Occupied? && buckets[p].orderId != orderId
        invariant 0 <= checked <= capacity && p < capacity
        invariant checked < capacity ==> p == Walk(home, checked, capacity)
        invariant forall i :: 0 <= i < checked ==> Blocked(buckets[Walk(home, i, capacity)], orderId)
        decreases capacity - checked
      {
        checked := checked + 1;
        p := p + 1;
        if p == capacity {
          p := 0;
        }
      }
      ok := checked < capacity;
      if !ok {
        forall i | 0 <= i < capacity ensures Blocked(buckets[i], orderId) {
          assert i == Walk(home, Steps(home, i, capacity), capacity);
        }
      }
    }

    /** Writes the key into the first bucket of its probe path that is not occupied by
        another key; fails, touching nothing, when there is none. */
    method Insert(orderId: u64, poolIdx: u32) returns (p: nat, ok: bool)
      requires Valid()
      modifies this, buckets
      ensures ok ==> p < buckets.Length && FirstOpen(old(buckets[..]), orderId, p)
      ensures ok ==> buckets[..] == old(buckets[..])[p := Bucket(orderId, poolIdx, Occupied)]
      ensures ok ==> index == old(index)[orderId := p]
      ensures ok && (orderId in old(index) ==> !TombstoneBefore(old(buckets[..]), old(index), orderId)) ==>
                Valid() && Contents() == old(Contents())[orderId := poolIdx]
      ensures !ok ==> p == capacity && Valid() && Contents() == old(Contents())
      ensures !ok <==> orderId !in old(Contents()) && |old(Contents())| == capacity
    {
      FullWhenAllOccupied(buckets[..], index);
      assert Contents().Keys == index.Keys;
      p, ok := OpenBucket(orderId);
      if !ok {
        p := capacity;
        return;
      }
      if orderId in index {
        OpenBucketOfLiveKey(buckets[..], index, orderId, p);
      }
      if orderId in index ==> index[orderId] == p {
        WriteKeeps(buckets[..], index, orderId, poolIdx, p);
      }
      buckets[p] := Bucket(orderId, poolIdx, Occupied);
      index := index[orderId := p];
    }

    /** The subscript operator: the bucket of `orderId`, created with index 0 when the
        key is new. It throws exactly when a new key meets a full table. */
    method Subscript(orderId: u64) returns (p: nat, ok: bool)
      requires Valid()
      modifies this, buckets
      ensures Valid()
      ensures ok <==> orderId in old(Contents()) || |old(Contents())| < capacity
      ensures ok ==> orderId in index && p == index[orderId] < buckets.Length
      ensures Contents() ==
              if orderId in old(Contents()) || !ok then old(Contents()) else old(Contents())[orderId := 0]
    {
      FullWhenAllOccupied(buckets[..], index);
      assert Contents().Keys == index.Keys;
      var found := Find(orderId);
      if found.None? {
        p, ok := Insert(orderId, 0);
      } else {
        p, ok := found.value, true;
      }
    }

    /** `map[orderId] = poolIdx`: through the subscript the table is a finite map. */
    method Assign(orderId: u64, poolIdx: u32) returns (ok: bool)
      requires Valid()
      modifies this, buckets
      ensures Valid()
      ensures ok <==> orderId in old(Contents()) || |old(Contents())| < capacity
      ensures Contents() == if ok then old(Contents())[orderId := poolIdx] else old(Contents())
    {
      ghost var was := Contents();
      var p;
      p, ok := Subscript(orderId);
      if ok {
        ghost var b := buckets[..];
        assert Contents()[orderId := poolIdx] == was[orderId := poolIdx];
        OverwriteKeeps(b, index, orderId, poolIdx);
        buckets[p] := buckets[p].(poolIdx := poolIdx);
        assert buckets[..] == b[p := b[p].(poolIdx := poolIdx)];
      }
    }

    /** `erase(order_id)`. */
    method Erase(orderId: u64)
      requires Valid()
      modifies this, buckets
      ensures Valid()
      ensures Contents() == old(Contents()) - {orderId}
      ensures index == old(index) - {orderId}
      ensures buckets[..] ==
              if orderId in old(index) then
                var p := old(index)[orderId]; old(buckets[..])[p := old(buckets[..])[p].(state := Tombstone)]
              else old(buckets[..])
    {
      var found := Find(orderId);
      if found.Some? {
        EraseKeeps(buckets[..], index, found.value);
        buckets[found.value] := buckets[found.value].(state := Tombstone);
        index := index - {orderId};
      }
    }

    /** `erase(entry_ptr)`: throws on a pointer outside the table. */
    method EraseAt(p: int) returns (ok: bool)
      requires Valid()
      modifies this, buckets
      ensures Valid()
      ensures ok <==> 0 <= p < capacity
      ensures Contents() ==
              if ok && old(buckets[p].state.Occupied?) then old(Contents()) - {old(buckets[p].orderId)}
              else old(Contents())
    {
      ok := 0 <= p < capacity;
      if ok {
        EraseKeeps(buckets[..], index, p);
        index := if buckets[p].state.Occupied? then index - {buckets[p].orderId} else index;
        buckets[p] := buckets[p].(state := Tombstone);
      }
    }
  }

  /** The insert probe passes no bucket that it could take. */
  lemma StopsNoLater(b: seq<Bucket>, id: u64, p: nat, i: nat)
    requires FirstOpen(b, id, p) && i < |b| && !Blocked(b[Walk(Home(id, |b|), i, |b|)], id)
    ensures Steps(Home(id, |b|), p, |b|) <= i
  {
  }

  lemma NotBlocked(b: seq<Bucket>, id: u64, p: nat)
    requires FirstOpen(b, id, p)
    ensures p < |b| && !Blocked(b[p], id)
  {
  }

  /** A bucket that no key leads to is not occupied. */
  lemma OpenToOthers(b: seq<Bucket>, index: map<u64, nat>, p: nat)
    requires Represents(b, index) && p < |b| && p !in index.Values
    ensures !b[p].state.Occupied?
  {
  }

  /** Keys 0 and 4 share a home in a table of four buckets, so 4 goes behind 0. */
  method TwoKeysOneErased() returns (table: StaticOrderMap)
    ensures fresh(table) && fresh(table.buckets) && table.Valid() && table.capacity == 4
    ensures table.Contents() == map[4 := 2] && table.index == map[4 := 1]
    ensures table.buckets[0].state.Tombstone?
  {
    hide Represents, Entries, FirstOpen;
    assert Pow2(2) == 4;
    table := new StaticOrderMap(2, 4);
    ghost var b := table.buckets[..];
    OpenToOthers(b, map[], 0);
    var p, ok := table.Insert(0, 1);
    StopsNoLater(b, 0, p, 0);
    b := table.buckets[..];
    OpenToOthers(b, map[0 := 0], 1);
    p, ok := table.Insert(4, 2);
    StopsNoLater(b, 4, p, 1);
    NotBlocked(b, 4, p);
    table.Erase(0);
  }

  /** Inserting 4 a second time takes the tombstone of 0, and what is left is not a map. */
  method InsertDuplicates(v: u32) returns (table: StaticOrderMap)
    ensures fresh(table) && !IsMap(table.buckets[..])
  {
    hide Represents, IsMap, Entries;
    table := TwoKeysOneErased();
    ghost var b, index := table.buckets[..], table.index;
    assert b[Walk(0, 0, 4)].state.Tombstone?;
    var p, ok := table.Insert(4, v);
    StopsNoLater(b, 4, p, 0);
    InsertSoundWhen(b, index, 4, v, p);
  }
}
