/** The insertion-ordered hash map: open addressing with linear probing, tombstones for
    removed keys, and a list threaded through the buckets in the order they were filled. */
module HashTable {
  import opened CStrings
  import opened OrderedMap
  import opened BucketTable
  import opened Migration

  const DEFAULT_CAPACITY: nat := 20
  const RESIZE_FACTOR: nat := 2

  class HashMap<V(==)> {
    const hashOf: Bytes -> Word32  // any deterministic hash
    const zero: V                  // the value of a fresh bucket
    const dead: V                  // the value of a tombstone

    var buckets: array<Bucket<V>>
    var capacity: nat
    var count: int                 // listed buckets, tombstones included
    var tombstoneCount: int
    var first: Addr<V>
    var last: Addr<V>

    ghost var order: seq<nat>      // the indices of the listed buckets
    ghost var inserts: nat         // keys that went from absent to present so far
    ghost var visits: nat          // list nodes visited by all resizes so far

    ghost predicate Sound()
      reads this, buckets
    {
      && zero != dead
      && capacity == buckets.Length
      && Consistent(buckets[..], buckets, zero, hashOf, order, first, last)
      && count == |order|
      && tombstoneCount == Tombstones(buckets[..], order)
    }

    /** What resizing has cost, and what it can have cost at most. */
    ghost predicate Amortised()
      reads this
    {
      && capacity >= DEFAULT_CAPACITY && capacity % 4 == 0
      && 4 * visits == 3 * (capacity - DEFAULT_CAPACITY)
      && (capacity > DEFAULT_CAPACITY ==> 3 * capacity <= 8 * inserts)
      && count <= inserts
    }

    ghost predicate Valid()
      reads this, buckets
    {
      Sound() && Amortised() && 4 * count <= 3 * capacity
    }

    /** The map this table stands for. */
    ghost function Contents(): (s: seq<Entry<V>>)
      requires Valid()
      reads this, buckets
      ensures DistinctIds(s)
      ensures |s| == count - tombstoneCount
    {
      ContentsDistinct(buckets[..], zero, hashOf, order);
      Entries(buckets[..], order)
    }

    constructor (hashOf: Bytes -> Word32, zero: V, dead: V)
      requires zero != dead
      ensures Valid() && fresh(buckets)
      ensures Contents() == [] && inserts == 0 && capacity == 20
      ensures this.hashOf == hashOf && this.zero == zero && this.dead == dead
    {
      this.hashOf, this.zero, this.dead := hashOf, zero, dead;
      capacity := DEFAULT_CAPACITY;
      count := 0;
      tombstoneCount := 0;
      var blank := Bucket(Null, NoKey, 0, 0, zero);
      buckets := new Bucket<V>[DEFAULT_CAPACITY](_ => blank);
      first := Null;
      last := First;
      order, inserts, visits := [], 0, 0;
    }

    // ---------- probing ----------

    /** Where a probe for the key ends: at its bucket if it is present, else at the first
        bucket on its path that was never used. Never at a tombstone. */
    method FindEntry(key: Bytes, ksize: nat, hash: Word32) returns (i: nat)
      requires Valid()
      requires ksize <= |key| && hash == hashOf(key[..ksize])
      ensures i < buckets.Length
      ensures Unbroken(buckets[..], zero, Home(hash, buckets.Length), i)
      ensures Live(buckets[i]) ==> Matches(buckets[i], key[..ksize]) && buckets[i].ksize == ksize
      ensures !Live(buckets[i]) ==> Empty(buckets[i], zero)
      ensures Live(buckets[i]) <==> Has(Contents(), key[..ksize])
      ensures Live(buckets[i]) || forall j :: 0 <= j < buckets.Length ==> !Matches(buckets[j], key[..ksize])
    {
      ghost var t, id, home := buckets[..], key[..ksize], Home(hash, capacity);
      ghost var e := SomeEmpty(t, zero, order);
      i := hash % capacity;
      while true
        invariant i < capacity
        invariant Unbroken(t, zero, home, i) && Unmatched(t, id, home, i)
        decreases capacity - Distance(home, i, capacity)
      {
        var entry := buckets[i];
        var nullKey := entry.key.NoKey?;
        var nullValue := entry.value == zero;
        if nullKey && nullValue {
          EmptyMeansAbsent(t, zero, hashOf, order, id, i);
          return;
        }
        if !nullKey {
          Comparison(t[i], hashOf, key, ksize);
        }
        if !nullKey && entry.ksize == ksize && entry.hash == hash && entry.key.bytes[..ksize] == key[..ksize] {
          PresentWhere(i);
          return;
        }
        ProbeOn(t, zero, id, home, i, e);
        i := (i + 1) % capacity;
      }
    }

    /** The key of a live bucket is present. */
    lemma PresentWhere(i: nat)
      requires Valid()
      requires i < buckets.Length && Live(buckets[i])
      ensures Has(Contents(), Id(buckets[i]))
      ensures Contents()[Position(Contents(), Id(buckets[i]))] == EntryOf(buckets[i])
    {
      var p :| 0 <= p < |order| && order[p] == i;
      PositionOfBucket(buckets[..], zero, hashOf, order, p);
    }

    // ---------- lookup and removal ----------

    /** A miss leaves the caller with the value of a fresh bucket. */
    method Get(key: Bytes, ksize: nat) returns (found: bool, val: V)
      requires Valid() && ksize <= |key|
      ensures found <==> Has(Contents(), key[..ksize])
      ensures found ==> Lookup(Contents(), key[..ksize]) == Some(val)
      ensures !found ==> val == zero
    {
      var hash := hashOf(key[..ksize]);
      var i := FindEntry(key, ksize, hash);
      val := buckets[i].value;
      found := buckets[i].key.Key?;
      if found {
        PresentWhere(i);
      }
    }

    /** Leaves a tombstone: the bucket stays listed, and a walk that stands on it can go on. */
    method Remove(key: Bytes, ksize: nat)
      requires Valid() && ksize <= |key|
      modifies this`tombstoneCount, buckets
      ensures Valid()
      ensures Contents() == Delete(old(Contents()), key[..ksize])
      ensures forall i :: 0 <= i < buckets.Length ==> Buried(old(buckets[i]), buckets[i], dead, key[..ksize])
    {
      var hash := hashOf(key[..ksize]);
      var i := FindEntry(key, ksize, hash);
      if buckets[i].key.Key? {
        Bury(i);
      }
    }

    /** As Remove; `freed` is what the callback was given before the key went. */
    method RemoveFree(key: Bytes, ksize: nat) returns (freed: Option<Entry<V>>)
      requires Valid() && ksize <= |key|
      modifies this`tombstoneCount, buckets
      ensures Valid()
      ensures Contents() == Delete(old(Contents()), key[..ksize])
      ensures var s, p := old(Contents()), Position(old(Contents()), key[..ksize]);
              freed == if p < |s| then Some(s[p]) else None
    {
      var hash := hashOf(key[..ksize]);
      var i := FindEntry(key, ksize, hash);
      freed := None;
      if buckets[i].key.Key? {
        PresentWhere(i);
        freed := Some(Entry(buckets[i].key.bytes, buckets[i].ksize, buckets[i].value));
        Bury(i);
      }
    }

    /** Turns a live bucket into a tombstone, link and all else kept, and counts it. */
    method Bury(i: nat)
      requires Valid()
      requires i < buckets.Length && Live(buckets[i])
      modifies this`tombstoneCount, buckets
      ensures Valid()
      ensures Contents() == Delete(old(Contents()), old(Id(buckets[i])))
      ensures forall x :: 0 <= x < buckets.Length ==> Buried(old(buckets[x]), buckets[x], dead, old(Id(buckets[i])))
    {
      ghost var t := buckets[..];
      tombstoneCount := tombstoneCount + 1;
      buckets[i] := buckets[i].(key := NoKey, value := dead);
      BuryKeeps(t, buckets[..], zero, dead, hashOf, buckets, order, first, last, i);
    }

    method Size() returns (n: int)
      requires Valid()
      ensures n == |Contents()|
    {
      n := count - tombstoneCount;
    }

    /** Calls back on every live entry; `calls` are the arguments, in call order. */
    method Iterate() returns (calls: seq<Entry<V>>)
      requires Valid()
      ensures calls == Contents()
    {
      calls := [];
      var current := first;
      ghost var q, t := 0, buckets[..];
      hide Consistent, Entries;
      Listed(0);
      while current != Null
        invariant 0 <= q <= |order|
        invariant current == LinkTo(buckets, order, q, Null)
        invariant calls == Entries(t, order[..q])
        decreases |order| - q
      {
        Listed(q);
        var b := current.table[current.index];
        EntriesStep(t, order, q);
        if b.key.Key? {
          calls := calls + [Entry(b.key.bytes, b.ksize, b.value)];
        }
        current := b.next;
        q := q + 1;
      }
      assert order[..q] == order;
    }

    lemma Listed(q: nat)
      requires Valid() && q <= |order|
      ensures forall k :: 0 <= k < |order| ==> order[k] < buckets.Length
      ensures first == LinkTo(buckets, order, 0, Null)
      ensures q < |order| ==> buckets[order[q]].next == LinkTo(buckets, order, q + 1, Null)
    {
      assert q < |order| ==> buckets[..][order[q]].next == LinkTo(buckets, order, q + 1, Null);
    }

    // ---------- insertion ----------

    /** Makes one place point to another; the first place may be the map itself. */
    method SetNext(a: Addr<V>, to: Addr<V>)
      requires a.First? || (a.Slot? && a.table == buckets && a.index < buckets.Length)
      modifies this`first, buckets
      ensures a.First? ==> first == to && buckets[..] == old(buckets[..])
      ensures a.Slot? ==> first == old(first)
      ensures a.Slot? ==> buckets[..] == old(buckets[..])[a.index := old(buckets[a.index]).(next := to)]
    {
      if a.First? {
        first := to;
      } else {
        buckets[a.index] := buckets[a.index].(next := to);
      }
    }

    /** Links bucket `i` after the last one, counts it and fills it. */
    method LinkAndFill(i: nat, b: Bucket<V>)
      requires i < buckets.Length && Empty(buckets[i], zero) && Live(b)
      requires forall q :: 0 <= q < |order| ==> order[q] < buckets.Length && order[q] != i
      requires last == if order == [] then First else Slot(buckets, order[|order| - 1])
      modifies this`first, this`last, this`count, this`order, this`inserts, buckets
      ensures last == Slot(buckets, i) && buckets[i] == b
      ensures count == old(count) + 1 && inserts == old(inserts) + 1 && order == old(order) + [i]
      ensures Fills(old(buckets[..]), buckets[..], zero, i)
      ensures Extends(old(buckets[..]), buckets[..], buckets, old(order), i, old(first), first)
    {
      SetNext(last, Slot(buckets, i));
      last := Slot(buckets, i);
      count := count + 1;
      buckets[i] := b;
      order := order + [i];
      inserts := inserts + 1;
    }

    /** The table with one more key, whatever its load. */
    method AppendEntry(i: nat, key: Bytes, ksize: nat, val: V)
      requires Consistent(buckets[..], buckets, zero, hashOf, order, first, last)
      requires ksize <= |key|
      requires i < buckets.Length && Empty(buckets[i], zero)
      requires Unbroken(buckets[..], zero, Home(hashOf(key[..ksize]), buckets.Length), i)
      requires !Has(Entries(buckets[..], order), key[..ksize])
      modifies this`first, this`last, this`count, this`order, this`inserts, buckets
      ensures Consistent(buckets[..], buckets, zero, hashOf, order, first, last)
      ensures Entries(buckets[..], order) == old(Entries(buckets[..], order)) + [Entry(key, ksize, val)]
      ensures Tombstones(buckets[..], order) == old(Tombstones(buckets[..], order))
      ensures count == old(count) + 1 && inserts == old(inserts) + 1 && |order| == |old(order)| + 1
    {
      ghost var t, order0, first0, last0 := buckets[..], order, first, last;
      assert i !in order;
      LinkAndFill(i, Bucket(Null, Key(key), ksize, hashOf(key[..ksize]), val));
      AppendKeeps(t, buckets[..], zero, hashOf, buckets, order0, first0, first, last0, i, key, ksize, val);
    }

    /** Gives a key that is absent the empty bucket its probe ended at. */
    method Append(i: nat, key: Bytes, ksize: nat, hash: Word32, val: V)
      requires Valid() && 4 * (count + 1) <= 3 * capacity
      requires ksize <= |key| && hash == hashOf(key[..ksize])
      requires i < buckets.Length && Empty(buckets[i], zero)
      requires Unbroken(buckets[..], zero, Home(hash, buckets.Length), i)
      requires !Has(Contents(), key[..ksize])
      modifies this`first, this`last, this`count, this`order, this`inserts, buckets
      ensures Valid()
      ensures Contents() == old(Contents()) + [Entry(key, ksize, val)]
      ensures inserts == old(inserts) + 1
    {
      hide Consistent, Unbroken, Empty;
      AppendEntry(i, key, ksize, val);
    }

    /** Gives a present key a new value, and a new buffer of the same id if asked. */
    method Overwrite(i: nat, key: Bytes, val: V)
      requires Valid()
      requires i < buckets.Length && Live(buckets[i])
      requires buckets[i].ksize <= |key| && key[..buckets[i].ksize] == Id(buckets[i])
      modifies buckets
      ensures Valid()
      ensures Contents() == Replace(old(Contents()), Entry(key, old(buckets[i].ksize), val))
    {
      ghost var t := buckets[..];
      assert Keyed(t[i], hashOf);
      buckets[i] := buckets[i].(key := Key(key), value := val);
      OverwriteKeeps(t, buckets[..], zero, hashOf, buckets, order, first, last, i);
    }

    // ---------- growing ----------

    /** Copies an old bucket, link included, to the first free place on its probe path. */
    method ResizeEntry(oldEntry: Bucket<V>) returns (i: nat)
      requires capacity == buckets.Length > |order|
      requires Covers(buckets[..], zero, order)
      requires forall x :: 0 <= x < buckets.Length ==> Live(buckets[x]) || Empty(buckets[x], zero)
      modifies buckets
      ensures i < buckets.Length && Empty(old(buckets[i]), zero)
      ensures old(Unbroken(buckets[..], zero, Home(oldEntry.hash, buckets.Length), i))
      ensures buckets[..] == old(buckets[..])[i := oldEntry]
    {
      ghost var t, home := buckets[..], Home(oldEntry.hash, capacity);
      ghost var e := SomeEmpty(t, zero, order);
      i := oldEntry.hash % capacity;
      while true
        invariant i < capacity && buckets[..] == t
        invariant Unbroken(t, zero, home, i)
        decreases capacity - Distance(home, i, capacity)
      {
        if buckets[i].key.NoKey? {
          buckets[i] := oldEntry;
          return;
        }
        ProbePast(t, zero, home, i, e);
        i := (i + 1) % capacity;
      }
    }

    /** The fresh array of a resize, with the list still wholly in the old one. */
    method Reallocate() returns (ghost from: Source<V>)
      requires Consistent(buckets[..], buckets, zero, hashOf, order, first, last)
      requires capacity == buckets.Length && |order| <= capacity
      modifies this`capacity, this`buckets, this`last, this`count, this`tombstoneCount, this`order
      ensures from == Source(old(buckets[..]), old(buckets), old(order)) && old(buckets)[..] == from.t
      ensures fresh(buckets) && capacity == buckets.Length == 2 * old(capacity)
      ensures count == old(count) - old(tombstoneCount) && tombstoneCount == 0
      ensures Migrating(from, 0, buckets[..], buckets, zero, hashOf, order, first, last)
    {
      from := Source(buckets[..], buckets, order);
      capacity := capacity * RESIZE_FACTOR;
      var blank := Bucket(Null, NoKey, 0, 0, zero);
      buckets := new Bucket<V>[capacity](_ => blank);
      last := First;
      count := count - tombstoneCount;
      tombstoneCount := 0;
      order := [];
      Migration.Start(from, buckets[..], buckets, zero, hashOf);
    }

    /** Doubles the table and carries the list over, dropping its tombstones. */
    method Resize()
      requires Consistent(buckets[..], buckets, zero, hashOf, order, first, last)
      requires capacity == buckets.Length && 0 < |order| <= capacity
      modifies this
      ensures Consistent(buckets[..], buckets, zero, hashOf, order, first, last)
      ensures fresh(buckets) && capacity == buckets.Length == 2 * old(capacity)
      ensures Entries(buckets[..], order) == old(Entries(buckets[..], order))
      ensures Tombstones(buckets[..], order) == 0
      ensures count == old(count) - old(tombstoneCount) && tombstoneCount == 0
      ensures inserts == old(inserts) && visits == old(visits) + |old(order)|
    {
      hide Consistent, WellFormed, Migrating;
      var oldBuckets := buckets;
      ghost var from := Reallocate();
      CarryAll(oldBuckets, from);
    }

    /** The do-while loop over the old list. */
    method CarryAll(oldBuckets: array<Bucket<V>>, ghost from: Source<V>)
      requires oldBuckets != buckets && from.table == oldBuckets && oldBuckets[..] == from.t
      requires capacity == buckets.Length && from.order != []
      requires Migrating(from, 0, buckets[..], buckets, zero, hashOf, order, first, last)
      modifies this`first, this`last, this`order, this`visits, buckets
      ensures Consistent(buckets[..], buckets, zero, hashOf, order, first, last)
      ensures Entries(buckets[..], order) == Entries(from.t, from.order)
      ensures Tombstones(buckets[..], order) == 0
      ensures visits == old(visits) + |from.order|
    {
      ghost var k := 0;
      var more := true;
      while more
        invariant oldBuckets[..] == from.t
        invariant k <= |from.order| && (more <==> k < |from.order|)
        invariant Migrating(from, k, buckets[..], buckets, zero, hashOf, order, first, last)
        invariant visits == old(visits) + k
        decreases |from.order| - k
      {
        more := CarryNext(oldBuckets, from, k);
        k := k + 1;
      }
      Finish(from, buckets[..], buckets, zero, hashOf, order, first, last);
    }

    /** One turn of the loop: the node that `last->next` points to is dropped if it is a
        tombstone, else moved. True while the list goes on. */
    method CarryNext(oldBuckets: array<Bucket<V>>, ghost from: Source<V>, ghost k: nat) returns (more: bool)
      requires oldBuckets != buckets && from.table == oldBuckets && oldBuckets[..] == from.t
      requires capacity == buckets.Length
      requires k < |from.order|
      requires Migrating(from, k, buckets[..], buckets, zero, hashOf, order, first, last)
      modifies this`first, this`last, this`order, this`visits, buckets
      ensures Migrating(from, k + 1, buckets[..], buckets, zero, hashOf, order, first, last)
      ensures visits == old(visits) + 1
      ensures more <==> k + 1 < |from.order|
    {
      hide Migrating;
      ghost var t := buckets[..];
      visits := visits + 1;
      assert buckets[..] == t;
      Crossing(from, k, t, buckets, zero, hashOf, order, first, last);
      var current := LastNext();
      var b := current.table[current.index];
      assert b == from.t[from.order[k]];
      if b.key.NoKey? {
        DropNode(b, from, k);
      } else {
        MoveNode(b, from, k);
      }
      Crossing(from, k + 1, buckets[..], buckets, zero, hashOf, order, first, last);
      more := LastNext() != Null;
    }

    method DropNode(b: Bucket<V>, ghost from: Source<V>, ghost k: nat)
      requires Migrating(from, k, buckets[..], buckets, zero, hashOf, order, first, last)
      requires k < |from.order| && b == from.t[from.order[k]] && !Live(b)
      modifies this`first, buckets
      ensures Migrating(from, k + 1, buckets[..], buckets, zero, hashOf, order, first, last)
    {
      ghost var t, first0 := buckets[..], first;
      Crossing(from, k, t, buckets, zero, hashOf, order, first, last);
      SetNext(last, b.next);
      Skip(from, k, t, buckets[..], buckets, zero, hashOf, order, first0, first, last);
    }

    method MoveNode(b: Bucket<V>, ghost from: Source<V>, ghost k: nat)
      requires capacity == buckets.Length
      requires Migrating(from, k, buckets[..], buckets, zero, hashOf, order, first, last)
      requires k < |from.order| && b == from.t[from.order[k]] && Live(b)
      modifies this`first, this`last, this`order, buckets
      ensures Migrating(from, k + 1, buckets[..], buckets, zero, hashOf, order, first, last)
    {
      ghost var t, order0, first0, last0 := buckets[..], order, first, last;
      Crossing(from, k, t, buckets, zero, hashOf, order, first, last);
      Room(from, k, t, buckets, zero, hashOf, order, first, last);
      hide Migrating, Covers, Unbroken;
      var i := ResizeEntry(b);
      order := order + [i];
      SetNext(last, Slot(buckets, i));
      last := Slot(buckets, i);
      Carry(from, k, t, buckets[..], buckets, zero, hashOf, order0, first0, first, last0, i);
    }

    /** Where the list goes on after its last bucket in the new array. */
    function LastNext(): Addr<V>
      requires last.First? || (last.Slot? && last.table == buckets && last.index < buckets.Length)
      reads this, buckets
    {
      if last.First? then first else buckets[last.index].next
    }

    /** The load check fires at exactly three quarters, so the totals come out exact. */
    lemma Doubling(capacity: nat, count: int, inserts: nat, visits: nat)
      requires 4 * count <= 3 * capacity < 4 * (count + 1)
      requires capacity >= DEFAULT_CAPACITY && capacity % 4 == 0
      requires 4 * visits == 3 * (capacity - DEFAULT_CAPACITY)
      requires count <= inserts
      ensures 4 * count == 3 * capacity
      ensures (2 * capacity) % 4 == 0
      ensures 4 * (visits + count) == 3 * (2 * capacity - DEFAULT_CAPACITY)
      ensures 3 * (2 * capacity) <= 8 * inserts
    {
      var quarter := Quarter(capacity);
      assert count == 3 * quarter;
    }

    lemma Quarter(capacity: nat) returns (quarter: nat)
      requires capacity % 4 == 0
      ensures capacity == 4 * quarter && (2 * capacity) % 4 == 0
    {
      quarter := capacity / 4;
      assert 2 * capacity == 4 * (2 * quarter);
    }

    /** The cost of any history of calls, in terms of its fresh insertions alone. */
    lemma Bounds()
      requires Valid()
      ensures 4 * visits == 3 * (capacity - 20)
      ensures visits <= 2 * inserts
      ensures 3 * capacity <= 60 || 3 * capacity <= 8 * inserts
      ensures |Contents()| <= inserts
    {
    }

    /** Resize, in terms of what every call keeps. */
    method Grow()
      requires Sound() && 0 < count <= capacity
      modifies this
      ensures Sound() && fresh(buckets)
      ensures Entries(buckets[..], order) == old(Entries(buckets[..], order))
      ensures capacity == 2 * old(capacity) && count == old(count) - old(tombstoneCount)
      ensures inserts == old(inserts) && visits == old(visits) + old(count)
    {
      hide Consistent, Entries, Tombstones;
      Resize();
    }

    /** The load check made before every insertion. */
    method MakeRoom()
      requires Valid()
      modifies this
      ensures Valid() && 4 * (count + 1) <= 3 * capacity
      ensures Contents() == old(Contents()) && inserts == old(inserts)
      ensures buckets == old(buckets) || fresh(buckets)
    {
      hide Consistent, Entries, Tombstones;
      if 4 * (count + 1) > 3 * capacity {
        Doubling(capacity, count, inserts, visits);
        Grow();
      }
    }

    // ---------- the three ways to set ----------

    method Set(key: Bytes, ksize: nat, val: V)
      requires Valid() && ksize <= |key|
      modifies this, buckets
      ensures Valid() && (buckets == old(buckets) || fresh(buckets))
      ensures Contents() == Put(old(Contents()), Entry(key, ksize, val))
      ensures inserts == old(inserts) + if Has(old(Contents()), key[..ksize]) then 0 else 1
    {
      hide Sound, Amortised, Unbroken;
      MakeRoom();
      var hash := hashOf(key[..ksize]);
      var i := FindEntry(key, ksize, hash);
      if buckets[i].key.NoKey? {
        Append(i, key, ksize, hash, val);
      } else {
        PresentWhere(i);
        PutKeepsBuffer(Contents(), Entry(key, ksize, val), buckets[i].key.bytes);
        Overwrite(i, buckets[i].key.bytes, val);
      }
    }

    /** `outIn` comes back as the value the key has afterwards. */
    method GetSet(key: Bytes, ksize: nat, inVal: V) returns (found: bool, outVal: V)
      requires Valid() && ksize <= |key|
      modifies this, buckets
      ensures Valid() && (buckets == old(buckets) || fresh(buckets))
      ensures Contents() == PutIfAbsent(old(Contents()), Entry(key, ksize, inVal))
      ensures found <==> Has(old(Contents()), key[..ksize])
      ensures Lookup(Contents(), key[..ksize]) == Some(outVal)
      ensures inserts == old(inserts) + if found then 0 else 1
    {
      hide Sound, Amortised, Unbroken;
      MakeRoom();
      var hash := hashOf(key[..ksize]);
      var i := FindEntry(key, ksize, hash);
      if buckets[i].key.NoKey? {
        Append(i, key, ksize, hash, inVal);
        LookupPut(old(Contents()), Entry(key, ksize, inVal), key[..ksize]);
        return false, inVal;
      }
      PresentWhere(i);
      return true, buckets[i].value;
    }

    /** `freed` is what the callback was given, if there was anything to free. */
    method SetFree(key: Bytes, ksize: nat, val: V) returns (freed: Option<Entry<V>>)
      requires Valid() && ksize <= |key|
      modifies this, buckets
      ensures Valid() && (buckets == old(buckets) || fresh(buckets))
      ensures Contents() == Replace(old(Contents()), Entry(key, ksize, val))
      ensures var s, p := old(Contents()), Position(old(Contents()), key[..ksize]);
              freed == if p < |s| then Some(s[p]) else None
      ensures exists i :: 0 <= i < |Contents()| && Contents()[i] == Entry(key, ksize, val)
      ensures inserts == old(inserts) + if freed.Some? then 0 else 1
    {
      hide Sound, Amortised, Unbroken;
      ReplaceHolds(Contents(), Entry(key, ksize, val));
      MakeRoom();
      var hash := hashOf(key[..ksize]);
      var i := FindEntry(key, ksize, hash);
      if buckets[i].key.NoKey? {
        Append(i, key, ksize, hash, val);
        return None;
      }
      PresentWhere(i);
      freed := Some(Entry(buckets[i].key.bytes, ksize, buckets[i].value));
      Overwrite(i, key, val);
    }

    // ---------- any run of calls ----------

    /** Whatever calls came before, one more call leaves the map that the calls on each key
        determine, oldest key first; by induction this holds after every run. */
    method Perform(op: Op<V>, ghost before: seq<Op<V>>)
      requires Valid() && op.ksize <= |op.key|
      requires Contents() == OrderedMap.Run(before)
      modifies this, buckets
      ensures Valid() && (buckets == old(buckets) || fresh(buckets))
      ensures Contents() == OrderedMap.Run(before + [op])
      ensures Tells(Contents(), Fates(before + [op]))
      ensures ToMap(Contents()) == PlainRun(before + [op])
    {
      RunAppend(before, op);
      RunTells(before + [op]);
      RunIsPlain(before + [op]);
      hide Sound, Amortised, Tells, ToMap, PlainRun, OrderedMap.Run, Put, PutIfAbsent, Replace, Delete;
      match op {
        case Set(k, n, v) => Set(k, n, v);
        case GetSet(k, n, v) => var _, _ := GetSet(k, n, v);
        case SetFree(k, n, v) => var _ := SetFree(k, n, v);
        case Get(k, n) => var _, _ := Get(k, n);
        case Remove(k, n) => Remove(k, n);
      }
    }
  }

  lemma RunAppend<V>(before: seq<Op<V>>, op: Op<V>)
    ensures OrderedMap.Run(before + [op]) == Apply(OrderedMap.Run(before), op)
  {
    assert (before + [op])[..|before|] == before;
  }
}
