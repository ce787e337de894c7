/** The bucket array of the hash map as a value: what one bucket means, how a probe walks,
    and the invariants that every operation keeps. */
module BucketTable {
  import opened CStrings
  import opened OrderedMap

  type Word32 = w: int | 0 <= w < 0x1_0000_0000

  /** A pointer to something whose first field is `next`: a bucket of some array, or the
      map itself, whose `first` field the C code treats as the `next` of an imaginary
      bucket. */
  datatype Addr<V> = Null | First | Slot(table: array<Bucket<V>>, index: nat)

  /** A key pointer; the buffer it points to is immutable. */
  datatype KeyPtr = NoKey | Key(bytes: Bytes)

  datatype Bucket<V> = Bucket(next: Addr<V>, key: KeyPtr, ksize: nat, hash: Word32, value: V)

  type Table<V> = seq<Bucket<V>>

  predicate Live<V>(b: Bucket<V>) {
    b.key.Key?
  }

  /** Never used since the array was allocated. A bucket with no key and another value is
      a tombstone. */
  ghost predicate Empty<V>(b: Bucket<V>, zero: V) {
    b.key.NoKey? && b.value == zero
  }

  ghost function EntryOf<V>(b: Bucket<V>): Entry<V>
    requires Live(b)
  {
    Entry(b.key.bytes, b.ksize, b.value)
  }

  ghost function Id<V>(b: Bucket<V>): Bytes
    requires Live(b)
  {
    Prefix(b.key.bytes, b.ksize)
  }

  ghost predicate Matches<V>(b: Bucket<V>, id: Bytes) {
    Live(b) && Id(b) == id
  }

  /** Equal but for the link. */
  ghost predicate SameData<V>(a: Bucket<V>, b: Bucket<V>) {
    a.key == b.key && a.ksize == b.ksize && a.hash == b.hash && a.value == b.value
  }

  // ---------- probing ----------

  function Home(hash: Word32, capacity: nat): (i: nat)
    requires capacity > 0
    ensures i < capacity
  {
    hash % capacity
  }

  /** How many steps of a probe lead from one index to another. */
  function Distance(from: nat, to: nat, capacity: nat): (d: nat)
    requires from < capacity && to < capacity
    ensures d < capacity
  {
    if from <= to then to - from else to - from + capacity
  }

  lemma NextIndex(i: nat, capacity: nat)
    requires i < capacity
    ensures (i + 1) % capacity == if i + 1 == capacity then 0 else i + 1
  {
    if i + 1 < capacity {
      SmallMod(i + 1, capacity);
    }
  }

  lemma SmallMod(i: nat, m: nat)
    requires i < m
    ensures i % m == i
  {
  }

  /** No bucket that a probe visits between the two indices is empty. */
  ghost predicate Unbroken<V>(t: Table<V>, zero: V, from: nat, to: nat)
    requires from < |t| && to < |t|
  {
    forall x :: 0 <= x < |t| && Distance(from, x, |t|) < Distance(from, to, |t|) ==> !Empty(t[x], zero)
  }

  /** None of them holds the key either. */
  ghost predicate Unmatched<V>(t: Table<V>, id: Bytes, from: nat, to: nat)
    requires from < |t| && to < |t|
  {
    forall x :: 0 <= x < |t| && Distance(from, x, |t|) < Distance(from, to, |t|) ==> !Matches(t[x], id)
  }

  /** One step of a probe, past a bucket that is not empty. */
  lemma ProbePast<V>(t: Table<V>, zero: V, home: nat, i: nat, e: nat)
    requires home < |t| && i < |t| && e < |t|
    requires Empty(t[e], zero) && !Empty(t[i], zero)
    requires Unbroken(t, zero, home, i)
    ensures var next := (i + 1) % |t|;
      && next < |t|
      && Unbroken(t, zero, home, next)
      && Distance(home, next, |t|) == Distance(home, i, |t|) + 1
  {
    NextIndex(i, |t|);
    assert Distance(home, i, |t|) < Distance(home, e, |t|);
  }

  /** One that does not hold the key either. */
  lemma ProbeOn<V>(t: Table<V>, zero: V, id: Bytes, home: nat, i: nat, e: nat)
    requires home < |t| && i < |t| && e < |t|
    requires Empty(t[e], zero)
    requires Unbroken(t, zero, home, i) && Unmatched(t, id, home, i)
    requires !Empty(t[i], zero) && !Matches(t[i], id)
    ensures var next := (i + 1) % |t|;
      && next < |t|
      && Unbroken(t, zero, home, next) && Unmatched(t, id, home, next)
      && Distance(home, next, |t|) == Distance(home, i, |t|) + 1
  {
    ProbePast(t, zero, home, i, e);
    NextIndex(i, |t|);
  }

  /** The comparison made at each bucket: sizes, then hashes, then bytes. */
  lemma Comparison<V>(b: Bucket<V>, hashOf: Bytes -> Word32, key: Bytes, ksize: nat)
    requires Keyed(b, hashOf) && Live(b)
    requires ksize <= |key|
    ensures b.ksize == ksize && b.hash == hashOf(key[..ksize]) && b.key.bytes[..ksize] == key[..ksize]
            <==> Matches(b, key[..ksize])
  {
  }

  // ---------- the invariant ----------

  ghost predicate Distinct(order: seq<nat>) {
    forall p, q :: 0 <= p < q < |order| ==> order[p] != order[q]
  }

  /** The list runs once through exactly the buckets that are not empty. */
  ghost predicate Covers<V>(t: Table<V>, zero: V, order: seq<nat>) {
    && Distinct(order)
    && (forall q :: 0 <= q < |order| ==> order[q] < |t|)
    && (forall i :: 0 <= i < |t| ==> (i in order <==> !Empty(t[i], zero)))
  }

  ghost predicate Keyed<V>(b: Bucket<V>, hashOf: Bytes -> Word32) {
    Live(b) ==> b.ksize <= |b.key.bytes| && b.hash == hashOf(Id(b))
  }

  /** Every live key is found where a probe for it looks first, and nowhere else. */
  ghost predicate Reachable<V>(t: Table<V>, zero: V, hashOf: Bytes -> Word32) {
    && (forall i :: 0 <= i < |t| ==> Keyed(t[i], hashOf))
    && (forall i :: 0 <= i < |t| && Live(t[i]) ==> Unbroken(t, zero, Home(t[i].hash, |t|), i))
    && (forall i, j :: 0 <= i < j < |t| && Live(t[i]) && Live(t[j]) ==> Id(t[i]) != Id(t[j]))
  }

  ghost predicate WellFormed<V>(t: Table<V>, zero: V, hashOf: Bytes -> Word32, order: seq<nat>) {
    |t| > 0 && Covers(t, zero, order) && Reachable(t, zero, hashOf)
  }

  /** The address of the q-th bucket of the list, or where the list goes on after it. */
  ghost function LinkTo<V>(table: array<Bucket<V>>, order: seq<nat>, q: nat, tail: Addr<V>): Addr<V> {
    if q < |order| then Slot(table, order[q]) else tail
  }

  /** `first`, the `next` fields and `last` thread the buckets in list order. */
  ghost predicate Linked<V>(t: Table<V>, table: array<Bucket<V>>, order: seq<nat>,
                            tail: Addr<V>, first: Addr<V>, last: Addr<V>)
    requires forall q :: 0 <= q < |order| ==> order[q] < |t|
  {
    && first == LinkTo(table, order, 0, tail)
    && (forall q :: 0 <= q < |order| ==> t[order[q]].next == LinkTo(table, order, q + 1, tail))
    && last == if order == [] then First else Slot(table, order[|order| - 1])
  }

  /** The whole table between calls. */
  ghost predicate Consistent<V>(t: Table<V>, table: array<Bucket<V>>, zero: V, hashOf: Bytes -> Word32,
                                order: seq<nat>, first: Addr<V>, last: Addr<V>) {
    WellFormed(t, zero, hashOf, order) && Linked(t, table, order, Null, first, last)
  }

  // ---------- contents ----------

  /** The live entries in list order. */
  ghost function Entries<V>(t: Table<V>, order: seq<nat>): (s: seq<Entry<V>>)
    requires forall q :: 0 <= q < |order| ==> order[q] < |t|
    ensures |s| <= |order|
  {
    if order == [] then []
    else
      var i := order[|order| - 1];
      Entries(t, order[..|order| - 1]) + if Live(t[i]) then [EntryOf(t[i])] else []
  }

  ghost function Tombstones<V>(t: Table<V>, order: seq<nat>): (n: nat)
    requires forall q :: 0 <= q < |order| ==> order[q] < |t|
    ensures n + |Entries(t, order)| == |order|
  {
    if order == [] then 0
    else Tombstones(t, order[..|order| - 1]) + if Live(t[order[|order| - 1]]) then 0 else 1
  }

  lemma {:induction false} EntriesFrame<V>(t: Table<V>, u: Table<V>, order: seq<nat>)
    requires |t| == |u|
    requires forall q :: 0 <= q < |order| ==> order[q] < |t| && SameData(t[order[q]], u[order[q]])
    ensures Entries(t, order) == Entries(u, order)
  {
    if order != [] {
      EntriesFrame(t, u, order[..|order| - 1]);
    }
  }

  lemma {:induction false} EntriesSplit<V>(t: Table<V>, order: seq<nat>, p: nat)
    requires forall q :: 0 <= q < |order| ==> order[q] < |t|
    requires p <= |order|
    ensures Entries(t, order) == Entries(t, order[..p]) + Entries(t, order[p..])
  {
    if p == |order| {
      assert order[..p] == order;
    } else {
      var n := |order| - 1;
      var end := if Live(t[order[n]]) then [EntryOf(t[order[n]])] else [];
      assert Entries(t, order) == Entries(t, order[..n]) + end;
      assert Entries(t, order[p..]) == Entries(t, order[p..][..n - p]) + end;
      hide Entries;
      EntriesSplit(t, order[..n], p);
      assert order[..n][..p] == order[..p];
      assert order[..n][p..] == order[p..][..n - p];
    }
  }

  lemma EntriesStep<V>(t: Table<V>, order: seq<nat>, p: nat)
    requires forall q :: 0 <= q < |order| ==> order[q] < |t|
    requires p < |order|
    ensures Entries(t, order[..p + 1]) ==
            Entries(t, order[..p]) + if Live(t[order[p]]) then [EntryOf(t[order[p]])] else []
  {
    assert order[..p + 1][..p] == order[..p];
  }

  /** Where the bucket at list position p stands among the live entries. */
  lemma EntryAt<V>(t: Table<V>, order: seq<nat>, p: nat)
    requires forall q :: 0 <= q < |order| ==> order[q] < |t|
    requires p < |order| && Live(t[order[p]])
    ensures Entries(t, order) == Entries(t, order[..p]) + [EntryOf(t[order[p]])] + Entries(t, order[p + 1..])
  {
    EntriesSplit(t, order, p + 1);
    EntriesStep(t, order, p);
    hide Entries;
  }

  /** Every entry of the list comes from a live bucket of it. */
  lemma {:induction false} EntryFrom<V>(t: Table<V>, order: seq<nat>, k: nat) returns (p: nat)
    requires forall q :: 0 <= q < |order| ==> order[q] < |t|
    requires k < |Entries(t, order)|
    ensures p < |order| && Live(t[order[p]]) && EntryOf(t[order[p]]) == Entries(t, order)[k]
    ensures |Entries(t, order[..p])| == k
  {
    var n := |order| - 1;
    if k < |Entries(t, order[..n])| {
      p := EntryFrom(t, order[..n], k);
      assert order[..n][..p] == order[..p];
    } else {
      p := n;
    }
  }

  lemma ContentsDistinct<V>(t: Table<V>, zero: V, hashOf: Bytes -> Word32, order: seq<nat>)
    requires WellFormed(t, zero, hashOf, order)
    ensures DistinctIds(Entries(t, order))
  {
    var s := Entries(t, order);
    forall i, j | 0 <= i < j < |s|
      ensures s[i].Id() != s[j].Id()
    {
      var p := EntryFrom(t, order, i);
      var q := EntryFrom(t, order, j);
      assert order[p] != order[q];
    }
  }

  /** A live bucket is the entry its key selects. */
  lemma PositionOfBucket<V>(t: Table<V>, zero: V, hashOf: Bytes -> Word32, order: seq<nat>, p: nat)
    requires WellFormed(t, zero, hashOf, order)
    requires p < |order| && Live(t[order[p]])
    ensures Position(Entries(t, order), Id(t[order[p]])) == |Entries(t, order[..p])| < |Entries(t, order)|
    ensures Entries(t, order)[|Entries(t, order[..p])|] == EntryOf(t[order[p]])
  {
    EntryAt(t, order, p);
    ContentsDistinct(t, zero, hashOf, order);
    PositionUnique(Entries(t, order), |Entries(t, order[..p])|);
  }

  // ---------- an empty bucket exists ----------

  ghost function Elements(order: seq<nat>): (r: set<nat>)
    ensures forall i :: i in r <==> i in order
    ensures Distinct(order) ==> |r| == |order|
  {
    if order == [] then {}
    else
      var n := |order| - 1;
      assert order == order[..n] + [order[n]];
      Elements(order[..n]) + {order[n]}
  }

  ghost function Below(n: nat): (r: set<nat>)
    ensures forall i :: i in r <==> 0 <= i < n
    ensures |r| == n
  {
    if n == 0 then {} else Below(n - 1) + {n - 1}
  }

  lemma SubsetSize(a: set<nat>, b: set<nat>)
    requires a <= b
    ensures |a| <= |b|
  {
    assert b == a + (b - a);
  }

  /** A table that is not full has an empty bucket, so every probe ends. */
  lemma SomeEmpty<V>(t: Table<V>, zero: V, order: seq<nat>) returns (e: nat)
    requires Covers(t, zero, order)
    requires |order| < |t|
    ensures e < |t| && Empty(t[e], zero)
  {
    var used, all := Elements(order), Below(|t|);
    if all <= used {
      SubsetSize(all, used);
      assert false;
    }
    e :| e in all && e !in used;
  }

  // ---------- what a finished probe tells ----------

  /** A probe that ends at an empty bucket has shown that the key is absent. */
  lemma EmptyMeansAbsent<V>(t: Table<V>, zero: V, hashOf: Bytes -> Word32, order: seq<nat>, id: Bytes, i: nat)
    requires WellFormed(t, zero, hashOf, order)
    requires i < |t| && Empty(t[i], zero)
    requires Unmatched(t, id, Home(hashOf(id), |t|), i)
    ensures forall j :: 0 <= j < |t| ==> !Matches(t[j], id)
    ensures !Has(Entries(t, order), id)
  {
    var home := Home(hashOf(id), |t|);
    forall j | 0 <= j < |t|
      ensures !Matches(t[j], id)
    {
      assert Keyed(t[j], hashOf);
      if Live(t[j]) && Home(t[j].hash, |t|) == home {
        assert Unbroken(t, zero, home, j);
        assert Distance(home, j, |t|) < Distance(home, i, |t|);
      }
    }
    var s := Entries(t, order);
    if Has(s, id) {
      var p := EntryFrom(t, order, Position(s, id));
      assert Matches(t[order[p]], id);
    }
  }

  // ---------- filling an empty bucket ----------

  /** `u` is `t` with the empty bucket `i` filled, up to links. */
  ghost predicate Fills<V>(t: Table<V>, u: Table<V>, zero: V, i: nat) {
    && i < |t| == |u|
    && Empty(t[i], zero) && Live(u[i])
    && forall x :: 0 <= x < |t| && x != i ==> SameData(t[x], u[x])
  }

  lemma FillCovers<V>(t: Table<V>, u: Table<V>, zero: V, order: seq<nat>, i: nat)
    requires Covers(t, zero, order)
    requires Fills(t, u, zero, i)
    ensures Covers(u, zero, order + [i])
  {
    var next := order + [i];
    forall x | 0 <= x < |u|
      ensures x in next <==> !Empty(u[x], zero)
    {
      assert x in next <==> x in order || x == i;
      assert x != i ==> SameData(t[x], u[x]);
    }
  }

  lemma FillReachable<V>(t: Table<V>, u: Table<V>, zero: V, hashOf: Bytes -> Word32, i: nat)
    requires |t| > 0 && Reachable(t, zero, hashOf)
    requires Fills(t, u, zero, i)
    requires Keyed(u[i], hashOf)
    requires forall j :: 0 <= j < |t| ==> !Matches(t[j], Id(u[i]))
    requires Unbroken(t, zero, Home(u[i].hash, |t|), i)
    ensures Reachable(u, zero, hashOf)
  {
    forall x | 0 <= x < |u|
      ensures Keyed(u[x], hashOf)
      ensures Live(u[x]) ==> Unbroken(u, zero, Home(u[x].hash, |u|), x)
    {
      assert x != i ==> SameData(t[x], u[x]);
      assert x != i ==> Keyed(t[x], hashOf);
      if Live(u[x]) {
        var home := Home(u[x].hash, |u|);
        assert Unbroken(t, zero, home, x);
        forall y | 0 <= y < |u| && Distance(home, y, |u|) < Distance(home, x, |u|)
          ensures !Empty(u[y], zero)
        {
          assert y != i ==> SameData(t[y], u[y]);
        }
      }
    }
    forall x, y | 0 <= x < y < |u| && Live(u[x]) && Live(u[y])
      ensures Id(u[x]) != Id(u[y])
    {
      assert x != i ==> SameData(t[x], u[x]) && !Matches(t[x], Id(u[i]));
      assert y != i ==> SameData(t[y], u[y]) && !Matches(t[y], Id(u[i]));
    }
  }

  lemma FillEntries<V>(t: Table<V>, u: Table<V>, zero: V, order: seq<nat>, i: nat)
    requires Covers(t, zero, order)
    requires Fills(t, u, zero, i)
    requires forall q :: 0 <= q < |order + [i]| ==> (order + [i])[q] < |u|
    ensures Entries(u, order + [i]) == Entries(t, order) + [EntryOf(u[i])]
    ensures Tombstones(u, order + [i]) == Tombstones(t, order)
  {
    assert i !in order;
    assert (order + [i])[..|order|] == order;
    EntriesFrame(t, u, order);
  }

  /** The list with one more bucket at its end: the former end, or `first`, points to it. */
  ghost predicate Extends<V>(t: Table<V>, u: Table<V>, table: array<Bucket<V>>, order: seq<nat>, i: nat,
                             first: Addr<V>, first': Addr<V>)
    requires |t| == |u| && i < |t|
    requires forall q :: 0 <= q < |order| ==> order[q] < |t|
  {
    && (forall x :: 0 <= x < |t| && x != i && (order != [] ==> x != order[|order| - 1]) ==> u[x].next == t[x].next)
    && (order != [] ==> u[order[|order| - 1]].next == Slot(table, i) && first' == first)
    && (order == [] ==> first' == Slot(table, i))
  }

  lemma ExtendLinked<V>(t: Table<V>, u: Table<V>, zero: V, table: array<Bucket<V>>, order: seq<nat>, i: nat,
                        tail: Addr<V>, first: Addr<V>, first': Addr<V>, last: Addr<V>)
    requires Covers(t, zero, order) && |t| == |u| && i < |t| && Empty(t[i], zero)
    requires Linked(t, table, order, tail, first, last)
    requires Extends(t, u, table, order, i, first, first')
    requires forall q :: 0 <= q < |order + [i]| ==> (order + [i])[q] < |u|
    ensures Linked(u, table, order + [i], u[i].next, first', Slot(table, i))
  {
    var next := order + [i];
    assert i !in order;
    forall q | 0 <= q < |next|
      ensures u[next[q]].next == LinkTo(table, next, q + 1, u[i].next)
    {
      if q + 1 < |order| {
        assert t[order[q]].next == LinkTo(table, order, q + 1, tail);
        assert order[q] != order[|order| - 1];
      }
    }
  }

  // ---------- turning a live bucket into a tombstone, or changing its value ----------

  /** `u` is `t` with bucket `i` changed but still used, all links kept. */
  ghost predicate Changes<V>(t: Table<V>, u: Table<V>, zero: V, i: nat) {
    && i < |t| == |u|
    && Live(t[i]) && !Empty(u[i], zero)
    && u[i].next == t[i].next
    && forall x :: 0 <= x < |t| && x != i ==> u[x] == t[x]
  }

  lemma ChangeWellFormed<V>(t: Table<V>, u: Table<V>, zero: V, hashOf: Bytes -> Word32, order: seq<nat>, i: nat)
    requires WellFormed(t, zero, hashOf, order)
    requires Changes(t, u, zero, i)
    requires Live(u[i]) ==> Keyed(u[i], hashOf) && Id(u[i]) == Id(t[i]) && u[i].hash == t[i].hash
    ensures WellFormed(u, zero, hashOf, order)
  {
    forall x | 0 <= x < |u|
      ensures Keyed(u[x], hashOf)
      ensures Live(u[x]) ==> Unbroken(u, zero, Home(u[x].hash, |u|), x)
    {
      assert Keyed(t[x], hashOf);
      if Live(u[x]) {
        assert Unbroken(t, zero, Home(t[x].hash, |t|), x);
      }
    }
    forall x, y | 0 <= x < y < |u| && Live(u[x]) && Live(u[y])
      ensures Id(u[x]) != Id(u[y])
    {
      assert Id(t[x]) != Id(t[y]);
    }
  }

  lemma ChangeLinked<V>(t: Table<V>, u: Table<V>, zero: V, table: array<Bucket<V>>, order: seq<nat>, i: nat,
                        tail: Addr<V>, first: Addr<V>, last: Addr<V>)
    requires Changes(t, u, zero, i)
    requires forall q :: 0 <= q < |order| ==> order[q] < |t|
    requires Linked(t, table, order, tail, first, last)
    ensures Linked(u, table, order, tail, first, last)
  {
    forall q | 0 <= q < |order|
      ensures u[order[q]].next == LinkTo(table, order, q + 1, tail)
    {
      assert u[order[q]].next == t[order[q]].next;
    }
  }

  lemma ChangeEntries<V>(t: Table<V>, u: Table<V>, zero: V, hashOf: Bytes -> Word32, order: seq<nat>, p: nat)
    requires WellFormed(t, zero, hashOf, order)
    requires p < |order| && Changes(t, u, zero, order[p])
    ensures Position(Entries(t, order), Id(t[order[p]])) < |Entries(t, order)|
    ensures
      var s, k := Entries(t, order), Position(Entries(t, order), Id(t[order[p]]));
      Entries(u, order) == if Live(u[order[p]]) then s[k := EntryOf(u[order[p]])] else s[..k] + s[k + 1..]
  {
    PositionOfBucket(t, zero, hashOf, order, p);
    EntryAt(t, order, p);
    EntryChanged(t, u, zero, order, p);
    hide WellFormed, Entries, Position, Empty, SameData;
    var a, b := Entries(t, order[..p]), Entries(t, order[p + 1..]);
    if Live(u[order[p]]) {
      Splice(a, EntryOf(t[order[p]]), b, EntryOf(u[order[p]]));
    } else {
      Splice(a, EntryOf(t[order[p]]), b, EntryOf(t[order[p]]));
      assert a + [] + b == a + b;
    }
  }

  lemma Splice<T>(a: seq<T>, e: T, b: seq<T>, f: T)
    ensures (a + [e] + b)[|a| := f] == a + [f] + b
    ensures (a + [e] + b)[..|a|] + (a + [e] + b)[|a| + 1..] == a + b
  {
  }

  lemma EntryChanged<V>(t: Table<V>, u: Table<V>, zero: V, order: seq<nat>, p: nat)
    requires Covers(t, zero, order)
    requires p < |order| && Changes(t, u, zero, order[p])
    ensures Entries(u, order) == Entries(t, order[..p])
                               + (if Live(u[order[p]]) then [EntryOf(u[order[p]])] else [])
                               + Entries(t, order[p + 1..])
  {
    EntriesSplit(u, order, p + 1);
    assert order[..p + 1][..p] == order[..p];
    EntriesFrame(t, u, order[..p]);
    EntriesFrame(t, u, order[p + 1..]);
  }

  /** A live bucket is on the list, and its key selects its entry. */
  lemma LiveIsListed<V>(t: Table<V>, zero: V, hashOf: Bytes -> Word32, order: seq<nat>, i: nat) returns (p: nat)
    requires WellFormed(t, zero, hashOf, order)
    requires i < |t| && Live(t[i])
    ensures p < |order| && order[p] == i
    ensures var s, k := Entries(t, order), Position(Entries(t, order), Id(t[i]));
            k < |s| && s[k] == EntryOf(t[i])
  {
    p :| 0 <= p < |order| && order[p] == i;
    PositionOfBucket(t, zero, hashOf, order, p);
  }

  /** A change to one live bucket, as seen by the whole map. */
  lemma ChangeKeeps<V>(t: Table<V>, u: Table<V>, zero: V, hashOf: Bytes -> Word32, table: array<Bucket<V>>,
                       order: seq<nat>, first: Addr<V>, last: Addr<V>, i: nat)
    requires Consistent(t, table, zero, hashOf, order, first, last)
    requires Changes(t, u, zero, i)
    requires Live(u[i]) ==> u[i].ksize == t[i].ksize <= |u[i].key.bytes|
    requires Live(u[i]) ==> Id(u[i]) == Id(t[i]) && u[i].hash == t[i].hash
    ensures Consistent(u, table, zero, hashOf, order, first, last)
  {
    assert Keyed(t[i], hashOf);
    ChangeWellFormed(t, u, zero, hashOf, order, i);
    ChangeLinked(t, u, zero, table, order, i, Null, first, last);
  }

  lemma OverwriteKeeps<V>(t: Table<V>, u: Table<V>, zero: V, hashOf: Bytes -> Word32, table: array<Bucket<V>>,
                          order: seq<nat>, first: Addr<V>, last: Addr<V>, i: nat)
    requires Consistent(t, table, zero, hashOf, order, first, last)
    requires Changes(t, u, zero, i) && Live(u[i])
    requires u[i].ksize == t[i].ksize <= |u[i].key.bytes| && Id(u[i]) == Id(t[i]) && u[i].hash == t[i].hash
    ensures Consistent(u, table, zero, hashOf, order, first, last)
    ensures Position(Entries(t, order), Id(t[i])) < |Entries(t, order)|
    ensures Entries(t, order)[Position(Entries(t, order), Id(t[i]))] == EntryOf(t[i])
    ensures Entries(u, order) == Entries(t, order)[Position(Entries(t, order), Id(t[i])) := EntryOf(u[i])]
    ensures Tombstones(u, order) == Tombstones(t, order)
  {
    ChangeKeeps(t, u, zero, hashOf, table, order, first, last, i);
    var p := LiveIsListed(t, zero, hashOf, order, i);
    ChangeEntries(t, u, zero, hashOf, order, p);
  }

  /** The bucket afterwards: as before, or a tombstone if it held the removed key. */
  ghost predicate Buried<V>(was: Bucket<V>, now: Bucket<V>, dead: V, id: Bytes) {
    now == if Matches(was, id) then was.(key := NoKey, value := dead) else was
  }

  lemma BuryKeeps<V>(t: Table<V>, u: Table<V>, zero: V, dead: V, hashOf: Bytes -> Word32, table: array<Bucket<V>>,
                     order: seq<nat>, first: Addr<V>, last: Addr<V>, i: nat)
    requires Consistent(t, table, zero, hashOf, order, first, last)
    requires i < |t| && Live(t[i]) && dead != zero
    requires u == t[i := t[i].(key := NoKey, value := dead)]
    ensures Consistent(u, table, zero, hashOf, order, first, last)
    ensures Entries(u, order) == Delete(Entries(t, order), Id(t[i]))
    ensures Tombstones(u, order) == Tombstones(t, order) + 1
    ensures forall x :: 0 <= x < |t| ==> Buried(t[x], u[x], dead, Id(t[i]))
  {
    ChangeKeeps(t, u, zero, hashOf, table, order, first, last, i);
    var p := LiveIsListed(t, zero, hashOf, order, i);
    ChangeEntries(t, u, zero, hashOf, order, p);
    forall x | 0 <= x < |t|
      ensures Buried(t[x], u[x], dead, Id(t[i]))
    {
      if x != i && Live(t[x]) {
        assert Id(t[x]) != Id(t[i]);
      }
    }
  }

  /** A new key in an empty bucket, linked at the end of the list. */
  lemma FillKeeps<V>(t: Table<V>, u: Table<V>, zero: V, hashOf: Bytes -> Word32, table: array<Bucket<V>>,
                     order: seq<nat>, tail: Addr<V>, first: Addr<V>, first': Addr<V>, last: Addr<V>, i: nat)
    requires WellFormed(t, zero, hashOf, order)
    requires Linked(t, table, order, tail, first, last)
    requires Fills(t, u, zero, i)
    requires Keyed(u[i], hashOf)
    requires !Has(Entries(t, order), Id(u[i]))
    requires Unbroken(t, zero, Home(u[i].hash, |t|), i)
    requires Extends(t, u, table, order, i, first, first')
    ensures WellFormed(u, zero, hashOf, order + [i])
    ensures Linked(u, table, order + [i], u[i].next, first', Slot(table, i))
    ensures Entries(u, order + [i]) == Entries(t, order) + [EntryOf(u[i])]
    ensures Tombstones(u, order + [i]) == Tombstones(t, order)
  {
    FillCovers(t, u, zero, order, i);
    forall j | 0 <= j < |t|
      ensures !Matches(t[j], Id(u[i]))
    {
      if Live(t[j]) {
        var p :| 0 <= p < |order| && order[p] == j;
        PositionOfBucket(t, zero, hashOf, order, p);
      }
    }
    FillReachable(t, u, zero, hashOf, i);
    FillEntries(t, u, zero, order, i);
    ExtendLinked(t, u, zero, table, order, i, tail, first, first', last);
  }

  /** As FillKeeps, between calls. */
  lemma AppendKeeps<V>(t: Table<V>, u: Table<V>, zero: V, hashOf: Bytes -> Word32, table: array<Bucket<V>>,
                       order: seq<nat>, first: Addr<V>, first': Addr<V>, last: Addr<V>, i: nat,
                       key: Bytes, ksize: nat, val: V)
    requires Consistent(t, table, zero, hashOf, order, first, last)
    requires ksize <= |key|
    requires Fills(t, u, zero, i)
    requires u[i] == Bucket(Null, Key(key), ksize, hashOf(key[..ksize]), val)
    requires !Has(Entries(t, order), key[..ksize])
    requires Unbroken(t, zero, Home(hashOf(key[..ksize]), |t|), i)
    requires Extends(t, u, table, order, i, first, first')
    ensures Consistent(u, table, zero, hashOf, order + [i], first', Slot(table, i))
    ensures Entries(u, order + [i]) == Entries(t, order) + [Entry(key, ksize, val)]
    ensures Tombstones(u, order + [i]) == Tombstones(t, order)
  {
    FillKeeps(t, u, zero, hashOf, table, order, Null, first, first', last, i);
  }
}
