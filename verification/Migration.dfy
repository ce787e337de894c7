/** The state in the middle of a resize: the list runs through new buckets first, then goes
    on through old ones, and one pointer crosses between the two arrays. */
module Migration {
  import opened CStrings
  import opened OrderedMap
  import opened BucketTable

  /** The old array, fixed while its list is carried over. */
  datatype Source<V> = Source(t: Table<V>, table: array<Bucket<V>>, order: seq<nat>) {
    ghost predicate Sound(zero: V, hashOf: Bytes -> Word32) {
      && WellFormed(t, zero, hashOf, order)
      && forall q :: 0 <= q < |order| ==> t[order[q]].next == Link(q + 1)
    }

    ghost function Link(q: nat): Addr<V> {
      LinkTo(table, order, q, Null)
    }
  }

  /** After `k` nodes of the old list: the new table is well-formed and free of
      tombstones, holds the live ones among them in order, and its last bucket (or the
      map, if there is none) points at node `k` of the old list. */
  ghost predicate Migrating<V>(old': Source<V>, k: nat, t: Table<V>, table: array<Bucket<V>>, zero: V,
                               hashOf: Bytes -> Word32, order: seq<nat>, first: Addr<V>, last: Addr<V>) {
    && old'.Sound(zero, hashOf)
    && |order| <= k <= |old'.order| < |t|
    && WellFormed(t, zero, hashOf, order)
    && (forall i :: 0 <= i < |t| ==> Live(t[i]) || Empty(t[i], zero))
    && Linked(t, table, order, old'.Link(k), first, last)
    && Entries(t, order) == Entries(old'.t, old'.order[..k])
  }

  lemma Start<V>(old': Source<V>, t: Table<V>, table: array<Bucket<V>>, zero: V, hashOf: Bytes -> Word32)
    requires old'.Sound(zero, hashOf)
    requires |old'.order| < |t|
    requires forall i :: 0 <= i < |t| ==> Empty(t[i], zero)
    ensures Migrating(old', 0, t, table, zero, hashOf, [], old'.Link(0), First)
  {
  }

  /** What `m->last->next` is. */
  lemma Crossing<V>(old': Source<V>, k: nat, t: Table<V>, table: array<Bucket<V>>, zero: V,
                    hashOf: Bytes -> Word32, order: seq<nat>, first: Addr<V>, last: Addr<V>)
    requires Migrating(old', k, t, table, zero, hashOf, order, first, last)
    ensures last.First? || (last.Slot? && last.table == table && last.index < |t|)
    ensures old'.Link(k) == if last.First? then first else t[last.index].next
    ensures k < |old'.order| ==> old'.order[k] < |old'.t|
  {
    if order != [] {
      assert t[order[|order| - 1]].next == LinkTo(table, order, |order|, old'.Link(k));
    }
  }

  /** There is a free place for the next bucket. */
  lemma Room<V>(old': Source<V>, k: nat, t: Table<V>, table: array<Bucket<V>>, zero: V,
                hashOf: Bytes -> Word32, order: seq<nat>, first: Addr<V>, last: Addr<V>)
    requires Migrating(old', k, t, table, zero, hashOf, order, first, last)
    ensures |order| < |t| && Covers(t, zero, order)
    ensures forall i :: 0 <= i < |t| ==> Live(t[i]) || Empty(t[i], zero)
    ensures last.Slot? ==> last.index < |t| && !Empty(t[last.index], zero)
  {
    assert last.Slot? ==> last.index in order;
  }

  /** A tombstone is passed over. */
  lemma Skip<V>(old': Source<V>, k: nat, t: Table<V>, u: Table<V>, table: array<Bucket<V>>, zero: V,
                hashOf: Bytes -> Word32, order: seq<nat>, first: Addr<V>, first': Addr<V>, last: Addr<V>)
    requires Migrating(old', k, t, table, zero, hashOf, order, first, last)
    requires k < |old'.order| && !Live(old'.t[old'.order[k]])
    requires last.First? ==> first' == old'.Link(k + 1) && u == t
    requires last.Slot? && last.index < |t| ==>
               first' == first && u == t[last.index := t[last.index].(next := old'.Link(k + 1))]
    ensures Migrating(old', k + 1, u, table, zero, hashOf, order, first', last)
  {
    SkipEntries(old', k, zero, hashOf);
    if order != [] {
      Relinked(t, u, zero, last.index, old'.Link(k + 1));
      SameUpToLinks(t, u, zero, hashOf, order);
      RelinkTail(t, u, table, order, old'.Link(k), old'.Link(k + 1), first, last);
    }
  }

  lemma Relinked<V>(t: Table<V>, u: Table<V>, zero: V, e: nat, to: Addr<V>)
    requires e < |t| && u == t[e := t[e].(next := to)]
    ensures forall x :: 0 <= x < |t| ==> SameData(t[x], u[x])
    ensures (forall i :: 0 <= i < |t| ==> Live(t[i]) || Empty(t[i], zero)) ==>
            (forall i :: 0 <= i < |t| ==> Live(u[i]) || Empty(u[i], zero))
  {
  }

  lemma SkipEntries<V>(old': Source<V>, k: nat, zero: V, hashOf: Bytes -> Word32)
    requires old'.Sound(zero, hashOf)
    requires k < |old'.order| && !Live(old'.t[old'.order[k]])
    ensures Entries(old'.t, old'.order[..k + 1]) == Entries(old'.t, old'.order[..k])
  {
    EntriesStep(old'.t, old'.order, k);
  }

  /** Nothing but `Linked` looks at the links. */
  lemma SameUpToLinks<V>(t: Table<V>, u: Table<V>, zero: V, hashOf: Bytes -> Word32, order: seq<nat>)
    requires WellFormed(t, zero, hashOf, order)
    requires |u| == |t| && forall x :: 0 <= x < |t| ==> SameData(t[x], u[x])
    ensures WellFormed(u, zero, hashOf, order)
    ensures Entries(u, order) == Entries(t, order)
  {
    EntriesFrame(t, u, order);
    forall x | 0 <= x < |u|
      ensures x in order <==> !Empty(u[x], zero)
      ensures Keyed(u[x], hashOf)
    {
      assert SameData(t[x], u[x]);
      assert Keyed(t[x], hashOf);
    }
    forall x | 0 <= x < |u| && Live(u[x])
      ensures Unbroken(u, zero, Home(u[x].hash, |u|), x)
    {
      var home := Home(u[x].hash, |u|);
      assert SameData(t[x], u[x]);
      assert Unbroken(t, zero, home, x);
      forall y | 0 <= y < |u| && Distance(home, y, |u|) < Distance(home, x, |u|)
        ensures !Empty(u[y], zero)
      {
        assert SameData(t[y], u[y]);
      }
    }
    forall x, y | 0 <= x < y < |u| && Live(u[x]) && Live(u[y])
      ensures Id(u[x]) != Id(u[y])
    {
      assert SameData(t[x], u[x]) && SameData(t[y], u[y]);
    }
  }

  lemma RelinkTail<V>(t: Table<V>, u: Table<V>, table: array<Bucket<V>>, order: seq<nat>,
                      tail: Addr<V>, tail': Addr<V>, first: Addr<V>, last: Addr<V>)
    requires Distinct(order) && order != []
    requires forall q :: 0 <= q < |order| ==> order[q] < |t|
    requires Linked(t, table, order, tail, first, last)
    requires var e := order[|order| - 1]; u == t[e := t[e].(next := tail')]
    ensures Linked(u, table, order, tail', first, last)
  {
    forall q | 0 <= q < |order|
      ensures u[order[q]].next == LinkTo(table, order, q + 1, tail')
    {
      if q + 1 < |order| {
        assert order[q] != order[|order| - 1];
        assert t[order[q]].next == LinkTo(table, order, q + 1, tail);
      }
    }
  }

  /** The next live key is not in the new table yet. */
  lemma NotYet<V>(old': Source<V>, k: nat, zero: V, hashOf: Bytes -> Word32)
    requires old'.Sound(zero, hashOf)
    requires k < |old'.order| && Live(old'.t[old'.order[k]])
    ensures !Has(Entries(old'.t, old'.order[..k]), Id(old'.t[old'.order[k]]))
    ensures Entries(old'.t, old'.order[..k + 1]) == Entries(old'.t, old'.order[..k]) + [EntryOf(old'.t[old'.order[k]])]
  {
    var t, order := old'.t, old'.order;
    EntriesStep(t, order, k);
    var id, before := Id(t[order[k]]), Entries(t, order[..k]);
    if Has(before, id) {
      var p := EntryFrom(t, order[..k], Position(before, id));
      assert false;
    }
  }

  /** A live bucket is copied to index `i` and linked at the end of the new part. */
  lemma Carry<V>(old': Source<V>, k: nat, t: Table<V>, u: Table<V>, table: array<Bucket<V>>, zero: V,
                 hashOf: Bytes -> Word32, order: seq<nat>, first: Addr<V>, first': Addr<V>, last: Addr<V>, i: nat)
    requires Migrating(old', k, t, table, zero, hashOf, order, first, last)
    requires k < |old'.order| && Live(old'.t[old'.order[k]])
    requires i < |t| && Empty(t[i], zero)
    requires Unbroken(t, zero, Home(old'.t[old'.order[k]].hash, |t|), i)
    requires var b := t[i := old'.t[old'.order[k]]];
             && (last.First? ==> first' == Slot(table, i) && u == b)
             && (last.Slot? && last.index < |t| ==>
                   first' == first && u == b[last.index := b[last.index].(next := Slot(table, i))])
    ensures Migrating(old', k + 1, u, table, zero, hashOf, order + [i], first', Slot(table, i))
  {
    var b := old'.t[old'.order[k]];
    assert i !in order;
    assert Keyed(b, hashOf);
    NotYet(old', k, zero, hashOf);
    assert b.next == old'.Link(k + 1);
    Placed(t, u, table, zero, order, b, i, first, first', last);
    FillKeeps(t, u, zero, hashOf, table, order, old'.Link(k), first, first', last, i);
    forall x | 0 <= x < |u|
      ensures Live(u[x]) || Empty(u[x], zero)
    {
      assert x != i ==> SameData(t[x], u[x]);
    }
  }

  lemma Placed<V>(t: Table<V>, u: Table<V>, table: array<Bucket<V>>, zero: V, order: seq<nat>, b: Bucket<V>, i: nat,
                  first: Addr<V>, first': Addr<V>, last: Addr<V>)
    requires i < |t| && Empty(t[i], zero) && Live(b)
    requires forall q :: 0 <= q < |order| ==> order[q] < |t| && order[q] != i
    requires last == if order == [] then First else Slot(table, order[|order| - 1])
    requires last.First? ==> first' == Slot(table, i) && u == t[i := b]
    requires last.Slot? ==> first' == first && u == t[i := b][last.index := t[last.index].(next := Slot(table, i))]
    ensures Fills(t, u, zero, i) && u[i] == b
    ensures Extends(t, u, table, order, i, first, first')
  {
  }

  lemma Finish<V>(old': Source<V>, t: Table<V>, table: array<Bucket<V>>, zero: V,
                  hashOf: Bytes -> Word32, order: seq<nat>, first: Addr<V>, last: Addr<V>)
    requires Migrating(old', |old'.order|, t, table, zero, hashOf, order, first, last)
    ensures Consistent(t, table, zero, hashOf, order, first, last)
    ensures Entries(t, order) == Entries(old'.t, old'.order)
    ensures Tombstones(t, order) == 0
  {
    assert old'.order[..|old'.order|] == old'.order;
    NoTombstones(t, zero, order);
  }

  lemma {:induction false} NoTombstones<V>(t: Table<V>, zero: V, order: seq<nat>)
    requires forall q :: 0 <= q < |order| ==> order[q] < |t| && Live(t[order[q]])
    ensures Tombstones(t, order) == 0
  {
    if order != [] {
      NoTombstones(t, zero, order[..|order| - 1]);
    }
  }
}
