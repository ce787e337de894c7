/** The LRU cache: a doubly linked list between two sentinels, and a hash map from keys to
    the nodes of that list. */
module Lru {
  import opened CStrings
  import OrderedMap
  import opened HashTable
  import opened PathKeys
  import opened LruSpec
  import opened LruRecency

  /** What `get_LRU` answers for a key it does not have. */
  const MISS: int := -1

  class Node {
    var key: Bytes
    var val: int
    var next: Node?
    var prev: Node?

    constructor (key: Bytes, val: int)
      ensures this.key == key && this.val == val
    {
      this.key, this.val := key, val;
      next, prev := null, null;
    }
  }

  type NodeMap = seq<OrderedMap.Entry<Node?>>

  // ---------- the index ----------

  /** The map takes the key of every listed node to that node, and holds nothing else. */
  ghost predicate Indexed(s: NodeMap, nodes: seq<Node>, items: Items) {
    && |s| == |nodes| == |items|
    && OrderedMap.DistinctIds(s) && DistinctKeys(items)
    && (forall i :: 0 <= i < |items| ==> items[i].key != [])
    && (forall i :: 0 <= i < |items| ==> OrderedMap.Lookup(s, LruKey(items[i].key)) == Some(nodes[i]))
    && (forall id :: OrderedMap.Has(s, id) ==> exists i :: 0 <= i < |items| && LruKey(items[i].key) == id)
  }

  function RemoveAt<T>(s: seq<T>, p: nat): (r: seq<T>)
    requires p < |s|
    ensures |r| == |s| - 1
    ensures forall i :: 0 <= i < |r| ==> r[i] == s[if i < p then i else i + 1]
  {
    s[..p] + s[p + 1..]
  }

  /** The element at `p` first, the others after it in their order. */
  function ToFront<T>(s: seq<T>, p: nat): (r: seq<T>)
    requires p < |s|
    ensures |r| == |s| && forall i :: 0 <= i < |r| ==> r[i] in s
  {
    [s[p]] + RemoveAt(s, p)
  }

  lemma IndexedLookup(s: NodeMap, nodes: seq<Node>, items: Items, key: Bytes) returns (p: nat)
    requires Indexed(s, nodes, items) && key != []
    ensures p <= |items|
    ensures p < |items| ==> items[p].key == key && OrderedMap.Lookup(s, LruKey(key)) == Some(nodes[p])
    ensures p == |items| ==> OrderedMap.Lookup(s, LruKey(key)) == None && Find(items, key) == None
  {
    hide LruKey;
    if i :| 0 <= i < |items| && items[i].key == key {
      p := i;
    } else {
      p := |items|;
      if OrderedMap.Has(s, LruKey(key)) {
        var j :| 0 <= j < |items| && LruKey(items[j].key) == LruKey(key);
        LruKeyInjective(items[j].key, key);
        assert false;
      }
    }
  }

  lemma IndexedRemove(s: NodeMap, nodes: seq<Node>, items: Items, p: nat)
    requires Indexed(s, nodes, items) && p < |items|
    ensures Indexed(OrderedMap.Delete(s, LruKey(items[p].key)), RemoveAt(nodes, p), RemoveAt(items, p))
  {
    hide LruKey, RemoveAt, OrderedMap.Position;
    var id := LruKey(items[p].key);
    var t, ns, rest := OrderedMap.Delete(s, id), RemoveAt(nodes, p), RemoveAt(items, p);
    assert OrderedMap.Has(s, id);
    var e: OrderedMap.Entry<Node?> := OrderedMap.Entry(id, |id|, null);
    assert e.Id() == id;
    OrderedMap.OperationsKeepDistinct(s, e);
    forall i | 0 <= i < |rest|
      ensures OrderedMap.Lookup(t, LruKey(rest[i].key)) == Some(ns[i])
    {
      LruKeyInjective(rest[i].key, items[p].key);
      OrderedMap.LookupDelete(s, id, LruKey(rest[i].key));
    }
    forall k | OrderedMap.Has(t, k)
      ensures exists i :: 0 <= i < |rest| && LruKey(rest[i].key) == k
    {
      OrderedMap.LookupDelete(s, id, k);
      assert OrderedMap.Has(s, k);
      var i :| 0 <= i < |items| && LruKey(items[i].key) == k;
      assert i != p;
      assert LruKey(rest[if i < p then i else i - 1].key) == k;
    }
  }

  lemma IndexedAdd(s: NodeMap, nodes: seq<Node>, items: Items, n: Node, x: Item)
    requires Indexed(s, nodes, items) && x.key != []
    requires forall i :: 0 <= i < |items| ==> items[i].key != x.key
    ensures !OrderedMap.Has(s, LruKey(x.key))
    ensures Indexed(OrderedMap.Put(s, OrderedMap.Entry(LruKey(x.key), |LruKey(x.key)|, n)), [n] + nodes, [x] + items)
  {
    hide LruKey, OrderedMap.Position;
    var id := LruKey(x.key);
    var e: OrderedMap.Entry<Node?> := OrderedMap.Entry(id, |id|, n);
    var t, ns, all := OrderedMap.Put(s, e), [n] + nodes, [x] + items;
    assert e.Id() == id;
    if OrderedMap.Has(s, id) {
      var i :| 0 <= i < |items| && LruKey(items[i].key) == id;
      LruKeyInjective(items[i].key, x.key);
      assert false;
    }
    OrderedMap.OperationsKeepDistinct(s, e);
    forall i | 0 <= i < |all|
      ensures OrderedMap.Lookup(t, LruKey(all[i].key)) == Some(ns[i])
    {
      OrderedMap.LookupPut(s, e, LruKey(all[i].key));
      LruKeyInjective(all[i].key, x.key);
    }
    forall k | OrderedMap.Has(t, k)
      ensures exists i :: 0 <= i < |all| && LruKey(all[i].key) == k
    {
      OrderedMap.LookupPut(s, e, k);
      if k == id {
        assert LruKey(all[0].key) == k;
      } else {
        assert OrderedMap.Has(s, k);
        var i :| 0 <= i < |items| && LruKey(items[i].key) == k;
        assert LruKey(all[i + 1].key) == k;
      }
    }
  }

  /** Taking out the node of a key is `Without`. */
  lemma {:induction false} RemoveAtIsWithout(items: Items, p: nat)
    requires DistinctKeys(items) && p < |items|
    ensures Without(items, items[p].key) == RemoveAt(items, p)
    ensures Find(items, items[p].key) == Some(items[p].val)
  {
    hide RemoveAt;
    var k := items[p].key;
    if p == 0 {
      assert Find(items[1..], k).None? by {
        assert forall i :: 0 <= i < |items[1..]| ==> items[1..][i] == items[i + 1];
      }
      WithoutAbsent(items[1..], k);
      assert [] + items[1..] == RemoveAt(items, 0);
    } else {
      RemoveAtIsWithout(items[1..], p - 1);
      assert [items[0]] + RemoveAt(items[1..], p - 1) == RemoveAt(items, p);
    }
  }

  /** A get, place by place: a hit goes first and answers, a miss answers -1. */
  ghost predicate GetEffect(before: Items, key: Bytes, ans: int, after: Items) {
    && ((forall p :: 0 <= p < |before| ==> before[p].key != key) ==> ans == -1 && after == before)
    && forall p :: 0 <= p < |before| && before[p].key == key ==>
         ans == before[p].val && after == [before[p]] + before[..p] + before[p + 1..]
  }

  /** A put: the new item goes first, and the old one of its key goes, or else the last one
      if the cache is full. */
  ghost predicate PutEffect(before: Items, capacity: nat, key: Bytes, value: int, after: Items) {
    && (forall p :: 0 <= p < |before| && before[p].key == key ==>
          after == [Item(key, value)] + before[..p] + before[p + 1..])
    && ((forall p :: 0 <= p < |before| ==> before[p].key != key) ==>
          if |before| < capacity then after == [Item(key, value)] + before
          else 0 < capacity && after == [Item(key, value)] + before[..capacity - 1])
  }

  lemma GetExactly(items: Items, key: Bytes)
    requires DistinctKeys(items)
    ensures GetEffect(items, key, match Find(items, key) case None => -1 case Some(v) => v, AfterGet(items, key))
  {
    if p :| 0 <= p < |items| && items[p].key == key {
      RemoveAtIsWithout(items, p);
      assert [items[p]] + items[..p] + items[p + 1..] == [items[p]] + (items[..p] + items[p + 1..]);
    }
  }

  lemma PutExactly(items: Items, capacity: nat, key: Bytes, value: int)
    requires DistinctKeys(items) && 1 <= capacity && |items| <= capacity
    ensures PutEffect(items, capacity, key, value, AfterPut(items, capacity, key, value))
  {
    if p :| 0 <= p < |items| && items[p].key == key {
      PutPresent(items, capacity, p, value);
    } else {
      PutAbsent(items, capacity, key, value);
    }
    hide AfterPut;
  }

  lemma PutAbsent(items: Items, capacity: nat, key: Bytes, value: int)
    requires 1 <= capacity && |items| <= capacity
    requires forall p :: 0 <= p < |items| ==> items[p].key != key
    ensures AfterPut(items, capacity, key, value) ==
            [Item(key, value)] + if |items| < capacity then items else items[..capacity - 1]
  {
    WithoutAbsent(items, key);
    hide Without;
    var all := [Item(key, value)] + items;
    assert |items| == capacity ==> all[..capacity] == [Item(key, value)] + items[..capacity - 1];
    assert all[..|all|] == all;
  }

  lemma PutPresent(items: Items, capacity: nat, p: nat, value: int)
    requires DistinctKeys(items) && p < |items| <= capacity
    ensures AfterPut(items, capacity, items[p].key, value) ==
            [Item(items[p].key, value)] + items[..p] + items[p + 1..]
  {
    RemoveAtIsWithout(items, p);
    hide Without;
    var x, rest := [Item(items[p].key, value)], items[..p] + items[p + 1..];
    assert (x + rest)[..|x + rest|] == x + rest;
    assert x + items[..p] + items[p + 1..] == x + rest;
  }

  // ---------- the key wrappers ----------

  method SetValueLr(m: HashMap<Node?>, key: Bytes, val: Node?)
    requires m.Valid() && key != []
    modifies m, m.buckets
    ensures m.Valid() && (m.buckets == old(m.buckets) || fresh(m.buckets))
    ensures m.Contents() == OrderedMap.Put(old(m.Contents()), OrderedMap.Entry(LruKey(key), |LruKey(key)|, val))
    ensures m.inserts == old(m.inserts) + if OrderedMap.Has(old(m.Contents()), LruKey(key)) then 0 else 1
  {
    hide HashMap<Node?>.Sound, LruKey, OrderedMap.Put;
    var temp := LruKey(key);
    assert temp[..|temp|] == temp;
    m.Set(temp, |temp|, val);
  }

  method GetValueLr(m: HashMap<Node?>, key: Bytes) returns (n: Node?)
    requires m.Valid() && key != []
    ensures n == match OrderedMap.Lookup(m.Contents(), LruKey(key)) case None => null case Some(x) => x
  {
    hide HashMap<Node?>.Sound, LruKey;
    var temp := LruKey(key);
    assert temp[..|temp|] == temp;
    var found, result := m.Get(temp, |temp|);
    if found {
      return result;
    } else {
      return null;
    }
  }

  method RemoveEntryLr(m: HashMap<Node?>, key: Bytes)
    requires m.Valid() && key != []
    modifies m`tombstoneCount, m.buckets
    ensures m.Valid()
    ensures m.Contents() == OrderedMap.Delete(old(m.Contents()), LruKey(key))
  {
    hide HashMap<Node?>.Sound, LruKey, OrderedMap.Delete;
    var temp := LruKey(key);
    assert temp[..|temp|] == temp;
    m.Remove(temp, |temp|);
  }

  // ---------- the list ----------

  /** The nodes carry the keys and values of the items, one for one. */
  ghost predicate Hold(nodes: seq<Node>, items: Items)
    reads nodes
  {
    && |nodes| == |items|
    && forall i :: 0 <= i < |nodes| ==> nodes[i].key == items[i].key && nodes[i].val == items[i].val
  }

  /** Neighbours point at each other, and no node occurs twice. */
  ghost predicate Chain(full: seq<Node>)
    reads full
  {
    && (forall i, j :: 0 <= i < j < |full| ==> full[i] != full[j])
    && (forall i :: 0 <= i < |full| - 1 ==> full[i].next == full[i + 1] && full[i + 1].prev == full[i])
  }

  /** Takes a node out of the list by making its two neighbours point at each other. */
  method DeleteNode(delnode: Node, ghost full: seq<Node>, ghost p: nat, ghost before: Node, ghost after: Node)
    requires Chain(full)
    requires 0 < p < |full| - 1 && full[p] == delnode && full[p - 1] == before && full[p + 1] == after
    modifies before`next, after`prev
    ensures Chain(RemoveAt(full, p)) && delnode !in RemoveAt(full, p)
  {
    assert full[p - 1].next == full[p] && full[p].next == full[p + 1];
    var prevv := delnode.prev;
    var nextt := delnode.next;
    prevv.next := nextt;
    nextt.prev := prevv;
  }

  /** Links a node between the head and what followed it. */
  method AddNode(head: Node, newnode: Node, ghost full: seq<Node>, ghost after: Node)
    requires Chain(full) && |full| >= 2 && full[0] == head && full[1] == after
    requires newnode !in full
    modifies head`next, newnode`next, newnode`prev, after`prev
    ensures Chain([head, newnode] + full[1..])
    ensures head.next == newnode
  {
    assert full[0].next == full[1];
    var headnext := head.next;
    head.next := newnode;
    newnode.prev := head;
    newnode.next := headnext;
    headnext.prev := newnode;
  }

  class LRU {
    const head: Node
    const tail: Node
    const capacity: nat
    const m: HashMap<Node?>
    var mapSize: int

    ghost var nodes: seq<Node>   // between the sentinels
    ghost var items: Items       // what they hold
    ghost var history: seq<Op>   // every call so far

    ghost function Full(): seq<Node>
      reads this`nodes
    {
      [head] + nodes + [tail]
    }

    /** List, map and size agree on one sequence of items. */
    ghost predicate Agree()
      reads this`mapSize, this`nodes, this`items, m, m.buckets, nodes, head, tail
    {
      && m.Valid()
      && Threaded(mapSize)
      && Indexed(m.Contents(), nodes, items)
    }

    /** The list half of that. */
    ghost predicate Threaded(size: int)
      reads this`nodes, this`items, nodes, head, tail
    {
      Chain(Full()) && Hold(nodes, items) && |nodes| == size
    }

    /** That sequence is the one the whole run of calls determines, and the map has seen
        exactly one fresh insertion for each key touched. */
    ghost predicate Valid()
      reads this, m, m.buckets, nodes, head, tail
    {
      && Agree()
      && capacity >= 1
      && items == Run(history, capacity)
      && m.inserts == |Touched(history, capacity)|
    }

    constructor (m: HashMap<Node?>, capacity: nat)
      requires m.Valid() && m.Contents() == [] && m.inserts == 0
      requires capacity >= 1
      ensures Valid() && this.m == m && this.capacity == capacity
      ensures items == [] && history == [] && fresh(head) && fresh(tail)
    {
      head := new Node([35], -1);
      tail := new Node([35], -1);
      this.capacity := capacity;
      this.m := m;
      mapSize := 0;
      nodes, items, history := [], [], [];
      new;
      head.next := tail;
      tail.prev := head;
    }

    /** In every reachable state: the cache holds exactly the `capacity` most recently
        touched keys with their latest values, and the map below it has cost a bounded
        number of list visits for each touch, whatever the cache's capacity. */
    lemma WholeRun()
      requires Valid()
      ensures var log := Touched(history, capacity);
        && |m.Contents()| == |items| == mapSize <= capacity
        && Keys(items) == Take(Recent(log), capacity)
        && (forall x :: x in items ==> LatestPut(history, x.key) == Some(x.val))
        && m.visits <= 2 * |log|
        && (3 * m.capacity <= 60 || 3 * m.capacity <= 8 * |log|)
    {
      RunBounded(history, capacity);
      KeysAreRecent(history, capacity);
      ValuesAreLatest(history, capacity);
      m.Bounds();
    }

    lemma Held(p: nat)
      requires Agree()
      requires p < |nodes|
      ensures |nodes| == |items| && items[p] == Item(nodes[p].key, nodes[p].val) && items[p].key != []
    {
    }

    /** Takes the node at list position `p` out of the map and the list. */
    method Detach(n: Node, ghost p: nat)
      requires Agree()
      requires p < |nodes| && nodes[p] == n
      modifies this`mapSize, this`nodes, this`items, m`tombstoneCount, m.buckets
      modifies nodes`next, nodes`prev, head`next, tail`prev
      ensures Agree()
      ensures nodes == RemoveAt(old(nodes), p)
      ensures items == RemoveAt(old(items), p)
      ensures n !in Full()
    {
      hide HashMap<Node?>.Valid, LruKey, OrderedMap.Delete, Threaded;
      Held(p);
      IndexedRemove(m.Contents(), nodes, items, p);
      hide Indexed;
      RemoveEntryLr(m, n.key);
      Unlink(n, p);
    }

    method Unlink(n: Node, ghost p: nat)
      requires Threaded(mapSize)
      requires p < |nodes| && nodes[p] == n
      modifies this`mapSize, this`nodes, this`items, nodes`next, nodes`prev, head`next, tail`prev
      ensures Threaded(mapSize)
      ensures nodes == RemoveAt(old(nodes), p)
      ensures items == RemoveAt(old(items), p)
      ensures n !in Full()
    {
      hide Chain;
      ghost var full := Full();
      mapSize := mapSize - 1;
      nodes := RemoveAt(nodes, p);
      items := RemoveAt(items, p);
      assert Full() == RemoveAt(full, p + 1);
      DeleteNode(n, full, p + 1, full[p], full[p + 2]);
      assert Chain(Full()) by {
        assert Full() == RemoveAt(full, p + 1);
      }
      forall i | 0 <= i < |nodes|
        ensures nodes[i].key == items[i].key && nodes[i].val == items[i].val
      {
        assert nodes[i] == full[(if i < p then i else i + 1) + 1];
      }
    }

    /** Puts a node that is not listed at the front of the list, and into the map. */
    method Attach(n: Node, key: Bytes)
      requires Agree()
      requires n.key == key != [] && n !in Full()
      requires forall i :: 0 <= i < |items| ==> items[i].key != key
      modifies this`mapSize, this`nodes, this`items, m, m.buckets
      modifies n`next, n`prev, nodes`prev, head`next, tail`prev
      ensures Agree() && (m.buckets == old(m.buckets) || fresh(m.buckets))
      ensures nodes == [n] + old(nodes)
      ensures items == [Item(key, n.val)] + old(items)
      ensures m.inserts == old(m.inserts) + 1
    {
      hide HashMap<Node?>.Valid, LruKey, OrderedMap.Put, Threaded;
      IndexedAdd(m.Contents(), nodes, items, n, Item(key, n.val));
      hide Indexed, OrderedMap.Has;
      Link(n);
      SetValueLr(m, key, head.next);
      mapSize := mapSize + 1;
    }

    method Link(n: Node)
      requires Threaded(mapSize) && n !in Full()
      modifies this`nodes, this`items, n`next, n`prev, nodes`prev, head`next, tail`prev
      ensures Threaded(mapSize + 1)
      ensures nodes == [n] + old(nodes) && items == [Item(n.key, n.val)] + old(items)
      ensures head.next == n
    {
      ghost var full := Full();
      nodes := [n] + nodes;
      items := [Item(n.key, n.val)] + items;
      assert Full() == [head, n] + full[1..];
      AddNode(head, n, full, full[1]);
      hide Chain;
    }

    /** The value of a key and its move to the front, or -1. */
    method GetLru(key: Bytes) returns (ans: int)
      requires Valid() && key != []
      modifies this`mapSize, this`nodes, this`items, this`history, m, m.buckets
      modifies nodes`next, nodes`prev, head`next, tail`prev
      ensures Valid() && (m.buckets == old(m.buckets) || fresh(m.buckets))
      ensures history == old(history) + [Get(key)]
      ensures forall i :: 0 <= i < |nodes| ==> nodes[i] in old(nodes)
      ensures items == AfterGet(old(items), key)
      ensures ans == match Find(old(items), key) case None => -1 case Some(v) => v
      ensures GetEffect(old(items), key, ans, items)
    {
      hide Agree, AfterGet, GetEffect, Run, Touched, DistinctKeys, Find;
      RunBounded(history, capacity);
      GetExactly(items, key);
      RunStep(history, Get(key), capacity);
      ans := Fetch(key);
      history := history + [Get(key)];
    }

    /** The new value at the front; the least recent key goes when there is no room. */
    method PutLru(key: Bytes, value: int)
      requires Valid() && key != []
      modifies this`mapSize, this`nodes, this`items, this`history, m, m.buckets
      modifies nodes`next, nodes`prev, head`next, tail`prev
      ensures Valid() && (m.buckets == old(m.buckets) || fresh(m.buckets))
      ensures history == old(history) + [Put(key, value)]
      ensures forall i :: 0 <= i < |nodes| ==> nodes[i] in old(nodes) || fresh(nodes[i])
      ensures items == AfterPut(old(items), capacity, key, value)
      ensures PutEffect(old(items), capacity, key, value, items)
    {
      hide Agree, AfterPut, PutEffect, Run, Touched, DistinctKeys, Find;
      RunBounded(history, capacity);
      PutExactly(items, capacity, key, value);
      RunStep(history, Put(key, value), capacity);
      Store(key, value);
      history := history + [Put(key, value)];
    }

    /** One call of either kind, and what the calls before it make it answer. */
    method Perform(op: Op) returns (answer: Option<int>)
      requires Valid() && op.key != []
      modifies this`mapSize, this`nodes, this`items, this`history, m, m.buckets
      modifies nodes`next, nodes`prev, head`next, tail`prev
      ensures Valid() && (m.buckets == old(m.buckets) || fresh(m.buckets))
      ensures forall i :: 0 <= i < |nodes| ==> nodes[i] in old(nodes) || fresh(nodes[i])
      ensures history == old(history) + [op]
      ensures answer == Answer(old(history), capacity, op)
      ensures op.Get? && op.key !in Take(Recent(Touched(old(history), capacity)), capacity) ==> answer == Some(-1)
      ensures op.Get? && op.key in Take(Recent(Touched(old(history), capacity)), capacity) ==>
                answer == LatestPut(old(history), op.key)
    {
      FoundIsRecalled(history, capacity, op.key);
      RecalledExactly(history, capacity, op.key);
      hide Agree, AfterGet, AfterPut, GetEffect, PutEffect, Run, Touched, Recent, LatestPut, Take, Recalled, Find;
      match op {
        case Get(key) =>
          var ans := GetLru(key);
          answer := Some(ans);
        case Put(key, value) =>
          PutLru(key, value);
          answer := None;
      }
    }

    /** Any run of calls on one cache, after any other: every get answers what the calls
        before it determine, and the cache is left to answer the next ones. */
    method RunAll(ops: seq<Op>) returns (answers: seq<Option<int>>)
      requires Valid() && forall j :: 0 <= j < |ops| ==> ops[j].key != []
      modifies this`mapSize, this`nodes, this`items, this`history, m, m.buckets
      modifies nodes`next, nodes`prev, head`next, tail`prev
      ensures Valid() && (m.buckets == old(m.buckets) || fresh(m.buckets))
      ensures forall i :: 0 <= i < |nodes| ==> nodes[i] in old(nodes) || fresh(nodes[i])
      ensures history == old(history) + ops
      ensures |answers| == |ops|
      ensures forall j :: 0 <= j < |ops| ==> answers[j] == Answer(old(history) + ops[..j], capacity, ops[j])
    {
      hide Valid, Answer, Take, Recent, Touched, LatestPut;
      answers := [];
      for k := 0 to |ops|
        invariant Valid() && (m.buckets == old(m.buckets) || fresh(m.buckets))
        invariant forall i :: 0 <= i < |nodes| ==> nodes[i] in old(nodes) || fresh(nodes[i])
        invariant history == old(history) + ops[..k]
        invariant |answers| == k
        invariant forall j :: 0 <= j < k ==> answers[j] == Answer(old(history) + ops[..j], capacity, ops[j])
      {
        var answer := Perform(ops[k]);
        answers := answers + [answer];
      }
    }

    method Fetch(key: Bytes) returns (ans: int)
      requires Agree() && key != []
      modifies this`mapSize, this`nodes, this`items, m, m.buckets
      modifies nodes`next, nodes`prev, head`next, tail`prev
      ensures Agree() && (m.buckets == old(m.buckets) || fresh(m.buckets))
      ensures items == AfterGet(old(items), key)
      ensures forall i :: 0 <= i < |nodes| ==> nodes[i] in old(nodes)
      ensures m.inserts == old(m.inserts) + if Find(old(items), key).Some? then 1 else 0
      ensures ans == match Find(old(items), key) case None => -1 case Some(v) => v
    {
      hide HashMap<Node?>.Valid, LruKey, OrderedMap.Lookup, Chain;
      ghost var p := IndexedLookup(m.Contents(), nodes, items, key);
      assert DistinctKeys(items);
      hide Indexed;
      var resNode := GetValueLr(m, key);
      if resNode != null {
        ans := resNode.val;
        RemoveAtIsWithout(items, p);
        Held(p);
        hide Agree, RemoveAt;
        MoveToFront(resNode, p);
      } else {
        ans := MISS;
      }
    }

    /** A hit: the node leaves the list and the map, and comes back first in both. */
    method MoveToFront(n: Node, ghost p: nat)
      requires Agree()
      requires p < |nodes| == |items| && nodes[p] == n
      modifies this`mapSize, this`nodes, this`items, m, m.buckets
      modifies nodes`next, nodes`prev, head`next, tail`prev
      ensures Agree() && (m.buckets == old(m.buckets) || fresh(m.buckets))
      ensures items == ToFront(old(items), p) && nodes == ToFront(old(nodes), p)
      ensures m.inserts == old(m.inserts) + 1
    {
      Held(p);
      KeysDiffer(p);
      hide Agree, Full, RemoveAt;
      Detach(n, p);
      Attach(n, n.key);
    }

    lemma KeysDiffer(p: nat)
      requires Agree() && p < |items|
      ensures forall i :: 0 <= i < |items| - 1 ==> RemoveAt(items, p)[i].key != items[p].key
    {
    }

    method Store(key: Bytes, value: int)
      requires Agree() && key != []
      requires 1 <= capacity && |items| <= capacity
      modifies this`mapSize, this`nodes, this`items, m, m.buckets
      modifies nodes`next, nodes`prev, head`next, tail`prev
      ensures Agree() && (m.buckets == old(m.buckets) || fresh(m.buckets))
      ensures items == AfterPut(old(items), capacity, key, value)
      ensures forall i :: 0 <= i < |nodes| ==> nodes[i] in old(nodes) || fresh(nodes[i])
      ensures m.inserts == old(m.inserts) + 1
    {
      hide Agree, Full;
      RemoveOld(key);
      MakeRoom();
      AddNew(key, value);
    }

    /** The size field, the node list and the item list have one length. */
    lemma SizesAgree()
      requires Agree()
      ensures |nodes| == |items| == mapSize
    {
    }

    /** One item fewer if the cache is full. */
    method MakeRoom()
      requires Agree()
      requires 1 <= capacity && |items| <= capacity
      modifies this`mapSize, this`nodes, this`items, m`tombstoneCount, m.buckets
      modifies nodes`next, nodes`prev, head`next, tail`prev
      ensures Agree()
      ensures items == Take(old(items), capacity - 1) && nodes == Take(old(nodes), capacity - 1)
    {
      hide Agree, Threaded, Indexed;
      SizesAgree();
      if mapSize == capacity {
        EvictLast();
      }
    }

    method AddNew(key: Bytes, value: int)
      requires Agree() && key != []
      requires forall i :: 0 <= i < |items| ==> items[i].key != key
      modifies this`mapSize, this`nodes, this`items, m, m.buckets
      modifies nodes`prev, head`next, tail`prev
      ensures Agree() && (m.buckets == old(m.buckets) || fresh(m.buckets))
      ensures items == [Item(key, value)] + old(items)
      ensures nodes[1..] == old(nodes) && fresh(nodes[0])
      ensures m.inserts == old(m.inserts) + 1
    {
      var newnode := new Node(key, value);
      hide HashMap<Node?>.Valid, Chain, Indexed;
      Attach(newnode, key);
    }

    method RemoveOld(key: Bytes)
      requires Agree() && key != []
      modifies this`mapSize, this`nodes, this`items, m`tombstoneCount, m.buckets
      modifies nodes`next, nodes`prev, head`next, tail`prev
      ensures Agree()
      ensures items == Without(old(items), key)
      ensures forall i :: 0 <= i < |nodes| ==> nodes[i] in old(nodes)
    {
      hide HashMap<Node?>.Valid, LruKey, OrderedMap.Lookup, Chain;
      ghost var p := IndexedLookup(m.Contents(), nodes, items, key);
      assert DistinctKeys(items);
      hide Indexed;
      var curr := GetValueLr(m, key);
      if curr != null {
        RemoveAtIsWithout(items, p);
        Detach(curr, p);
      } else {
        WithoutAbsent(items, key);
      }
    }

    /** Takes out the node before the tail. */
    method EvictLast()
      requires Agree() && |nodes| > 0
      modifies this`mapSize, this`nodes, this`items, m`tombstoneCount, m.buckets
      modifies nodes`next, nodes`prev, head`next, tail`prev
      ensures Agree()
      ensures nodes == old(nodes)[..|old(nodes)| - 1]
      ensures items == old(items)[..|old(items)| - 1]
    {
      hide HashMap<Node?>.Valid, Indexed;
      ghost var full, n := Full(), |nodes|;
      assert full[n + 1] == tail && full[n] == nodes[n - 1];
      assert full[n + 1].prev == full[n];
      Detach(tail.prev, n - 1);
      assert RemoveAt(old(nodes), n - 1) == old(nodes)[..n - 1];
      assert RemoveAt(old(items), n - 1) == old(items)[..n - 1];
    }
  }

  /** What a call answers: nothing if it is a put, else the latest put to its key if that is
      among the most recently touched ones, else -1. */
  function Answer(before: seq<Op>, capacity: nat, op: Op): Option<int> {
    match op
    case Put(_, _) => None
    case Get(key) =>
      if key in Take(Recent(Touched(before, capacity)), capacity) then LatestPut(before, key) else Some(-1)
  }

  lemma RunStep(before: seq<Op>, op: Op, capacity: nat)
    ensures Run(before + [op], capacity) == Apply(Run(before, capacity), capacity, op)
    ensures |Touched(before + [op], capacity)| == |Touched(before, capacity)| +
            if op.Put? || Find(Run(before, capacity), op.key).Some? then 1 else 0
  {
    assert (before + [op])[..|before|] == before;
  }
}
