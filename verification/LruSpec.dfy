/** The LRU cache as a value: its items, most recent first, and what whole runs of calls
    do to it at one capacity and at two. */
module LruSpec {
  import opened CStrings

  datatype Item = Item(key: Bytes, val: int)
  type Items = seq<Item>

  ghost predicate DistinctKeys(s: Items) {
    forall i, j :: 0 <= i < j < |s| ==> s[i].key != s[j].key
  }

  function Keys(s: Items): (k: seq<Bytes>)
    ensures |k| == |s| && forall i :: 0 <= i < |s| ==> k[i] == s[i].key
  {
    if s == [] then [] else [s[0].key] + Keys(s[1..])
  }

  function Without(s: Items, k: Bytes): (r: Items)
    ensures |r| <= |s|
    ensures forall i :: 0 <= i < |r| ==> r[i] in s && r[i].key != k
  {
    if s == [] then [] else (if s[0].key == k then [] else [s[0]]) + Without(s[1..], k)
  }

  function Find(s: Items, k: Bytes): (r: Option<int>)
    ensures r.None? <==> forall i :: 0 <= i < |s| ==> s[i].key != k
  {
    if s == [] then None else if s[0].key == k then Some(s[0].val) else Find(s[1..], k)
  }

  function Take<T>(s: seq<T>, n: nat): seq<T> {
    if n <= |s| then s[..n] else s
  }

  // ---------- the two operations ----------

  datatype Op = Get(key: Bytes) | Put(key: Bytes, val: int)

  /** A hit moves the item to the front; a miss changes nothing. */
  function AfterGet(s: Items, k: Bytes): Items {
    match Find(s, k)
    case None => s
    case Some(v) => [Item(k, v)] + Without(s, k)
  }

  /** The new item goes to the front, and the last one goes if there is one too many. */
  function AfterPut(s: Items, capacity: nat, k: Bytes, v: int): Items {
    Take([Item(k, v)] + Without(s, k), capacity)
  }

  function Apply(s: Items, capacity: nat, op: Op): Items {
    match op
    case Get(k) => AfterGet(s, k)
    case Put(k, v) => AfterPut(s, capacity, k, v)
  }

  function Run(ops: seq<Op>, capacity: nat): Items {
    if ops == [] then []
    else Apply(Run(ops[..|ops| - 1], capacity), capacity, ops[|ops| - 1])
  }

  lemma {:induction false} WithoutAbsent(s: Items, k: Bytes)
    requires Find(s, k).None?
    ensures Without(s, k) == s
  {
    if s != [] {
      assert s[0].key != k;
      WithoutAbsent(s[1..], k);
    }
  }

  lemma {:induction false} WithoutDistinct(s: Items, k: Bytes)
    requires DistinctKeys(s)
    ensures DistinctKeys(Without(s, k))
    ensures |Without(s, k)| == if Find(s, k).Some? then |s| - 1 else |s|
  {
    if s != [] {
      WithoutDistinct(s[1..], k);
      if s[0].key == k {
        WithoutAbsent(s[1..], k);
      }
    }
  }

  /** Every state of every run lists distinct keys, no more than the capacity. */
  lemma {:induction false} RunBounded(ops: seq<Op>, capacity: nat)
    requires capacity >= 1
    ensures DistinctKeys(Run(ops, capacity)) && |Run(ops, capacity)| <= capacity
  {
    if ops != [] {
      var n := |ops| - 1;
      var s := Run(ops[..n], capacity);
      RunBounded(ops[..n], capacity);
      WithoutDistinct(s, ops[n].key);
    }
  }

  // ---------- inclusion: a larger cache holds more ----------

  ghost predicate Sub(a: Items, b: Items) {
    if a == [] then true
    else if b == [] then false
    else (a[0] == b[0] && Sub(a[1..], b[1..])) || Sub(a, b[1..])
  }

  lemma {:induction false} SubSize(a: Items, b: Items)
    requires Sub(a, b)
    ensures |a| <= |b|
    ensures |a| == |b| ==> a == b
  {
    if a != [] {
      if a[0] == b[0] && Sub(a[1..], b[1..]) {
        SubSize(a[1..], b[1..]);
      } else {
        SubSize(a, b[1..]);
      }
    }
  }

  lemma {:induction false} SubSelf(a: Items)
    ensures Sub(a, a)
  {
    if a != [] {
      SubSelf(a[1..]);
    }
  }

  lemma {:induction false} SubTail(a: Items, b: Items)
    requires Sub(a, b) && a != []
    ensures Sub(a[1..], b)
  {
    if a[0] == b[0] && Sub(a[1..], b[1..]) {
      SubGrow(a[1..], b);
    } else {
      SubTail(a, b[1..]);
      SubGrow(a[1..], b);
    }
  }

  lemma SubGrow(a: Items, b: Items)
    requires b != [] && Sub(a, b[1..])
    ensures Sub(a, b)
  {
  }

  lemma WithoutCons(s: Items, k: Bytes)
    requires s != []
    ensures s[0].key == k ==> Without(s, k) == Without(s[1..], k)
    ensures s[0].key != k ==> Without(s, k) == [s[0]] + Without(s[1..], k)
  {
    assert [] + Without(s[1..], k) == Without(s[1..], k);
  }

  lemma {:induction false} SubWithout(a: Items, b: Items, k: Bytes)
    requires Sub(a, b)
    ensures Sub(Without(a, k), Without(b, k))
  {
    if a != [] {
      WithoutCons(a, k);
      WithoutCons(b, k);
      if a[0] == b[0] && Sub(a[1..], b[1..]) {
        SubWithout(a[1..], b[1..], k);
        hide Without;
        if a[0].key != k {
          FrontSub(a[0], Without(a[1..], k), Without(b[1..], k));
        }
      } else {
        SubWithout(a, b[1..], k);
        hide Without;
        if b[0].key != k {
          BehindSub(b[0], Without(a, k), Without(b[1..], k));
        }
      }
    } else {
      assert Without(a, k) == [];
    }
  }

  lemma FrontSub(x: Item, a: Items, b: Items)
    requires Sub(a, b)
    ensures Sub([x] + a, [x] + b)
  {
    assert ([x] + a)[1..] == a && ([x] + b)[1..] == b;
  }

  lemma BehindSub(x: Item, a: Items, b: Items)
    requires Sub(a, b)
    ensures Sub(a, [x] + b)
  {
    assert ([x] + b)[1..] == b;
  }

  /** Both give up their last item. */
  lemma {:induction false} SubInit(a: Items, b: Items)
    requires Sub(a, b) && a != []
    ensures b != [] && Sub(a[..|a| - 1], b[..|b| - 1])
  {
    if a[0] == b[0] && Sub(a[1..], b[1..]) {
      if |a| > 1 {
        SubInit(a[1..], b[1..]);
        assert a[..|a| - 1][1..] == a[1..][..|a[1..]| - 1];
        assert b[..|b| - 1][1..] == b[1..][..|b[1..]| - 1];
      }
    } else {
      SubInit(a, b[1..]);
      assert b[..|b| - 1][1..] == b[1..][..|b[1..]| - 1];
      SubGrow(a[..|a| - 1], b[..|b| - 1]);
    }
  }

  /** Only the smaller one gives up its last item. */
  lemma {:induction false} SubInitLeft(a: Items, b: Items)
    requires Sub(a, b) && a != []
    ensures Sub(a[..|a| - 1], b)
  {
    if a[0] == b[0] && Sub(a[1..], b[1..]) {
      if |a| > 1 {
        SubInitLeft(a[1..], b[1..]);
        assert a[..|a| - 1][1..] == a[1..][..|a[1..]| - 1];
      }
    } else {
      SubInitLeft(a, b[1..]);
      SubGrow(a[..|a| - 1], b);
    }
  }

  lemma {:induction false} SubFind(a: Items, b: Items, k: Bytes)
    requires Sub(a, b) && DistinctKeys(b) && Find(a, k).Some?
    ensures Find(b, k) == Find(a, k)
  {
    if a[0] == b[0] && Sub(a[1..], b[1..]) {
      if a[0].key != k {
        SubFind(a[1..], b[1..], k);
      }
    } else {
      SubFind(a, b[1..], k);
      assert exists i :: 0 <= i < |b[1..]| && b[1..][i].key == k;
      assert b[0].key != k;
    }
  }

  /** What ties the two caches together: the smaller one is a subsequence of the larger,
      and if they differ at all it is full. */
  ghost predicate Included(a: Items, b: Items, small: nat) {
    Sub(a, b) && (a == b || |a| == small)
  }

  /** On every run, the smaller cache's items are a subsequence of the larger's. */
  lemma {:induction false} Inclusion(ops: seq<Op>, small: nat, large: nat)
    requires 1 <= small <= large
    ensures Included(Run(ops, small), Run(ops, large), small)
  {
    if ops != [] {
      var n := |ops| - 1;
      Inclusion(ops[..n], small, large);
      RunBounded(ops[..n], small);
      RunBounded(ops[..n], large);
      var a, b := Run(ops[..n], small), Run(ops[..n], large);
      match ops[n]
      case Get(k) => GetIncluded(a, b, small, k);
      case Put(k, v) => PutIncluded(a, b, small, large, k, v);
    }
  }

  lemma GetIncluded(a: Items, b: Items, small: nat, k: Bytes)
    requires Included(a, b, small) && DistinctKeys(a) && DistinctKeys(b)
    ensures Included(AfterGet(a, k), AfterGet(b, k), small)
  {
    SubWithout(a, b, k);
    WithoutDistinct(a, k);
    if Find(a, k).Some? {
      SubFind(a, b, k);
      FrontSub(Item(k, Find(a, k).value), Without(a, k), Without(b, k));
    } else {
      WithoutAbsent(a, k);
      if Find(b, k).Some? {
        BehindSub(Item(k, Find(b, k).value), a, Without(b, k));
      }
    }
  }

  lemma PutIncluded(a: Items, b: Items, small: nat, large: nat, k: Bytes, v: int)
    requires 1 <= small <= large
    requires Included(a, b, small) && DistinctKeys(a) && DistinctKeys(b)
    requires |a| <= small && |b| <= large
    ensures Included(AfterPut(a, small, k, v), AfterPut(b, large, k, v), small)
  {
    var x, y := [Item(k, v)] + Without(a, k), [Item(k, v)] + Without(b, k);
    SubWithout(a, b, k);
    FrontSub(Item(k, v), Without(a, k), Without(b, k));
    WithoutDistinct(a, k);
    WithoutDistinct(b, k);
    if Find(b, k).None? {
      WithoutAbsent(b, k);
      assert Find(a, k).None? by {
        if Find(a, k).Some? {
          SubFind(a, b, k);
        }
      }
    }
    hide Without, Find;
    CutBoth(x, y, small, large);
  }

  lemma CutBoth(x: Items, y: Items, small: nat, large: nat)
    requires 1 <= small <= large
    requires Sub(x, y) && |x| <= small + 1 && |y| <= large + 1
    requires x == y || small <= |x|
    requires |y| == large + 1 ==> x == y || |x| == small + 1
    ensures Included(Take(x, small), Take(y, large), small)
  {
    hide Sub;
    SubSize(x, y);
    assert y[..|y|] == y && x[..|x|] == x;
    assert Take(x, small) == if |x| > small then x[..|x| - 1] else x;
    assert Take(y, large) == if |y| > large then y[..|y| - 1] else y;
    hide Take;
    if |y| > large {
      SubInit(x, y);
    } else if |x| > small {
      SubInitLeft(x, y);
    }
  }

  /** So a hit at the smaller capacity is a hit at the larger, with the same answer. */
  lemma HitsGrow(ops: seq<Op>, small: nat, large: nat, k: Bytes)
    requires 1 <= small <= large
    ensures Find(Run(ops, small), k).Some? ==> Find(Run(ops, large), k) == Find(Run(ops, small), k)
  {
    Inclusion(ops, small, large);
    RunBounded(ops, large);
    if Find(Run(ops, small), k).Some? {
      SubFind(Run(ops, small), Run(ops, large), k);
    }
  }
}
