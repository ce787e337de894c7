/** Which keys an LRU cache holds, said without the cache: by what was touched, and when. */
module LruRecency {
  import opened CStrings
  import opened LruSpec

  /** The keys touched during a run, in order: those put, and those a get found. */
  function Touched(ops: seq<Op>, capacity: nat): (log: seq<Bytes>)
    ensures |log| <= |ops|
  {
    if ops == [] then []
    else
      var n := |ops| - 1;
      Touched(ops[..n], capacity) +
      match ops[n]
      case Put(k, _) => [k]
      case Get(k) => if Find(Run(ops[..n], capacity), k).Some? then [k] else []
  }

  function Drop(m: seq<Bytes>, k: Bytes): (r: seq<Bytes>)
    ensures forall x :: x in r <==> x in m && x != k
  {
    if m == [] then [] else (if m[0] == k then [] else [m[0]]) + Drop(m[1..], k)
  }

  /** The distinct keys of a log, most recently touched first. */
  function Recent(log: seq<Bytes>): (m: seq<Bytes>)
    ensures forall x :: x in m <==> x in log
  {
    if log == [] then []
    else
      var n := |log| - 1;
      assert log == log[..n] + [log[n]];
      [log[n]] + Drop(Recent(log[..n]), log[n])
  }

  ghost predicate NoRepeats(m: seq<Bytes>) {
    forall i, j :: 0 <= i < j < |m| ==> m[i] != m[j]
  }

  lemma {:induction false} DropAbsent(m: seq<Bytes>, k: Bytes)
    requires k !in m
    ensures Drop(m, k) == m
  {
    if m != [] {
      DropAbsent(m[1..], k);
    }
  }

  lemma DropCons(m: seq<Bytes>, k: Bytes)
    requires m != []
    ensures m[0] == k ==> Drop(m, k) == Drop(m[1..], k)
    ensures m[0] != k ==> Drop(m, k) == [m[0]] + Drop(m[1..], k)
  {
    assert [] + Drop(m[1..], k) == Drop(m[1..], k);
  }

  lemma {:induction false} DropNoRepeats(m: seq<Bytes>, k: Bytes)
    requires NoRepeats(m)
    ensures NoRepeats(Drop(m, k))
    ensures |Drop(m, k)| == if k in m then |m| - 1 else |m|
  {
    if m != [] {
      DropCons(m, k);
      DropNoRepeats(m[1..], k);
      assert m[0] !in m[1..];
      if m[0] == k {
        DropAbsent(m[1..], k);
      }
    }
  }

  lemma {:induction false} DropSplit(a: seq<Bytes>, b: seq<Bytes>, k: Bytes)
    ensures Drop(a + b, k) == Drop(a, k) + Drop(b, k)
  {
    if a == [] {
      assert a + b == b;
      assert Drop(a, k) + Drop(b, k) == Drop(b, k);
    } else {
      assert (a + b)[1..] == a[1..] + b;
      DropCons(a, k);
      DropCons(a + b, k);
      DropSplit(a[1..], b, k);
      hide Drop;
    }
  }

  lemma {:induction false} RecentNoRepeats(log: seq<Bytes>)
    ensures NoRepeats(Recent(log))
  {
    if log != [] {
      var n := |log| - 1;
      RecentNoRepeats(log[..n]);
      DropNoRepeats(Recent(log[..n]), log[n]);
    }
  }

  ghost function DistinctIn(log: seq<Bytes>): set<Bytes> {
    set x | x in log
  }

  lemma {:induction false} SizeOfSet(m: seq<Bytes>)
    requires NoRepeats(m)
    ensures |DistinctIn(m)| == |m|
  {
    if m != [] {
      SizeOfSet(m[1..]);
      assert DistinctIn(m) == {m[0]} + DistinctIn(m[1..]);
      assert m[0] !in m[1..];
    }
  }

  lemma RecentCounts(log: seq<Bytes>)
    ensures |Recent(log)| == |DistinctIn(log)|
  {
    RecentNoRepeats(log);
    SizeOfSet(Recent(log));
    assert DistinctIn(Recent(log)) == DistinctIn(log);
  }

  // ---------- the cache holds the most recent keys ----------

  lemma {:induction false} KeysWithout(s: Items, k: Bytes)
    ensures Keys(Without(s, k)) == Drop(Keys(s), k)
    ensures Find(s, k).Some? <==> k in Keys(s)
  {
    if s != [] {
      KeysWithout(s[1..], k);
      var w := Without(s[1..], k);
      assert ([s[0]] + w)[1..] == w;
      assert [] + w == w;
    }
  }

  lemma KeysTake(s: Items, n: nat)
    ensures Keys(Take(s, n)) == Take(Keys(s), n)
  {
  }

  /** Dropping a key before or after cutting the list off. */
  lemma {:induction false} DropTake(m: seq<Bytes>, k: Bytes, n: nat)
    requires NoRepeats(m) && n >= 1
    ensures k in Take(m, n) ==> Drop(Take(m, n), k) == Take(Drop(m, k), n - 1)
    ensures k !in Take(m, n) ==> Take(m, n) == Take(Drop(m, k), n)
  {
    if m == [] {
      assert Drop(m, k) == [];
    } else if m[0] == k {
      DropTakeHere(m, n);
    } else {
      if n > 1 {
        DropTake(m[1..], k, n - 1);
      }
      DropTakeThere(m, k, n);
    }
  }

  lemma DropTakeHere(m: seq<Bytes>, n: nat)
    requires NoRepeats(m) && n >= 1 && m != []
    ensures Drop(Take(m, n), m[0]) == Take(Drop(m, m[0]), n - 1)
  {
    var k := m[0];
    assert k !in m[1..];
    TakeCons(m, n);
    DropCons(m, k);
    DropAbsent(m[1..], k);
    var t := Take(m[1..], n - 1);
    assert forall x :: x in t ==> x in m[1..];
    DropCons([k] + t, k);
    assert ([k] + t)[1..] == t;
    DropAbsent(t, k);
  }

  lemma DropTakeThere(m: seq<Bytes>, k: Bytes, n: nat)
    requires n >= 1 && m != [] && m[0] != k
    requires n > 1 && k in Take(m[1..], n - 1) ==> Drop(Take(m[1..], n - 1), k) == Take(Drop(m[1..], k), n - 2)
    requires n > 1 && k !in Take(m[1..], n - 1) ==> Take(m[1..], n - 1) == Take(Drop(m[1..], k), n - 1)
    ensures k in Take(m, n) ==> Drop(Take(m, n), k) == Take(Drop(m, k), n - 1)
    ensures k !in Take(m, n) ==> Take(m, n) == Take(Drop(m, k), n)
  {
    var t, d := Take(m[1..], n - 1), Drop(m[1..], k);
    TakeCons(m, n);
    DropCons(m, k);
    DropCons([m[0]] + t, k);
    assert ([m[0]] + t)[1..] == t && ([m[0]] + d)[1..] == d;
    TakeCons([m[0]] + d, n);
    if n > 1 {
      TakeCons([m[0]] + d, n - 1);
    }
    hide Drop, Take;
  }

  lemma TakeCons(m: seq<Bytes>, n: nat)
    requires m != [] && n >= 1
    ensures Take(m, n) == [m[0]] + Take(m[1..], n - 1)
  {
  }

  /** After any run, the cache's keys are the `capacity` most recently touched ones. */
  lemma {:induction false} KeysAreRecent(ops: seq<Op>, capacity: nat)
    requires capacity >= 1
    ensures Keys(Run(ops, capacity)) == Take(Recent(Touched(ops, capacity)), capacity)
  {
    if ops != [] {
      var n := |ops| - 1;
      var s, log, k := Run(ops[..n], capacity), Touched(ops[..n], capacity), ops[n].key;
      KeysAreRecent(ops[..n], capacity);
      if ops[n].Get? && Find(s, k).None? {
        assert log + [] == log;
      } else {
        var v := if ops[n].Put? then ops[n].val else Find(s, k).value;
        var t := [Item(k, v)] + Without(s, k);
        KeysOfFront(s, k, v);
        TouchFront(Keys(s), log, k, capacity);
        RunBounded(ops[..n], capacity);
        WithoutDistinct(s, k);
        KeysTake(t, capacity);
        assert Run(ops, capacity) == Take(t, capacity);
        assert Touched(ops, capacity) == log + [k];
        hide Run, Touched, Keys, Take, Without, Find, Recent;
      }
    }
  }

  lemma KeysOfFront(s: Items, k: Bytes, v: int)
    ensures Keys([Item(k, v)] + Without(s, k)) == [k] + Drop(Keys(s), k)
  {
    KeysWithout(s, k);
    assert ([Item(k, v)] + Without(s, k))[1..] == Without(s, k);
  }

  lemma TouchFront(keys: seq<Bytes>, log: seq<Bytes>, k: Bytes, capacity: nat)
    requires capacity >= 1
    requires keys == Take(Recent(log), capacity)
    ensures Take([k] + Drop(keys, k), capacity) == Take(Recent(log + [k]), capacity)
  {
    var m := Recent(log);
    assert (log + [k])[..|log|] == log;
    assert Recent(log + [k]) == [k] + Drop(m, k);
    RecentNoRepeats(log);
    DropTake(m, k, capacity);
    if k !in keys {
      DropAbsent(keys, k);
    }
    TakeCons([k] + Drop(keys, k), capacity);
    TakeCons([k] + Drop(m, k), capacity);
    hide Drop, Recent;
  }

  // ---------- exact recency ----------

  /** The keys of `m` that `log` does not touch. */
  function Minus(m: seq<Bytes>, log: seq<Bytes>): seq<Bytes> {
    if log == [] then m else Drop(Minus(m, log[..|log| - 1]), log[|log| - 1])
  }

  lemma RecentAppend(log: seq<Bytes>, k: Bytes)
    ensures Recent(log + [k]) == [k] + Drop(Recent(log), k)
  {
    assert (log + [k])[..|log|] == log;
  }

  lemma {:induction false} RecentSplit(a: seq<Bytes>, b: seq<Bytes>)
    ensures Recent(a + b) == Recent(b) + Minus(Recent(a), b)
  {
    if b == [] {
      assert a + b == a;
      assert [] + Recent(a) == Recent(a);
    } else {
      var n := |b| - 1;
      var c, x := b[..n], b[n];
      assert b == c + [x] && a + b == (a + c) + [x];
      RecentSplit(a, c);
      RecentAppend(a + c, x);
      RecentAppend(c, x);
      DropSplit(Recent(c), Minus(Recent(a), c), x);
      assert Minus(Recent(a), b) == Drop(Minus(Recent(a), c), x);
      hide Drop, Recent, Minus;
    }
  }

  lemma {:induction false} MinusKeepsFront(m: seq<Bytes>, log: seq<Bytes>)
    requires m != [] && m[0] !in log
    ensures Minus(m, log) != [] && Minus(m, log)[0] == m[0]
  {
    if log != [] {
      MinusKeepsFront(m, log[..|log| - 1]);
      assert log[|log| - 1] in log;
    }
  }

  /** A key stands behind exactly the distinct keys touched since it was. */
  lemma RankIsDistinctSince(pre: seq<Bytes>, k: Bytes, post: seq<Bytes>)
    requires k !in post
    ensures var m, d := Recent(pre + [k] + post), |DistinctIn(post)|;
            d < |m| && m[d] == k
  {
    RecentSplit(pre + [k], post);
    assert (pre + [k])[..|pre|] == pre;
    MinusKeepsFront(Recent(pre + [k]), post);
    RecentCounts(post);
  }

  /** A touched key is still cached iff fewer than `capacity` distinct other keys have been
      touched since, and that number is its position. */
  lemma ExactRecency(ops: seq<Op>, capacity: nat, pre: seq<Bytes>, k: Bytes, post: seq<Bytes>)
    requires capacity >= 1
    requires Touched(ops, capacity) == pre + [k] + post && k !in post
    ensures Find(Run(ops, capacity), k).Some? <==> |DistinctIn(post)| < capacity
    ensures |DistinctIn(post)| < capacity ==>
              |DistinctIn(post)| < |Run(ops, capacity)| && Run(ops, capacity)[|DistinctIn(post)|].key == k
  {
    var s, m, d := Run(ops, capacity), Recent(pre + [k] + post), |DistinctIn(post)|;
    KeysAreRecent(ops, capacity);
    RankIsDistinctSince(pre, k, post);
    KeysWithout(s, k);
    RecentNoRepeats(pre + [k] + post);
    if d < capacity {
      assert Keys(s)[d] == k;
    } else {
      assert forall i :: 0 <= i < |Keys(s)| ==> Keys(s)[i] == m[i] && m[i] != m[d];
    }
  }

  /** A key never touched is not cached. */
  lemma UntouchedAbsent(ops: seq<Op>, capacity: nat, k: Bytes)
    requires capacity >= 1 && k !in Touched(ops, capacity)
    ensures Find(Run(ops, capacity), k).None?
  {
    KeysAreRecent(ops, capacity);
    KeysWithout(Run(ops, capacity), k);
  }

  function LatestPut(ops: seq<Op>, k: Bytes): Option<int> {
    if ops == [] then None
    else
      match ops[|ops| - 1]
      case Put(j, v) => if j == k then Some(v) else LatestPut(ops[..|ops| - 1], k)
      case Get(_) => LatestPut(ops[..|ops| - 1], k)
  }

  lemma {:induction false} FindIsIn(s: Items, k: Bytes)
    ensures Find(s, k).Some? ==> Item(k, Find(s, k).value) in s
  {
    if s != [] && s[0].key != k {
      FindIsIn(s[1..], k);
    }
  }

  /** Every cached value is the latest one put to its key. */
  lemma {:induction false} ValuesAreLatest(ops: seq<Op>, capacity: nat)
    ensures forall x :: x in Run(ops, capacity) ==> LatestPut(ops, x.key) == Some(x.val)
  {
    if ops != [] {
      var n := |ops| - 1;
      ValuesAreLatest(ops[..n], capacity);
      FindIsIn(Run(ops[..n], capacity), ops[n].key);
    }
  }

  /** What a get answers, from the calls alone. */
  lemma HitAnswers(ops: seq<Op>, capacity: nat, pre: seq<Bytes>, k: Bytes, post: seq<Bytes>)
    requires capacity >= 1
    requires Touched(ops, capacity) == pre + [k] + post && k !in post
    ensures Find(Run(ops, capacity), k) ==
            if |DistinctIn(post)| < capacity then LatestPut(ops, k) else None
  {
    ExactRecency(ops, capacity, pre, k, post);
    ValuesAreLatest(ops, capacity);
    FindIsIn(Run(ops, capacity), k);
  }

  /** What a cache of that capacity has for a key, from the calls alone. */
  function Recalled(ops: seq<Op>, capacity: nat, k: Bytes): Option<int> {
    if k in Take(Recent(Touched(ops, capacity)), capacity) then LatestPut(ops, k) else None
  }

  lemma FoundIsRecalled(ops: seq<Op>, capacity: nat, k: Bytes)
    requires capacity >= 1
    ensures Find(Run(ops, capacity), k) == Recalled(ops, capacity, k)
  {
    KeysAreRecent(ops, capacity);
    ValuesAreLatest(ops, capacity);
    var s := Run(ops, capacity);
    hide Run, LatestPut, Recent, Touched, Take;
    FindIsIn(s, k);
    if k in Keys(s) {
      var i :| 0 <= i < |s| && Keys(s)[i] == k;
    }
  }

  /** A key among the most recent ones has a latest put, and is recalled with its value. */
  lemma RecalledExactly(ops: seq<Op>, capacity: nat, k: Bytes)
    requires capacity >= 1
    ensures k in Take(Recent(Touched(ops, capacity)), capacity) ==>
              LatestPut(ops, k).Some? && Recalled(ops, capacity, k) == LatestPut(ops, k)
    ensures k !in Take(Recent(Touched(ops, capacity)), capacity) ==> Recalled(ops, capacity, k) == None
  {
    KeysAreRecent(ops, capacity);
    ValuesAreLatest(ops, capacity);
    var s := Run(ops, capacity);
    if k in Keys(s) {
      var i :| 0 <= i < |s| && Keys(s)[i] == k;
      assert s[i] in s;
    }
    hide Run, LatestPut, Recent, Touched, Take;
  }
}
