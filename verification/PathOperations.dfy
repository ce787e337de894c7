/** The naming and storage servers' use of the hash map: a map from paths to ints, with
    removal of a path together with everything below it. */
module PathOperations {
  import opened CStrings
  import opened OrderedMap
  import opened BucketTable
  import opened HashTable
  import opened PathKeys

  const NOT_FOUND: int := -1

  datatype Binding = Binding(path: Bytes, value: int)

  ghost predicate Names(e: Entry<int>, path: Bytes) {
    path != [] && e.key == PathKey(path) && e.ksize == |e.key| - 1
  }

  /** Made by `set_value`. */
  ghost predicate IsPath(e: Entry<int>) {
    exists p :: Names(e, p)
  }

  ghost predicate PathsOnly(s: seq<Entry<int>>) {
    forall i :: 0 <= i < |s| ==> IsPath(s[i])
  }

  ghost function PathOf(e: Entry<int>): (p: Bytes)
    requires IsPath(e)
    ensures Names(e, p)
  {
    var p :| Names(e, p); p
  }

  lemma PathOfUnique(e: Entry<int>, p: Bytes)
    requires Names(e, p)
    ensures PathOf(e) == p && e.Id() == PathId(p)
  {
    PathIdInjective(PathOf(e), p);
  }

  /** The bindings a path map holds, in insertion order. */
  ghost function Bindings(s: seq<Entry<int>>): (b: seq<Binding>)
    requires PathsOnly(s)
    ensures |b| == |s|
    ensures forall i :: 0 <= i < |s| ==> Names(s[i], b[i].path) && b[i].value == s[i].value
  {
    seq(|s|, i requires 0 <= i < |s| => Binding(PathOf(s[i]), s[i].value))
  }

  ghost function ToDirectory(b: seq<Binding>): (d: map<Bytes, int>)
    ensures forall p :: p in d <==> exists i :: 0 <= i < |b| && b[i].path == p
  {
    if b == [] then map[]
    else
      var n := |b| - 1;
      assert b == b[..n] + [b[n]];
      ToDirectory(b[..n])[b[n].path := b[n].value]
  }

  ghost predicate DistinctPaths(b: seq<Binding>) {
    forall i, j :: 0 <= i < j < |b| ==> b[i].path != b[j].path
  }

  lemma BindingsDistinct(s: seq<Entry<int>>)
    requires PathsOnly(s) && DistinctIds(s)
    ensures DistinctPaths(Bindings(s))
  {
    forall i, j | 0 <= i < j < |s|
      ensures Bindings(s)[i].path != Bindings(s)[j].path
    {
      PathOfUnique(s[i], Bindings(s)[i].path);
      PathOfUnique(s[j], Bindings(s)[j].path);
      assert s[i].Id() != s[j].Id();
    }
  }

  lemma {:induction false} DirectoryAt(b: seq<Binding>, i: nat)
    requires DistinctPaths(b) && i < |b|
    ensures b[i].path in ToDirectory(b) && ToDirectory(b)[b[i].path] == b[i].value
  {
    var n := |b| - 1;
    if i < n {
      DirectoryAt(b[..n], i);
    }
  }

  /** The plain map a path map stands for. */
  ghost function Directory(s: seq<Entry<int>>): map<Bytes, int>
    requires PathsOnly(s)
  {
    ToDirectory(Bindings(s))
  }

  lemma DirectoryIsLookup(s: seq<Entry<int>>, path: Bytes)
    requires PathsOnly(s) && DistinctIds(s) && path != []
    ensures Lookup(s, PathId(path)) == if path in Directory(s) then Some(Directory(s)[path]) else None
  {
    var b, p := Bindings(s), Position(s, PathId(path));
    BindingsDistinct(s);
    if p < |s| {
      PathOfUnique(s[p], b[p].path);
      PathIdInjective(b[p].path, path);
      DirectoryAt(b, p);
    } else if path in Directory(s) {
      var i :| 0 <= i < |b| && b[i].path == path;
      PathOfUnique(s[i], path);
      assert false;
    }
  }

  lemma EmptyPathUnbound(s: seq<Entry<int>>)
    requires PathsOnly(s)
    ensures [] !in Directory(s)
  {
    assert forall i :: 0 <= i < |s| ==> Names(s[i], Bindings(s)[i].path);
  }

  // ---------- setting and reading ----------

  ghost function Where(b: seq<Binding>, path: Bytes): (i: nat)
    ensures i <= |b|
    ensures i < |b| ==> b[i].path == path
    ensures i == |b| ==> forall j :: 0 <= j < |b| ==> b[j].path != path
  {
    if exists i :: 0 <= i < |b| && b[i].path == path then
      var i :| 0 <= i < |b| && b[i].path == path; i
    else |b|
  }

  /** What `set_value` does to the list of bindings. */
  ghost function Bind(b: seq<Binding>, path: Bytes, val: int): seq<Binding> {
    var i := Where(b, path);
    if i < |b| then b[i := Binding(path, val)] else b + [Binding(path, val)]
  }

  function PathEntry(path: Bytes, val: int): Entry<int>
    requires path != []
  {
    Entry(PathKey(path), |PathKey(path)| - 1, val)
  }

  /** The entry of a path is at the place of its binding. */
  lemma PositionIsWhere(s: seq<Entry<int>>, path: Bytes)
    requires PathsOnly(s) && DistinctIds(s) && path != []
    ensures Position(s, PathId(path)) == Where(Bindings(s), path)
  {
    hide PathKey, PathId, FormatKey;
    var b := Bindings(s);
    var p, i := Position(s, PathId(path)), Where(b, path);
    if p < |s| {
      PathOfUnique(s[p], b[p].path);
      PathIdInjective(b[p].path, path);
    }
    if i < |b| {
      PathOfUnique(s[i], path);
      PositionUnique(s, i);
    }
  }

  lemma PutNames(s: seq<Entry<int>>, path: Bytes, val: int)
    requires PathsOnly(s) && path != []
    ensures
      var t, p := Put(s, PathEntry(path, val)), Position(s, PathId(path));
      && PathsOnly(t)
      && (forall i :: 0 <= i < |s| && i != p ==> t[i] == s[i])
      && p < |t| && Names(t[p], path) && t[p].value == val
  {
    var t, p := Put(s, PathEntry(path, val)), Position(s, PathId(path));
    hide FormatKey;
    if p < |s| {
      PathOfUnique(s[p], Bindings(s)[p].path);
      PathIdInjective(Bindings(s)[p].path, path);
    }
    assert Names(t[p], path);
    assert forall i :: 0 <= i < |t| && i != p ==> t[i] == s[i];
    forall i | 0 <= i < |t|
      ensures IsPath(t[i])
    {
      assert i != p ==> Names(t[i], Bindings(s)[i].path);
    }
  }

  lemma PutBinds(s: seq<Entry<int>>, path: Bytes, val: int)
    requires PathsOnly(s) && DistinctIds(s) && path != []
    ensures PathsOnly(Put(s, PathEntry(path, val)))
    ensures Bindings(Put(s, PathEntry(path, val))) == Bind(Bindings(s), path, val)
  {
    PutNames(s, path, val);
    PositionIsWhere(s, path);
    var t, p, b := Put(s, PathEntry(path, val)), Position(s, PathId(path)), Bindings(s);
    assert |t| == if p < |s| then |s| else |s| + 1;
    hide PathKey, PathId, FormatKey, Put;
    forall i | 0 <= i < |t|
      ensures Bindings(t)[i] == Bind(b, path, val)[i]
    {
      if i == p {
        PathOfUnique(t[i], path);
      } else {
        PathOfUnique(t[i], b[i].path);
      }
    }
    assert Bindings(t) == Bind(b, path, val);
  }

  lemma PutDirectory(s: seq<Entry<int>>, path: Bytes, val: int)
    requires PathsOnly(s) && DistinctIds(s) && path != []
    ensures PathsOnly(Put(s, PathEntry(path, val)))
    ensures Directory(Put(s, PathEntry(path, val))) == Directory(s)[path := val]
  {
    PutNames(s, path, val);
    var t := Put(s, PathEntry(path, val));
    hide Put, PathEntry, PathsOnly, DistinctIds, Directory;
    forall q
      ensures q in Directory(t) <==> q in Directory(s)[path := val]
      ensures q in Directory(t) ==> Directory(t)[q] == Directory(s)[path := val][q]
    {
      PutDirectoryAt(s, path, val, q);
    }
  }

  lemma PutDirectoryAt(s: seq<Entry<int>>, path: Bytes, val: int, q: Bytes)
    requires PathsOnly(s) && DistinctIds(s) && path != []
    requires PathsOnly(Put(s, PathEntry(path, val)))
    ensures var d, d' := Directory(s), Directory(Put(s, PathEntry(path, val)));
            if q == path then q in d' && d'[q] == val else (q in d' <==> q in d) && (q in d ==> d'[q] == d[q])
  {
    OperationsKeepDistinct(s, PathEntry(path, val));
    var t := Put(s, PathEntry(path, val));
    hide Put, PathEntry, PathId, Directory, Position, Has, Lookup;
    EmptyPathUnbound(s);
    EmptyPathUnbound(t);
    if q != [] {
      DirectoryIsLookup(s, q);
      DirectoryIsLookup(t, q);
      LookupPutPath(s, path, val, q);
    }
  }

  lemma LookupPutPath(s: seq<Entry<int>>, path: Bytes, val: int, q: Bytes)
    requires DistinctIds(s) && path != [] && q != []
    ensures Lookup(Put(s, PathEntry(path, val)), PathId(q)) == if q == path then Some(val) else Lookup(s, PathId(q))
  {
    LookupPut(s, PathEntry(path, val), PathId(q));
    PathIdInjective(path, q);
  }

  method SetValue(m: HashMap<int>, key: Bytes, val: int)
    requires m.Valid() && PathsOnly(m.Contents()) && key != []
    modifies m, m.buckets
    ensures m.Valid() && (m.buckets == old(m.buckets) || fresh(m.buckets))
    ensures PathsOnly(m.Contents())
    ensures Bindings(m.Contents()) == Bind(old(Bindings(m.Contents())), key, val)
    ensures Directory(m.Contents()) == old(Directory(m.Contents()))[key := val]
  {
    hide FormatKey, Prefix, HashMap<int>.Sound, Position, Put, Bindings, Directory;
    var temp := PathKey(key);
    PutBinds(m.Contents(), key, val);
    PutDirectory(m.Contents(), key, val);
    m.Set(temp, |temp| - 1, val);
  }

  method GetValue(m: HashMap<int>, key: Bytes) returns (r: int)
    requires m.Valid() && PathsOnly(m.Contents()) && key != []
    ensures var d := Directory(m.Contents()); r == if key in d then d[key] else -1
  {
    hide FormatKey, HashMap<int>.Sound, Position, Directory;
    var temp := PathKey(key);
    DirectoryIsLookup(m.Contents(), key);
    var found, result := m.Get(temp, |temp| - 1);
    if found {
      return result;
    }
    return NOT_FOUND;
  }

  // ---------- removing a subtree ----------

  /** The entries left by a walk that removes what the scanner places under `path`. */
  ghost function Kept(s: seq<Entry<int>>, path: Bytes): (r: seq<Entry<int>>) {
    if s == [] then []
    else
      var n := |s| - 1;
      Kept(s[..n], path) + if ScannedUnder(s[n].key, path) then [] else [s[n]]
  }

  lemma KeptSnoc(s: seq<Entry<int>>, e: Entry<int>, path: Bytes)
    ensures Kept(s + [e], path) == Kept(s, path) + if ScannedUnder(e.key, path) then [] else [e]
  {
    assert (s + [e])[..|s|] == s;
  }

  lemma {:induction false} KeptAppend(a: seq<Entry<int>>, b: seq<Entry<int>>, path: Bytes)
    ensures Kept(a + b, path) == Kept(a, path) + Kept(b, path)
  {
    if b == [] {
      assert a + b == a;
    } else {
      var n := |b| - 1;
      assert a + b == (a + b[..n]) + [b[n]] && b == b[..n] + [b[n]];
      KeptAppend(a, b[..n], path);
      KeptSnoc(a + b[..n], b[n], path);
      KeptSnoc(b[..n], b[n], path);
      hide Kept, ScannedUnder;
    }
  }

  /** The bucket at the walk's position after its callback. */
  ghost predicate Swept(was: Bucket<int>, now: Bucket<int>, dead: int, path: Bytes) {
    now == if Live(was) && ScannedUnder(was.key.bytes, path) then was.(key := NoKey, value := dead) else was
  }

  lemma {:induction false} SweptEntries(t: Table<int>, u: Table<int>, order: seq<nat>, dead: int, path: Bytes)
    requires |t| == |u|
    requires forall q :: 0 <= q < |order| ==> order[q] < |t| && Swept(t[order[q]], u[order[q]], dead, path)
    ensures Entries(u, order) == Kept(Entries(t, order), path)
  {
    if order != [] {
      var n := |order| - 1;
      SweptEntries(t, u, order[..n], dead, path);
      var e := if Live(t[order[n]]) then [EntryOf(t[order[n]])] else [];
      KeptAppend(Entries(t, order[..n]), e, path);
      assert Swept(t[order[n]], u[order[n]], dead, path);
      KeptOne(e, path);
      hide ScannedUnder, Kept;
    }
  }

  lemma KeptOne(e: seq<Entry<int>>, path: Bytes)
    requires |e| <= 1
    ensures Kept(e, path) == if e == [] || ScannedUnder(e[0].key, path) then [] else e
  {
    if e != [] {
      assert e[..0] == [] && [e[0]] == e;
    }
  }

  /** The table when the first `q` listed buckets have been visited. */
  ghost predicate Walked(t: Table<int>, u: Table<int>, order: seq<nat>, q: nat, dead: int, path: Bytes) {
    && |t| == |u| && q <= |order|
    && (forall p :: 0 <= p < |order| ==> order[p] < |t|)
    && (forall p :: 0 <= p < q ==> Swept(t[order[p]], u[order[p]], dead, path))
    && (forall p :: q <= p < |order| ==> u[order[p]] == t[order[p]])
  }

  /** The callback, on the key of the live bucket `i` of the map being walked. */
  method RemoveEntryCallback(m: HashMap<int>, ghost i: nat, key: Bytes, ksize: nat, path: Bytes)
    requires m.Valid()
    requires i < m.buckets.Length && m.buckets[i].key == Key(key) && m.buckets[i].ksize == ksize
    modifies m`tombstoneCount, m.buckets
    ensures m.Valid()
    ensures Swept(old(m.buckets[i]), m.buckets[i], m.dead, path)
    ensures forall x :: 0 <= x < m.buckets.Length && x != i ==> m.buckets[x] == old(m.buckets[x])
  {
    var temp := ScanKey(key);
    if temp.Some? && Under(temp.value, path) {
      assert Keyed(m.buckets[..][i], m.hashOf);
      OthersDiffer(m.buckets[..], m.zero, m.hashOf, i);
      hide HashMap<int>.Sound, HashMap<int>.Amortised;
      m.Remove(key, ksize);
    }
  }

  lemma OthersDiffer(t: Table<int>, zero: int, hashOf: Bytes -> Word32, i: nat)
    requires |t| > 0 && Reachable(t, zero, hashOf) && i < |t| && Live(t[i])
    ensures forall x :: 0 <= x < |t| && x != i ==> !Matches(t[x], Id(t[i]))
  {
    forall x | 0 <= x < |t| && x != i && Live(t[x])
      ensures Id(t[x]) != Id(t[i])
    {
      var lo, hi := if x < i then x else i, if x < i then i else x;
      assert Id(t[lo]) != Id(t[hi]);
    }
  }

  /** The bindings a removal of `path` leaves, in the same order. */
  ghost function Outside(b: seq<Binding>, path: Bytes): seq<Binding> {
    if b == [] then []
    else
      var n := |b| - 1;
      Outside(b[..n], path) + if WordUnder(b[n].path, path) then [] else [b[n]]
  }

  ghost function Without(d: map<Bytes, int>, path: Bytes): map<Bytes, int> {
    map p | p in d && !WordUnder(p, path) :: d[p]
  }

  /** No path has white space. */
  ghost predicate NoSpaces(b: seq<Binding>) {
    forall i, k :: 0 <= i < |b| && 0 <= k < |b[i].path| ==> b[i].path[k] !in {9, 10, 11, 12, 13, 32}
  }

  /** What is left of a plain map without the path and what is below it. */
  ghost function WithoutTree(d: map<Bytes, int>, path: Bytes): map<Bytes, int> {
    map p | p in d && p != path && !(path + [47] <= p) :: d[p]
  }

  /** The bindings outside the subtree of `path`, in the same order. */
  ghost function OutsideTree(b: seq<Binding>, path: Bytes): seq<Binding> {
    if b == [] then []
    else
      var n := |b| - 1;
      OutsideTree(b[..n], path) + if b[n].path == path || path + [47] <= b[n].path then [] else [b[n]]
  }

  /** Among paths without white space a removal takes exactly the subtree. */
  lemma {:induction false} OutsideIsTree(b: seq<Binding>, path: Bytes)
    requires NoSpaces(b) && forall i :: 0 <= i < |b| ==> b[i].path != []
    ensures Outside(b, path) == OutsideTree(b, path)
  {
    if b != [] {
      var n := |b| - 1;
      OutsideIsTree(b[..n], path);
      ScannedIsWordUnder(b[n].path, path);
      UnderExactly(b[n].path, path);
      hide WordUnder, Under, HasSpace;
    }
  }

  lemma WithoutIsTree(d: map<Bytes, int>, path: Bytes)
    requires forall p :: p in d ==> p != [] && !HasSpace(p)
    ensures Without(d, path) == WithoutTree(d, path)
  {
    forall p | p in d
      ensures WordUnder(p, path) <==> p == path || path + [47] <= p
    {
      ScannedIsWordUnder(p, path);
      UnderExactly(p, path);
    }
    hide WordUnder, Under, HasSpace;
  }

  lemma BindingsPrefix(s: seq<Entry<int>>, n: nat)
    requires PathsOnly(s) && n <= |s|
    ensures PathsOnly(s[..n]) && Bindings(s[..n]) == Bindings(s)[..n]
  {
  }

  lemma BindingsAppend(s: seq<Entry<int>>, e: Entry<int>)
    requires PathsOnly(s) && IsPath(e)
    ensures PathsOnly(s + [e]) && Bindings(s + [e]) == Bindings(s) + [Binding(PathOf(e), e.value)]
  {
  }

  lemma {:induction false} KeptBindings(s: seq<Entry<int>>, path: Bytes)
    requires PathsOnly(s)
    ensures PathsOnly(Kept(s, path))
    ensures Bindings(Kept(s, path)) == Outside(Bindings(s), path)
  {
    hide Names, IsPath, ScannedUnder, WordUnder;
    if s != [] {
      var n := |s| - 1;
      BindingsPrefix(s, n);
      KeptBindings(s[..n], path);
      var k, q := Kept(s[..n], path), Bindings(s)[n].path;
      EntryUnder(s[n], path);
      if !WordUnder(q, path) {
        BindingsAppend(k, s[n]);
      } else {
        assert k + [] == k;
      }
    }
  }

  lemma EntryUnder(e: Entry<int>, path: Bytes)
    requires IsPath(e)
    ensures ScannedUnder(e.key, path) == WordUnder(PathOf(e), path)
  {
    ScannedIsWordUnder(PathOf(e), path);
  }

  lemma DirectoryAppend(b: seq<Binding>, x: Binding)
    ensures ToDirectory(b + [x]) == ToDirectory(b)[x.path := x.value]
  {
    assert (b + [x])[..|b|] == b;
  }

  lemma WithoutUpdate(d: map<Bytes, int>, p: Bytes, v: int, path: Bytes)
    ensures Without(d[p := v], path) == if WordUnder(p, path) then Without(d, path) else Without(d, path)[p := v]
  {
  }

  lemma OutsideAppend(b: seq<Binding>, x: Binding, path: Bytes)
    ensures Outside(b + [x], path) == if WordUnder(x.path, path) then Outside(b, path) else Outside(b, path) + [x]
  {
    hide WordUnder;
    assert (b + [x])[..|b|] == b;
  }

  lemma {:induction false} OutsideDirectory(b: seq<Binding>, path: Bytes)
    ensures ToDirectory(Outside(b, path)) == Without(ToDirectory(b), path)
  {
    if b != [] {
      hide WordUnder, ToDirectory, Outside, Without;
      var n := |b| - 1;
      OutsideDirectory(b[..n], path);
      assert b == b[..n] + [b[n]];
      OutsideAppend(b[..n], b[n], path);
      DirectoryAppend(b[..n], b[n]);
      DirectoryAppend(Outside(b[..n], path), b[n]);
      WithoutUpdate(ToDirectory(b[..n]), b[n].path, b[n].value, path);
    }
  }

  /** The scanner finds a word in every stored key. Where it does not, the source compares
      an uninitialised buffer. */
  ghost predicate Scannable(s: seq<Entry<int>>) {
    forall i :: 0 <= i < |s| ==> ScanKey(s[i].key).Some?
  }

  /** Removes what the scanner places at `path` or below it: among paths without white
      space, exactly the subtree. The walk goes on over the very buckets its callback turns
      into tombstones. */
  method RemoveEntry(m: HashMap<int>, path: Bytes)
    requires m.Valid() && PathsOnly(m.Contents()) && Scannable(m.Contents())
    modifies m`tombstoneCount, m.buckets
    ensures m.Valid()
    ensures m.Contents() == Kept(old(m.Contents()), path) && PathsOnly(m.Contents())
    ensures Bindings(m.Contents()) == Outside(old(Bindings(m.Contents())), path)
    ensures Directory(m.Contents()) == Without(old(Directory(m.Contents())), path)
    ensures old(NoSpaces(Bindings(m.Contents()))) ==>
              && Bindings(m.Contents()) == OutsideTree(old(Bindings(m.Contents())), path)
              && Directory(m.Contents()) == WithoutTree(old(Directory(m.Contents())), path)
    ensures old(NoSpaces(Bindings(m.Contents()))) ==>
              forall p :: p in Directory(m.Contents()) <==>
                          p in old(Directory(m.Contents())) && p != path && !(path + [47] <= p)
  {
    ghost var s := m.Contents();
    KeptBindings(s, path);
    OutsideDirectory(Bindings(s), path);
    if NoSpaces(Bindings(s)) {
      OutsideIsTree(Bindings(s), path);
      EmptyPathUnbound(s);
      WithoutIsTree(Directory(s), path);
    }
    hide HashMap<int>.Valid, Bindings, Directory, Kept, Outside, OutsideTree, NoSpaces, Without, WithoutTree;
    Iterate(m, path);
  }

  /** `hashmap_iterate` with the callback above. */
  method Iterate(m: HashMap<int>, path: Bytes)
    requires m.Valid()
    modifies m`tombstoneCount, m.buckets
    ensures m.Valid()
    ensures m.Contents() == Kept(old(m.Contents()), path)
  {
    ghost var t := m.buckets[..];
    var current := m.first;
    ghost var q := 0;
    assert Walked(t, m.buckets[..], m.order, 0, m.dead, path);
    hide Walked, Consistent;
    while current != Null
      invariant m.Valid()
      invariant 0 <= q <= |m.order|
      invariant current == LinkTo(m.buckets, m.order, q, Null)
      invariant Walked(t, m.buckets[..], m.order, q, m.dead, path)
      decreases |m.order| - q
    {
      current := Visit(m, current, t, q, path);
      q := q + 1;
    }
    AllWalked(t, m.buckets[..], m.order, m.dead, path);
  }

  lemma AllWalked(t: Table<int>, u: Table<int>, order: seq<nat>, dead: int, path: Bytes)
    requires Walked(t, u, order, |order|, dead, path)
    ensures forall p :: 0 <= p < |order| ==> order[p] < |t|
    ensures |t| == |u| && Entries(u, order) == Kept(Entries(t, order), path)
  {
    SweptEntries(t, u, order, dead, path);
  }

  /** One turn of the walk: the callback on a live bucket, then on to the next. */
  method Visit(m: HashMap<int>, current: Addr<int>, ghost t: Table<int>, ghost q: nat, path: Bytes)
    returns (next: Addr<int>)
    requires m.Valid()
    requires q < |m.order| && current == Slot(m.buckets, m.order[q])
    requires Walked(t, m.buckets[..], m.order, q, m.dead, path)
    modifies m`tombstoneCount, m.buckets
    ensures m.Valid()
    ensures next == LinkTo(m.buckets, m.order, q + 1, Null)
    ensures Walked(t, m.buckets[..], m.order, q + 1, m.dead, path)
  {
    ghost var u, i := m.buckets[..], m.order[q];
    assert Distinct(m.order);
    hide HashMap<int>.Valid, Walked;
    var b := current.table[current.index];
    if b.key.Key? {
      RemoveEntryCallback(m, i, b.key.bytes, b.ksize, path);
    }
    WalkOn(t, u, m.buckets[..], m.order, q, m.dead, path);
    NextLink(m, q);
    next := current.table[current.index].next;
  }

  lemma NextLink(m: HashMap<int>, q: nat)
    requires m.Valid() && q < |m.order|
    ensures m.order[q] < m.buckets.Length
    ensures m.buckets[m.order[q]].next == LinkTo(m.buckets, m.order, q + 1, Null)
  {
    assert m.buckets[..][m.order[q]].next == LinkTo(m.buckets, m.order, q + 1, Null);
  }

  lemma WalkOn(t: Table<int>, u: Table<int>, u': Table<int>, order: seq<nat>, q: nat, dead: int, path: Bytes)
    requires Distinct(order) && q < |order|
    requires Walked(t, u, order, q, dead, path)
    requires |u'| == |u| && Swept(u[order[q]], u'[order[q]], dead, path)
    requires forall x :: 0 <= x < |u| && x != order[q] ==> u'[x] == u[x]
    ensures Walked(t, u', order, q + 1, dead, path)
  {
    hide Swept;
    forall p | 0 <= p < |order| && p != q
      ensures u'[order[p]] == u[order[p]]
    {
      assert order[p] != order[q];
    }
  }
}
