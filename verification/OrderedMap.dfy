/** What the hash map is for its users: a finite map whose bindings are listed in the
    order in which their keys last went from absent to present.

    A key is a buffer together with a size; two keys are the same when the first `ksize`
    bytes of their buffers are. The buffer kept is the one given when the key appeared. */
module OrderedMap {
  import opened CStrings

  datatype Entry<+V> = Entry(key: Bytes, ksize: nat, value: V) {
    /** The bytes that identify the key. */
    function Id(): Bytes {
      Prefix(key, ksize)
    }
  }

  ghost predicate DistinctIds<V>(s: seq<Entry<V>>) {
    forall i, j :: 0 <= i < j < |s| ==> s[i].Id() != s[j].Id()
  }

  /** The index of an entry with the given id, or |s| when there is none. */
  ghost function Position<V>(s: seq<Entry<V>>, id: Bytes): (p: nat)
    ensures p <= |s|
    ensures p < |s| ==> s[p].Id() == id
    ensures p == |s| ==> forall i :: 0 <= i < |s| ==> s[i].Id() != id
  {
    if exists i :: 0 <= i < |s| && s[i].Id() == id then
      var i :| 0 <= i < |s| && s[i].Id() == id; i
    else |s|
  }

  ghost predicate Has<V>(s: seq<Entry<V>>, id: Bytes) {
    Position(s, id) < |s|
  }

  ghost function Lookup<V>(s: seq<Entry<V>>, id: Bytes): Option<V> {
    var p := Position(s, id);
    if p < |s| then Some(s[p].value) else None
  }

  /** hashmap_set: a present key keeps its buffer and its place. */
  ghost function Put<V>(s: seq<Entry<V>>, e: Entry<V>): seq<Entry<V>> {
    var p := Position(s, e.Id());
    if p < |s| then s[p := s[p].(value := e.value)] else s + [e]
  }

  /** hashmap_get_set: a present key is left alone. */
  ghost function PutIfAbsent<V>(s: seq<Entry<V>>, e: Entry<V>): seq<Entry<V>> {
    if Has(s, e.Id()) then s else s + [e]
  }

  /** hashmap_set_free: a present key takes the new buffer too, in its old place. */
  ghost function Replace<V>(s: seq<Entry<V>>, e: Entry<V>): seq<Entry<V>> {
    var p := Position(s, e.Id());
    if p < |s| then s[p := e] else s + [e]
  }

  /** hashmap_remove. */
  ghost function Delete<V>(s: seq<Entry<V>>, id: Bytes): seq<Entry<V>> {
    var p := Position(s, id);
    if p < |s| then s[..p] + s[p + 1..] else s
  }

  lemma PositionUnique<V>(s: seq<Entry<V>>, p: nat)
    requires DistinctIds(s)
    requires p < |s|
    ensures Position(s, s[p].Id()) == p
  {
    var q := Position(s, s[p].Id());
    assert q < |s| && s[q].Id() == s[p].Id();
  }

  lemma PutKeepsBuffer<V>(s: seq<Entry<V>>, e: Entry<V>, key: Bytes)
    requires Has(s, e.Id())
    requires s[Position(s, e.Id())] == Entry(key, e.ksize, s[Position(s, e.Id())].value)
    ensures Put(s, e) == Replace(s, Entry(key, e.ksize, e.value))
  {
  }

  /** It holds the new entry afterwards, buffer and all. */
  lemma ReplaceHolds<V>(s: seq<Entry<V>>, e: Entry<V>)
    ensures exists i :: 0 <= i < |Replace(s, e)| && Replace(s, e)[i] == e
  {
    var p := Position(s, e.Id());
    assert Replace(s, e)[p] == e;
  }

  lemma OperationsKeepDistinct<V>(s: seq<Entry<V>>, e: Entry<V>)
    requires DistinctIds(s)
    ensures DistinctIds(Put(s, e))
    ensures DistinctIds(PutIfAbsent(s, e))
    ensures DistinctIds(Replace(s, e))
    ensures DistinctIds(Delete(s, e.Id()))
  {
  }

  // ---------- lookups ----------

  lemma LookupPut<V>(s: seq<Entry<V>>, e: Entry<V>, id: Bytes)
    requires DistinctIds(s)
    ensures Lookup(Put(s, e), id) == if id == e.Id() then Some(e.value) else Lookup(s, id)
  {
    OperationsKeepDistinct(s, e);
    var t := Put(s, e);
    var p, q := Position(s, id), Position(t, id);
    if p < |s| {
      assert t[p].Id() == id;
      PositionUnique(t, p);
    } else if id == e.Id() {
      PositionUnique(t, |s|);
    }
  }

  lemma LookupDelete<V>(s: seq<Entry<V>>, gone: Bytes, id: Bytes)
    requires DistinctIds(s)
    ensures Lookup(Delete(s, gone), id) == if id == gone then None else Lookup(s, id)
  {
    var t, g := Delete(s, gone), Position(s, gone);
    var p, q := Position(s, id), Position(t, id);
    if g < |s| {
      assert forall i :: 0 <= i < |t| ==> t[i] == s[if i < g then i else i + 1];
      if id != gone && p < |s| {
        var r := if p < g then p else p - 1;
        assert t[r].Id() == id;
        PositionUnique(t, r);
      }
    }
  }

  lemma LookupReplace<V>(s: seq<Entry<V>>, e: Entry<V>, id: Bytes)
    requires DistinctIds(s)
    ensures Lookup(Replace(s, e), id) == if id == e.Id() then Some(e.value) else Lookup(s, id)
  {
    OperationsKeepDistinct(s, e);
    var t := Replace(s, e);
    var p := Position(s, id);
    if p < |s| {
      assert t[p].Id() == id;
      PositionUnique(t, p);
    } else if id == e.Id() {
      PositionUnique(t, |s|);
    }
  }

  // ---------- whole runs ----------

  datatype Op<V> =
    | Set(key: Bytes, ksize: nat, value: V)
    | GetSet(key: Bytes, ksize: nat, value: V)
    | SetFree(key: Bytes, ksize: nat, value: V)
    | Get(key: Bytes, ksize: nat)
    | Remove(key: Bytes, ksize: nat)
  {
    function Id(): Bytes {
      Prefix(key, ksize)
    }
  }

  ghost function Apply<V>(s: seq<Entry<V>>, op: Op<V>): seq<Entry<V>> {
    match op
    case Set(k, n, v) => Put(s, Entry(k, n, v))
    case GetSet(k, n, v) => PutIfAbsent(s, Entry(k, n, v))
    case SetFree(k, n, v) => Replace(s, Entry(k, n, v))
    case Get(_, _) => s
    case Remove(k, n) => Delete(s, Prefix(k, n))
  }

  ghost function Run<V>(ops: seq<Op<V>>): seq<Entry<V>> {
    if ops == [] then [] else Apply(Run(ops[..|ops| - 1]), ops[|ops| - 1])
  }

  // ---------- the plain map ----------

  ghost function ToMap<V>(s: seq<Entry<V>>): (m: map<Bytes, V>)
    ensures forall id :: Lookup(s, id) == if id in m then Some(m[id]) else None
  {
    var ids := set i | 0 <= i < |s| :: s[i].Id();
    map id | id in ids :: s[Position(s, id)].value
  }

  /** The calls on a map that has neither buffers nor an order. */
  function PlainApply<V>(m: map<Bytes, V>, op: Op<V>): map<Bytes, V> {
    match op
    case Set(_, _, v) => m[op.Id() := v]
    case GetSet(_, _, v) => if op.Id() in m then m else m[op.Id() := v]
    case SetFree(_, _, v) => m[op.Id() := v]
    case Get(_, _) => m
    case Remove(_, _) => m - {op.Id()}
  }

  function PlainRun<V>(ops: seq<Op<V>>): map<Bytes, V> {
    if ops == [] then map[] else PlainApply(PlainRun(ops[..|ops| - 1]), ops[|ops| - 1])
  }

  lemma LookupApply<V>(s: seq<Entry<V>>, op: Op<V>, id: Bytes)
    requires DistinctIds(s)
    ensures var m := PlainApply(ToMap(s), op);
            Lookup(Apply(s, op), id) == if id in m then Some(m[id]) else None
  {
    match op
    case Set(k, n, v) => LookupPut(s, Entry(k, n, v), id);
    case GetSet(k, n, v) => LookupPut(s, Entry(k, n, v), id);
    case SetFree(k, n, v) => LookupReplace(s, Entry(k, n, v), id);
    case Get(_, _) =>
    case Remove(k, n) => LookupDelete(s, Prefix(k, n), id);
  }

  lemma ApplyKeepsDistinct<V>(s: seq<Entry<V>>, op: Op<V>)
    requires DistinctIds(s)
    ensures DistinctIds(Apply(s, op))
  {
    match op
    case Set(k, n, v) => OperationsKeepDistinct(s, Entry(k, n, v));
    case GetSet(k, n, v) => OperationsKeepDistinct(s, Entry(k, n, v));
    case SetFree(k, n, v) => OperationsKeepDistinct(s, Entry(k, n, v));
    case Get(_, _) =>
    case Remove(_, _) =>
  }

  lemma SameLookups<V>(s: seq<Entry<V>>, m: map<Bytes, V>)
    requires forall id :: Lookup(s, id) == if id in m then Some(m[id]) else None
    ensures ToMap(s) == m
  {
    forall id
      ensures id in m <==> id in ToMap(s)
      ensures id in m ==> m[id] == ToMap(s)[id]
    {
      assert Lookup(s, id) == if id in m then Some(m[id]) else None;
    }
  }

  /** After any run of calls, lookups are those of a plain map that took the same calls. */
  lemma {:induction false} RunIsPlain<V>(ops: seq<Op<V>>)
    ensures DistinctIds(Run(ops)) && ToMap(Run(ops)) == PlainRun(ops)
  {
    if ops != [] {
      var before, op := ops[..|ops| - 1], ops[|ops| - 1];
      var s := Run(before);
      RunIsPlain(before);
      ApplyKeepsDistinct(s, op);
      var m := PlainApply(ToMap(s), op);
      hide Apply, PlainApply, ToMap, Lookup;
      forall id
        ensures Lookup(Apply(s, op), id) == if id in m then Some(m[id]) else None
      {
        LookupApply(s, op, id);
      }
      SameLookups(Apply(s, op), m);
    } else {
      SameLookups<V>([], map[]);
    }
  }

  /** What a run means for one key, read off the calls that name it: the buffer kept for it,
      its value, and the time of the call that last took it from absent to present. */
  datatype Fate<+V> = Absent | Present(buffer: Bytes, value: V, birth: nat)

  /** What a call made at time `now` does to the fate of its own key. */
  function FateAfter<V>(before: Fate<V>, op: Op<V>, now: nat): Fate<V> {
    match op
    case Remove(_, _) => Absent
    case Get(_, _) => before
    case GetSet(k, _, v) => if before.Present? then before else Present(k, v, now)
    case Set(k, _, v) => if before.Present? then before.(value := v) else Present(k, v, now)
    case SetFree(k, _, v) => Present(k, v, if before.Present? then before.birth else now)
  }

  function FateOf<V>(ops: seq<Op<V>>, id: Bytes): Fate<V> {
    if ops == [] then Absent
    else
      var now, op := |ops| - 1, ops[|ops| - 1];
      var before := FateOf(ops[..now], id);
      if op.Id() == id then FateAfter(before, op, now) else before
  }

  /** The list `s` holds exactly the keys present according to `fate`, once each, with
      their buffers and values, oldest first. */
  ghost predicate Tells<V>(s: seq<Entry<V>>, fate: Bytes -> Fate<V>) {
    && DistinctIds(s)
    && (forall i :: 0 <= i < |s| ==> Holds(s[i], fate))
    && (forall i, j :: 0 <= i < j < |s| ==> Older(fate, s[i].Id(), s[j].Id()))
    && (forall id :: fate(id).Present? ==> Has(s, id))
  }

  ghost predicate Holds<V>(e: Entry<V>, fate: Bytes -> Fate<V>) {
    var f := fate(e.Id());
    f.Present? && f.buffer == e.key && f.value == e.value
  }

  ghost predicate Older<V>(fate: Bytes -> Fate<V>, a: Bytes, b: Bytes) {
    fate(a).Present? && fate(b).Present? && fate(a).birth < fate(b).birth
  }

  ghost function Fates<V>(ops: seq<Op<V>>): Bytes -> Fate<V> {
    id => FateOf(ops, id)
  }

  lemma {:induction false} BirthBeforeNow<V>(ops: seq<Op<V>>, id: Bytes)
    ensures FateOf(ops, id).Present? ==> FateOf(ops, id).birth < |ops|
  {
    if ops != [] {
      BirthBeforeNow(ops[..|ops| - 1], id);
    }
  }

  /** After any run of calls, the list is the one the calls on each key determine. */
  lemma {:induction false} RunTells<V>(ops: seq<Op<V>>)
    ensures Tells(Run(ops), Fates(ops))
  {
    if ops != [] {
      var before, op := ops[..|ops| - 1], ops[|ops| - 1];
      RunTells(before);
      forall id
        ensures FateOf(before, id).Present? ==> FateOf(before, id).birth < |before|
      {
        BirthBeforeNow(before, id);
      }
      StepTells(Run(before), Fates(before), Fates(ops), op, |before|);
    }
  }

  /** One call, from the fates `f` before it to the fates `g` after it. */
  lemma StepTells<V>(s: seq<Entry<V>>, f: Bytes -> Fate<V>, g: Bytes -> Fate<V>, op: Op<V>, now: nat)
    requires Tells(s, f)
    requires forall id :: f(id).Present? ==> f(id).birth < now
    requires forall id :: id != op.Id() ==> g(id) == f(id)
    requires g(op.Id()) == FateAfter(f(op.Id()), op, now)
    ensures Tells(Apply(s, op), g)
  {
    var id, p := op.Id(), Position(s, op.Id());
    if p < |s| {
      assert Holds(s[p], f);
      if op.Remove? {
        TellsWithout(s, f, g, Delete(s, id), p);
      } else {
        TellsInPlace(s, f, g, Apply(s, op), p);
      }
    } else {
      assert !f(id).Present?;
      if op.Get? || op.Remove? {
        assert forall k :: g(k) == f(k);
        TellsSame(s, f, g);
      } else {
        TellsAppended(s, f, g, Entry(op.key, op.ksize, op.value), now);
      }
    }
  }

  lemma HasAt<V>(s: seq<Entry<V>>, i: nat)
    requires i < |s|
    ensures Has(s, s[i].Id())
  {
  }

  lemma TellsSame<V>(s: seq<Entry<V>>, f: Bytes -> Fate<V>, g: Bytes -> Fate<V>)
    requires Tells(s, f)
    requires forall k :: g(k) == f(k)
    ensures Tells(s, g)
  {
    forall i | 0 <= i < |s| ensures Holds(s[i], g) {
      assert Holds(s[i], f);
    }
    forall i, j | 0 <= i < j < |s| ensures Older(g, s[i].Id(), s[j].Id()) {
      assert Older(f, s[i].Id(), s[j].Id());
    }
  }

  lemma TellsAppended<V>(s: seq<Entry<V>>, f: Bytes -> Fate<V>, g: Bytes -> Fate<V>, e: Entry<V>, now: nat)
    requires Tells(s, f)
    requires !Has(s, e.Id())
    requires forall k :: f(k).Present? ==> f(k).birth < now
    requires forall k :: k != e.Id() ==> g(k) == f(k)
    requires g(e.Id()) == Present(e.key, e.value, now)
    ensures Tells(s + [e], g)
  {
    var t := s + [e];
    forall i | 0 <= i < |t| ensures Holds(t[i], g) {
      assert i < |s| ==> Holds(s[i], f);
    }
    forall i, j | 0 <= i < j < |t| ensures Older(g, t[i].Id(), t[j].Id()) {
      assert Holds(s[i], f);
      assert j < |s| ==> Older(f, s[i].Id(), s[j].Id());
    }
    forall k | g(k).Present? ensures Has(t, k) {
      HasAt(t, if k == e.Id() then |s| else Position(s, k));
    }
  }

  lemma TellsInPlace<V>(s: seq<Entry<V>>, f: Bytes -> Fate<V>, g: Bytes -> Fate<V>, t: seq<Entry<V>>, p: nat)
    requires Tells(s, f)
    requires p < |s| == |t|
    requires forall i :: 0 <= i < |s| && i != p ==> t[i] == s[i]
    requires t[p].Id() == s[p].Id()
    requires forall k :: k != s[p].Id() ==> g(k) == f(k)
    requires g(s[p].Id()) == Present(t[p].key, t[p].value, f(s[p].Id()).birth)
    ensures Tells(t, g)
  {
    assert forall i :: 0 <= i < |s| ==> t[i].Id() == s[i].Id();
    forall i | 0 <= i < |t| ensures Holds(t[i], g) {
      assert Holds(s[i], f);
    }
    forall i, j | 0 <= i < j < |t| ensures Older(g, t[i].Id(), t[j].Id()) {
      assert Older(f, s[i].Id(), s[j].Id());
    }
    forall k | g(k).Present? ensures Has(t, k) {
      HasAt(t, if k == s[p].Id() then p else Position(s, k));
    }
  }

  function Past(i: nat, p: nat): nat {
    if i < p then i else i + 1
  }

  lemma TellsWithout<V>(s: seq<Entry<V>>, f: Bytes -> Fate<V>, g: Bytes -> Fate<V>, t: seq<Entry<V>>, p: nat)
    requires Tells(s, f)
    requires p < |s| == |t| + 1
    requires forall i :: 0 <= i < |t| ==> t[i] == s[Past(i, p)]
    requires forall k :: k != s[p].Id() ==> g(k) == f(k)
    requires g(s[p].Id()) == Absent
    ensures Tells(t, g)
  {
    forall i | 0 <= i < |t|
      ensures t[i].Id() != s[p].Id() && Holds(t[i], g)
    {
      assert t[i] == s[Past(i, p)];
      assert Holds(s[Past(i, p)], f);
    }
    forall i, j | 0 <= i < j < |t|
      ensures t[i].Id() != t[j].Id() && Older(g, t[i].Id(), t[j].Id())
    {
      assert t[i] == s[Past(i, p)] && t[j] == s[Past(j, p)];
      assert Older(f, s[Past(i, p)].Id(), s[Past(j, p)].Id());
    }
    forall k | g(k).Present?
      ensures Has(t, k)
    {
      var q := Position(s, k);
      var r := if q < p then q else q - 1;
      assert t[r] == s[Past(r, p)];
      HasAt(t, r);
    }
  }
}
