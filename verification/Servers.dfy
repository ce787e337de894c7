/** The global state of the two kinds of server, held in hash maps, and the parts of their
    command loops that change it. */
module Servers {
  import opened CStrings
  import opened OrderedMap
  import opened HashTable
  import opened PathKeys
  import opened PathOperations
  import FD = FileDirectory

  /** The scanner finds a word in the path: it is not blank. */
  predicate Readable(path: Bytes) {
    ScanWord(path).Some?
  }

  ghost predicate AllReadable(b: seq<Binding>) {
    forall i :: 0 <= i < |b| ==> Readable(b[i].path)
  }

  /** A path map as the servers use it. */
  ghost predicate PathMap(m: HashMap<int>)
    reads m, m.buckets
  {
    m.Valid() && PathsOnly(m.Contents()) && AllReadable(Bindings(m.Contents()))
  }

  lemma ReadableIsScannable(s: seq<Entry<int>>)
    requires PathsOnly(s) && AllReadable(Bindings(s))
    ensures Scannable(s)
  {
    forall i | 0 <= i < |s|
      ensures ScanKey(s[i].key).Some?
    {
      ScanKeyReadsPath(Bindings(s)[i].path);
    }
  }

  lemma {:induction false} OutsideReadable(b: seq<Binding>, path: Bytes)
    requires AllReadable(b)
    ensures AllReadable(Outside(b, path))
  {
    if b != [] {
      OutsideReadable(b[..|b| - 1], path);
    }
  }

  lemma BindReadable(b: seq<Binding>, path: Bytes, val: int)
    requires AllReadable(b) && Readable(path)
    ensures AllReadable(Bind(b, path, val))
  {
    hide Readable;
  }

  lemma ChildReadable(path: Bytes, name: Bytes)
    ensures Readable(FD.Child(path, name))
  {
    SomeWord(FD.Child(path, name), |path|);
  }

  /** `set_value` and `remove_entry` on such maps are update and removal on plain ones. */
  method SetPath(m: HashMap<int>, path: Bytes, val: int)
    requires PathMap(m) && Readable(path)
    modifies m, m.buckets
    ensures PathMap(m) && (m.buckets == old(m.buckets) || fresh(m.buckets))
    ensures Directory(m.Contents()) == old(Directory(m.Contents()))[path := val]
  {
    assert path != [];
    hide HashMap<int>.Valid, PathsOnly, Bindings, Bind, AllReadable, Readable, Directory;
    BindReadable(Bindings(m.Contents()), path, val);
    SetValue(m, path, val);
  }

  method RemovePath(m: HashMap<int>, path: Bytes)
    requires PathMap(m)
    modifies m`tombstoneCount, m.buckets
    ensures PathMap(m)
    ensures Directory(m.Contents()) == Without(old(Directory(m.Contents())), path)
  {
    hide HashMap<int>.Valid, PathsOnly, Bindings, Outside, AllReadable, Scannable, Directory, Without;
    ReadableIsScannable(m.Contents());
    OutsideReadable(Bindings(m.Contents()), path);
    RemoveEntry(m, path);
  }

  // ---------- a storage server ----------

  class StorageServer {
    const pathToSem: HashMap<int>
    var associatedFiles: int
    ghost var startup: int    // indexes whose semaphores were initialised

    ghost predicate Valid()
      reads pathToSem, pathToSem.buckets
    {
      PathMap(pathToSem)
    }

    /** What the other servers could learn about this one. */
    ghost function State(): FD.Server
      requires Valid()
      reads this, pathToSem, pathToSem.buckets
    {
      FD.Server(Directory(pathToSem.Contents()), associatedFiles, startup)
    }

    constructor (m: HashMap<int>)
      requires m.Valid() && m.Contents() == []
      ensures Valid() && pathToSem == m && State() == FD.FRESH_SERVER
    {
      pathToSem := m;
      associatedFiles := 0;
      startup := 0;
    }

    /** The loop of `main` over the chosen files. */
    method RegisterFiles(files: seq<Bytes>)
      requires Valid() && State() == FD.FRESH_SERVER
      requires forall k :: 0 <= k < |files| ==> Readable(files[k])
      modifies this, pathToSem, pathToSem.buckets
      ensures Valid() && (pathToSem.buckets == old(pathToSem.buckets) || fresh(pathToSem.buckets))
      ensures State() == FD.Startup(files) && associatedFiles == |files|
      ensures FD.StartupEffect(files, State().index)
    {
      assert files[..0] == [] && FD.Startup([]) == FD.FRESH_SERVER;
      hide PathMap, Directory, FD.StartupEffect, FD.Startup, FD.StartupFile, Readable;
      FD.StartupHas(files);
      for i := 0 to |files|
        invariant Valid() && (pathToSem.buckets == old(pathToSem.buckets) || fresh(pathToSem.buckets))
        invariant State() == FD.Startup(files[..i])
      {
        FD.StartupStep(files, i);
        RegisterFile(files[i]);
      }
      assert files[..|files|] == files;
    }

    method RegisterFile(file: Bytes)
      requires Valid() && Readable(file)
      modifies this, pathToSem, pathToSem.buckets
      ensures Valid() && (pathToSem.buckets == old(pathToSem.buckets) || fresh(pathToSem.buckets))
      ensures State() == FD.StartupFile(old(State()), file)
    {
      hide PathMap, Directory, Readable;
      SetPath(pathToSem, file, associatedFiles);
      associatedFiles := associatedFiles + 1;
      startup := associatedFiles;
    }

    /** `create`: 1 if the shell command succeeded, and then the path has a new index. */
    method Create(path: Bytes, name: Bytes, ok: bool) returns (result: int)
      requires Valid()
      modifies this, pathToSem, pathToSem.buckets
      ensures Valid() && (pathToSem.buckets == old(pathToSem.buckets) || fresh(pathToSem.buckets))
      ensures State() == if ok then FD.AddFile(old(State()), FD.Child(path, name)) else old(State())
      ensures ok ==> State().index == old(State().index)[path + [47] + name := old(associatedFiles)]
      ensures associatedFiles == old(associatedFiles) + if ok then 1 else 0
      ensures result == if ok then 1 else 0
    {
      FD.ChildExactly(path, name);
      hide PathMap, Directory;
      if !ok {
        return 0;
      }
      ChildReadable(path, name);
      SetPath(pathToSem, FD.Child(path, name), associatedFiles);
      associatedFiles := associatedFiles + 1;
      return 1;
    }

    /** `deleteItem`: 1 if the shell command succeeded, and then the subtree is gone. */
    method DeleteItem(path: Bytes, ok: bool) returns (result: int)
      requires Valid()
      modifies this, pathToSem, pathToSem.buckets
      ensures Valid() && pathToSem.buckets == old(pathToSem.buckets)
      ensures State() == if ok then FD.RemoveTree(old(State()), path) else old(State())
      ensures ok ==> forall p :: p in State().index <==> p in old(State().index) && !FD.Taken(p, path)
      ensures result == if ok then 1 else 0
    {
      forall p
        ensures FD.Taken(p, path) <==> WordUnder(p, path)
      {
        FD.TakenExactly(p, path);
      }
      hide PathMap, Directory, Without;
      if !ok {
        return 0;
      }
      RemovePath(pathToSem, path);
      return 1;
    }

    /** How `readServerSide` and `writeServerSide` find the semaphores; -1 ends the command. */
    method FindSemaphore(path: Bytes) returns (index: int)
      requires Valid() && path != []
      ensures index == if path in State().index then State().index[path] else -1
    {
      index := GetValue(pathToSem, path);
    }
  }

  // ---------- the naming server ----------

  const MAX_SS: nat := 10

  class NamingServer {
    const accessible: HashMap<int>
    var storageServerCount: nat
    const usedPorts: array<int>

    ghost predicate Valid()
      reads this`storageServerCount, accessible, accessible.buckets
    {
      PathMap(accessible) && usedPorts.Length == 2 * MAX_SS + 1 && storageServerCount <= MAX_SS
    }

    ghost function Accessible(): map<Bytes, int>
      requires Valid()
      reads this`storageServerCount, accessible, accessible.buckets
    {
      Directory(accessible.Contents())
    }

    ghost function Ports(): seq<int>
      requires Valid()
      reads this`storageServerCount, accessible, accessible.buckets, usedPorts
    {
      usedPorts[..2 * storageServerCount + 1]
    }

    constructor (m: HashMap<int>)
      requires m.Valid() && m.Contents() == []
      ensures Valid() && accessible == m && fresh(usedPorts) && storageServerCount == 0
      ensures Accessible() == map[] && Ports() == [8989] && usedPorts.Length == 21
    {
      accessible := m;
      storageServerCount := 0;
      usedPorts := new int[2 * MAX_SS + 1];
      new;
      usedPorts[0] := FD.NAMING_SERVER_PORT;
    }

    /** The loop over `used_ports`. */
    method PortsAvailable(namingPort: int, clientPort: int) returns (available: bool)
      requires Valid()
      ensures available <==> namingPort !in Ports() && clientPort !in Ports()
    {
      available := true;
      for i := 0 to 2 * storageServerCount + 1
        invariant available
        invariant namingPort !in usedPorts[..i] && clientPort !in usedPorts[..i]
      {
        if namingPort == usedPorts[i] || clientPort == usedPorts[i] {
          assert usedPorts[i] in Ports();
          return false;
        }
      }
    }

    /** A storage server's registration: refused if it names a port in use, else its slots
        are mapped to the next server number. */
    method Register(namingPort: int, clientPort: int, slots: seq<Bytes>) returns (accepted: bool)
      requires Valid() && storageServerCount < MAX_SS
      requires forall k :: 0 <= k < |slots| ==> Readable(slots[k])
      modifies this, accessible, accessible.buckets, usedPorts
      ensures Valid() && (accessible.buckets == old(accessible.buckets) || fresh(accessible.buckets))
      ensures accepted <==> namingPort !in old(Ports()) && clientPort !in old(Ports())
      ensures !accepted ==> Accessible() == old(Accessible()) && Ports() == old(Ports())
      ensures !accepted ==> storageServerCount == old(storageServerCount)
      ensures accepted ==> storageServerCount == old(storageServerCount) + 1
      ensures accepted ==> Accessible() == FD.MapAll(old(Accessible()), slots, old(storageServerCount))
      ensures accepted ==> FD.SlotsEffect(old(Accessible()), slots, old(storageServerCount), Accessible())
      ensures accepted ==> Ports() == old(Ports()) + [namingPort, clientPort]
    {
      hide PathMap, Directory, FD.MapAll, FD.SlotsEffect;
      FD.SlotsHave(Accessible(), slots, storageServerCount);
      accepted := PortsAvailable(namingPort, clientPort);
      if !accepted {
        return;
      }
      MapSlots(slots);
      storageServerCount := storageServerCount + 1;
      usedPorts[storageServerCount * 2 - 1] := namingPort;
      usedPorts[storageServerCount * 2] := clientPort;
    }

    method MapSlots(slots: seq<Bytes>)
      requires Valid()
      requires forall k :: 0 <= k < |slots| ==> Readable(slots[k])
      modifies accessible, accessible.buckets
      ensures Valid() && (accessible.buckets == old(accessible.buckets) || fresh(accessible.buckets))
      ensures Accessible() == FD.MapAll(old(Accessible()), slots, storageServerCount)
    {
      hide PathMap, Directory;
      ghost var m := Accessible();
      assert slots[..0] == [];
      for i := 0 to |slots|
        invariant Valid() && (accessible.buckets == old(accessible.buckets) || fresh(accessible.buckets))
        invariant Accessible() == FD.MapAll(m, slots[..i], storageServerCount)
      {
        assert slots[..i + 1][..i] == slots[..i];
        SetPath(accessible, slots[i], storageServerCount);
      }
      assert slots[..|slots|] == slots;
    }

    /** How every command finds its storage server. */
    method FindServer(path: Bytes) returns (server: int)
      requires Valid() && path != []
      ensures server == if path in Accessible() then Accessible()[path] else -1
    {
      server := GetValue(accessible, path);
    }
  }

  // ---------- commands across both ----------

  /** The maps of the naming server and of every storage server are different objects. */
  ghost predicate Apart(ns: NamingServer, servers: seq<StorageServer>)
    reads ns.accessible, set i | 0 <= i < |servers| :: servers[i].pathToSem
  {
    && (forall i, j :: 0 <= i < j < |servers| ==>
          && servers[i] != servers[j] && servers[i].pathToSem != servers[j].pathToSem
          && servers[i].pathToSem.buckets != servers[j].pathToSem.buckets)
    && (forall i :: 0 <= i < |servers| ==>
          && servers[i].pathToSem != ns.accessible
          && servers[i].pathToSem.buckets != ns.accessible.buckets)
  }

  /** The storage servers and what each of them stands for. */
  ghost predicate Stand(servers: seq<StorageServer>, states: seq<FD.Server>)
    reads servers
    reads set i | 0 <= i < |servers| :: servers[i].pathToSem
    reads set i | 0 <= i < |servers| :: servers[i].pathToSem.buckets
  {
    && |servers| == |states|
    && forall i :: 0 <= i < |servers| ==> servers[i].Valid() && states[i] == servers[i].State()
  }

  /** Server `i` has its place in the system state. */
  ghost predicate Represents(s: FD.System, ns: NamingServer, servers: seq<StorageServer>)
    reads ns, ns.accessible, ns.accessible.buckets, ns.usedPorts, servers
    reads set i | 0 <= i < |servers| :: servers[i].pathToSem
    reads set i | 0 <= i < |servers| :: servers[i].pathToSem.buckets
  {
    && ns.Valid() && s.accessible == ns.Accessible() && s.ports == ns.Ports()
    && |servers| == ns.storageServerCount
    && Apart(ns, servers) && Stand(servers, s.servers)
  }

  /** The maps have the bucket arrays they had, or newly allocated ones, so that whoever was
      allowed this command is allowed the next. */
  twostate predicate Kept(ns: NamingServer, servers: seq<StorageServer>)
    reads ns.accessible, set i | 0 <= i < |servers| :: servers[i].pathToSem
  {
    && (ns.accessible.buckets == old(ns.accessible.buckets) || fresh(ns.accessible.buckets))
    && forall i :: 0 <= i < |servers| ==>
         servers[i].pathToSem.buckets == old(servers[i].pathToSem.buckets) || fresh(servers[i].pathToSem.buckets)
  }

  /** One storage server moves; the rest of the system stays as it is. */
  method AskCreate(ghost s: FD.System, ns: NamingServer, servers: seq<StorageServer>, i: nat,
                   path: Bytes, name: Bytes, ok: bool) returns (result: int)
    requires Represents(s, ns, servers) && i < |servers|
    modifies servers[i], servers[i].pathToSem, servers[i].pathToSem.buckets
    ensures ok ==> var added := FD.AddFile(s.servers[i], FD.Child(path, name));
                   Represents(s.(servers := s.servers[i := added]), ns, servers)
    ensures !ok ==> Represents(s, ns, servers)
    ensures Kept(ns, servers)
    ensures result == if ok then 1 else 0
  {
    hide PathMap, Readable, Directory, HashMap<int>.Valid, FD.AddFile;
    assert servers[i].Valid();
    result := servers[i].Create(path, name, ok);
    ghost var moved := if ok then FD.AddFile(s.servers[i], FD.Child(path, name)) else s.servers[i];
    assert Apart(ns, servers);
    assert Stand(servers, s.servers[i := moved]);
    hide Apart, Stand;
    assert s.servers[i := s.servers[i]] == s.servers;
  }

  method AskDelete(ghost s: FD.System, ns: NamingServer, servers: seq<StorageServer>, i: nat,
                   path: Bytes, ok: bool) returns (result: int)
    requires Represents(s, ns, servers) && i < |servers|
    modifies servers[i], servers[i].pathToSem, servers[i].pathToSem.buckets
    ensures ok ==> Represents(s.(servers := s.servers[i := FD.RemoveTree(s.servers[i], path)]), ns, servers)
    ensures !ok ==> Represents(s, ns, servers)
    ensures Kept(ns, servers)
    ensures result == if ok then 1 else 0
  {
    hide PathMap, Directory, HashMap<int>.Valid, FD.RemoveTree;
    assert servers[i].Valid();
    result := servers[i].DeleteItem(path, ok);
    ghost var moved := if ok then FD.RemoveTree(s.servers[i], path) else s.servers[i];
    assert Apart(ns, servers);
    assert Stand(servers, s.servers[i := moved]);
    hide Apart, Stand;
    assert s.servers[i := s.servers[i]] == s.servers;
  }

  /** The naming server's own map moves; the storage servers stay as they are. */
  method MapPath(ghost s: FD.System, ns: NamingServer, servers: seq<StorageServer>, path: Bytes, i: int)
    requires Represents(s, ns, servers) && Readable(path)
    modifies ns.accessible, ns.accessible.buckets
    ensures Represents(s.(accessible := s.accessible[path := i]), ns, servers) && Kept(ns, servers)
  {
    hide PathMap, Readable, Directory, HashMap<int>.Valid;
    SetPath(ns.accessible, path, i);
  }

  method UnmapTree(ghost s: FD.System, ns: NamingServer, servers: seq<StorageServer>, path: Bytes)
    requires Represents(s, ns, servers)
    modifies ns.accessible, ns.accessible.buckets
    ensures Represents(s.(accessible := Without(s.accessible, path)), ns, servers) && Kept(ns, servers)
  {
    hide PathMap, Directory, HashMap<int>.Valid, Without;
    RemovePath(ns.accessible, path);
  }

  /** The history is no part of what the servers hold. */
  lemma HistoryIsFree(s: FD.System, t: FD.System, ns: NamingServer, servers: seq<StorageServer>)
    requires Represents(s, ns, servers)
    requires t.accessible == s.accessible && t.servers == s.servers && t.ports == s.ports
    ensures Represents(t, ns, servers)
  {
    hide PathMap, Directory, HashMap<int>.Valid, Apart;
  }

  /** The naming server's lookup, and the storage server it names. */
  method Locate(ghost s: FD.System, ns: NamingServer, servers: seq<StorageServer>, path: Bytes)
    returns (i: int)
    requires Represents(s, ns, servers) && FD.Located(s) && path != []
    ensures i == FD.DirectoryLookup(s.accessible, path)
    ensures i == NOT_FOUND <==> path !in s.accessible
    ensures i != NOT_FOUND ==> 0 <= i < |servers| == |s.servers|
    ensures i != NOT_FOUND ==> servers[i].pathToSem != ns.accessible
  {
    assert path in s.accessible ==> 0 <= s.accessible[path] < |s.servers|;
    hide FD.Located, PathMap, Directory, HashMap<int>.Valid;
    i := ns.FindServer(path);
  }

  method AskAccess(ghost s: FD.System, ns: NamingServer, servers: seq<StorageServer>, i: nat, path: Bytes)
    returns (index: int)
    requires Represents(s, ns, servers) && i < |servers| && path != []
    ensures index == FD.DirectoryLookup(s.servers[i].index, path)
  {
    hide PathMap, Directory, HashMap<int>.Valid, Apart;
    assert servers[i].Valid() && s.servers[i] == servers[i].State();
    index := servers[i].FindSemaphore(path);
  }

  /** The naming server maps `child` to the server of `path`, and that server has it. */
  ghost predicate BothHave(s: FD.System, ns: NamingServer, servers: seq<StorageServer>, path: Bytes, child: Bytes)
    reads ns, ns.accessible, ns.accessible.buckets, ns.usedPorts, servers
    reads set i | 0 <= i < |servers| :: servers[i].pathToSem
    reads set i | 0 <= i < |servers| :: servers[i].pathToSem.buckets
  {
    && path in s.accessible
    && var i := s.accessible[path];
       && 0 <= i < |servers| && ns.Valid() && servers[i].Valid()
       && child in ns.Accessible() && ns.Accessible()[child] == i
       && child in servers[i].State().index
  }

  lemma Created(s: FD.System, t: FD.System, ns: NamingServer, servers: seq<StorageServer>, path: Bytes, name: Bytes)
    requires Represents(t, ns, servers) && path in s.accessible && FD.CreateEffect(s, path, name, true, t)
    ensures BothHave(s, ns, servers, path, path + [47] + name)
  {
    hide PathMap, Directory, HashMap<int>.Valid, Apart;
    var i := s.accessible[path];
    assert servers[i].Valid() && t.servers[i] == servers[i].State();
  }

  /** Neither the naming server nor the server of `path` has what a removal takes, and both
      have the rest. */
  ghost predicate BothDropped(s: FD.System, ns: NamingServer, servers: seq<StorageServer>, path: Bytes)
    reads ns, ns.accessible, ns.accessible.buckets, ns.usedPorts, servers
    reads set i | 0 <= i < |servers| :: servers[i].pathToSem
    reads set i | 0 <= i < |servers| :: servers[i].pathToSem.buckets
  {
    && path in s.accessible
    && var i := s.accessible[path];
       && 0 <= i < |servers| == |s.servers| && ns.Valid() && servers[i].Valid()
       && (forall p :: p in ns.Accessible() <==> p in s.accessible && !FD.Taken(p, path))
       && (forall p :: p in servers[i].State().index <==> p in s.servers[i].index && !FD.Taken(p, path))
  }

  lemma Deleted(s: FD.System, t: FD.System, ns: NamingServer, servers: seq<StorageServer>, path: Bytes)
    requires Represents(t, ns, servers) && path in s.accessible && FD.DeleteEffect(s, path, true, t)
    ensures BothDropped(s, ns, servers, path)
  {
    hide PathMap, Directory, HashMap<int>.Valid, Apart, FD.Taken;
    var i := s.accessible[path];
    assert servers[i].Valid() && t.servers[i] == servers[i].State();
  }

  /** CREATE, from the client's request to the naming server's own update: the storage
      server is asked first, and the directory changes only if it says ACK. */
  method HandleCreate(ghost s: FD.System, ns: NamingServer, servers: seq<StorageServer>,
                      path: Bytes, name: Bytes, ok: bool) returns (ack: bool)
    requires Represents(s, ns, servers) && FD.Located(s) && path != []
    modifies ns.accessible, ns.accessible.buckets, servers
    modifies set i | 0 <= i < |servers| :: servers[i].pathToSem
    modifies set i | 0 <= i < |servers| :: servers[i].pathToSem.buckets
    ensures Represents(FD.Step(s, FD.Create(path, name, ok)), ns, servers) && Kept(ns, servers)
    ensures ack <==> path in s.accessible && ok
    ensures FD.CreateEffect(s, path, name, ok, FD.Step(s, FD.Create(path, name, ok)))
    ensures ack ==> BothHave(s, ns, servers, path, path + [47] + name)
  {
    hide Represents, Readable, BothHave, FD.CreateEffect, FD.Located, FD.Child, FD.AddFile;
    FD.CreateExactly(s, path, name, ok);
    ChildReadable(path, name);
    var i := Locate(s, ns, servers, path);
    if i == NOT_FOUND {
      return false;
    }
    var result := AskCreate(s, ns, servers, i, path, name, ok);
    if result != 1 {
      return false;
    }
    var child := FD.Child(path, name);
    ghost var t := s.(servers := s.servers[i := FD.AddFile(s.servers[i], child)]);
    MapPath(t, ns, servers, child, i);
    HistoryIsFree(t.(accessible := t.accessible[child := i]), FD.Step(s, FD.Create(path, name, ok)), ns, servers);
    Created(s, FD.Step(s, FD.Create(path, name, ok)), ns, servers, path, name);
    return true;
  }

  /** DELETE likewise. */
  method HandleDelete(ghost s: FD.System, ns: NamingServer, servers: seq<StorageServer>,
                      path: Bytes, ok: bool) returns (ack: bool)
    requires Represents(s, ns, servers) && FD.Located(s) && path != []
    modifies ns.accessible, ns.accessible.buckets, servers
    modifies set i | 0 <= i < |servers| :: servers[i].pathToSem
    modifies set i | 0 <= i < |servers| :: servers[i].pathToSem.buckets
    ensures Represents(FD.Step(s, FD.Delete(path, ok)), ns, servers) && Kept(ns, servers)
    ensures ack <==> path in s.accessible && ok
    ensures FD.DeleteEffect(s, path, ok, FD.Step(s, FD.Delete(path, ok)))
    ensures ack ==> BothDropped(s, ns, servers, path)
  {
    hide Represents, BothDropped, FD.DeleteEffect, FD.Located, Without;
    FD.DeleteExactly(s, path, ok);
    var i := Locate(s, ns, servers, path);
    if i == NOT_FOUND {
      return false;
    }
    var result := AskDelete(s, ns, servers, i, path, ok);
    if result != 1 {
      return false;
    }
    ghost var t := s.(servers := s.servers[i := FD.RemoveTree(s.servers[i], path)]);
    UnmapTree(t, ns, servers, path);
    HistoryIsFree(t.(accessible := Without(t.accessible, path)), FD.Step(s, FD.Delete(path, ok)), ns, servers);
    Deleted(s, FD.Step(s, FD.Delete(path, ok)), ns, servers, path);
    return true;
  }

  /** READ or WRITE: the client is sent to a storage server, which looks up the semaphores.
      In a system that agrees it finds them. */
  method HandleAccess(ghost s: FD.System, ns: NamingServer, servers: seq<StorageServer>, path: Bytes)
    returns (found: bool, index: int)
    requires Represents(s, ns, servers) && FD.Located(s) && path != []
    ensures found <==> path in s.accessible
    ensures found ==> var d := s.servers[s.accessible[path]].index;
                      index == if path in d then d[path] else -1
    ensures found && FD.Agrees(s) && FD.AllIndexed(s) ==> index != NOT_FOUND
  {
    hide Represents, FD.Agrees, FD.AllIndexed;
    if FD.Agrees(s) && FD.AllIndexed(s) {
      FD.AgreementFinds(s, path);
    }
    var i := Locate(s, ns, servers, path);
    if i == NOT_FOUND {
      return false, NOT_FOUND;
    }
    index := AskAccess(s, ns, servers, i, path);
    return true, index;
  }

  /** A naming server that has just started stands for the system without servers. */
  method Boot(m: HashMap<int>) returns (ns: NamingServer)
    requires m.Valid() && m.Contents() == []
    ensures Represents(FD.BOOTED, ns, []) && ns.Ports() == [8989]
    ensures FD.BOOTED == FD.Run([])
    ensures ns.accessible == m && fresh(ns) && fresh(ns.usedPorts)
  {
    ns := new NamingServer(m);
  }

  /** A storage server that has indexed its files asks to join. */
  method HandleRegister(ghost s: FD.System, ns: NamingServer, servers: seq<StorageServer>,
                        joining: StorageServer, namingPort: int, clientPort: int,
                        ghost files: seq<Bytes>, slots: seq<Bytes>)
    returns (accepted: bool, servers': seq<StorageServer>)
    requires Represents(s, ns, servers) && ns.storageServerCount < MAX_SS
    requires joining.Valid() && joining.State() == FD.Startup(files)
    requires Apart(ns, servers + [joining])
    requires forall k :: 0 <= k < |slots| ==> Readable(slots[k])
    modifies ns, ns.accessible, ns.accessible.buckets, ns.usedPorts
    ensures accepted <==> namingPort !in s.ports && clientPort !in s.ports
    ensures FD.RegisterEffect(s, namingPort, clientPort, files, slots,
                              FD.Step(s, FD.Register(namingPort, clientPort, files, slots)))
    ensures servers' == if accepted then servers + [joining] else servers
    ensures Represents(FD.Step(s, FD.Register(namingPort, clientPort, files, slots)), ns, servers')
    ensures Kept(ns, servers + [joining]) && joining.pathToSem.buckets == old(joining.pathToSem.buckets)
  {
    ghost var states := s.servers + [joining.State()];
    FD.RegisterExactly(s, namingPort, clientPort, files, slots);
    hide FD.RegisterEffect;
    assert (servers + [joining])[|servers|] == joining;
    Assemble(s, ns, servers, joining);
    hide Represents, PathMap, Readable, Directory, HashMap<int>.Valid, Apart, FD.Startup, FD.MapAll;
    accepted := AskRegister(ns, servers + [joining], states, namingPort, clientPort, slots);
    servers' := if accepted then servers + [joining] else servers;
    if accepted {
      Joins(FD.Step(s, FD.Register(namingPort, clientPort, files, slots)), ns, servers + [joining], states);
    } else {
      StaysOut(s, ns, servers, joining);
    }
  }

  lemma Assemble(s: FD.System, ns: NamingServer, servers: seq<StorageServer>, joining: StorageServer)
    requires Represents(s, ns, servers) && joining.Valid() && Apart(ns, servers + [joining])
    ensures ns.Valid() && s.accessible == ns.Accessible() && s.ports == ns.Ports()
    ensures |s.servers| == |servers| == ns.storageServerCount
    ensures Stand(servers + [joining], s.servers + [joining.State()])
  {
    hide PathMap, Directory, Apart;
    var all := servers + [joining];
    assert forall i :: 0 <= i < |all| ==> if i < |servers| then all[i] == servers[i] else all[i] == joining;
  }

  method AskRegister(ns: NamingServer, ghost all: seq<StorageServer>, ghost states: seq<FD.Server>,
                     namingPort: int, clientPort: int, slots: seq<Bytes>)
    returns (accepted: bool)
    requires ns.Valid() && ns.storageServerCount < MAX_SS
    requires Apart(ns, all) && Stand(all, states)
    requires forall k :: 0 <= k < |slots| ==> Readable(slots[k])
    modifies ns, ns.accessible, ns.accessible.buckets, ns.usedPorts
    ensures ns.Valid() && Apart(ns, all) && Stand(all, states) && Kept(ns, all)
    ensures forall i :: 0 <= i < |all| ==> all[i].pathToSem.buckets == old(all[i].pathToSem.buckets)
    ensures accepted <==> namingPort !in old(ns.Ports()) && clientPort !in old(ns.Ports())
    ensures ns.storageServerCount == old(ns.storageServerCount) + if accepted then 1 else 0
    ensures ns.Accessible() == if accepted then FD.MapAll(old(ns.Accessible()), slots, old(ns.storageServerCount))
                               else old(ns.Accessible())
    ensures ns.Ports() == if accepted then old(ns.Ports()) + [namingPort, clientPort] else old(ns.Ports())
  {
    hide PathMap, Readable, Directory, HashMap<int>.Valid;
    accepted := ns.Register(namingPort, clientPort, slots);
  }

  lemma Joins(t: FD.System, ns: NamingServer, all: seq<StorageServer>, states: seq<FD.Server>)
    requires ns.Valid() && t.accessible == ns.Accessible() && t.ports == ns.Ports()
    requires |all| == ns.storageServerCount && Apart(ns, all) && Stand(all, states) && t.servers == states
    ensures Represents(t, ns, all)
  {
    hide PathMap, Directory, HashMap<int>.Valid, Apart;
  }

  lemma StaysOut(s: FD.System, ns: NamingServer, servers: seq<StorageServer>, joining: StorageServer)
    requires ns.Valid() && s.accessible == ns.Accessible() && s.ports == ns.Ports()
    requires |servers| == |s.servers| == ns.storageServerCount && joining.Valid()
    requires Apart(ns, servers + [joining]) && Stand(servers + [joining], s.servers + [joining.State()])
    ensures Represents(s, ns, servers)
  {
    var all, states := servers + [joining], s.servers + [joining.State()];
    assert forall i :: 0 <= i < |servers| ==> servers[i] == all[i] && s.servers[i] == states[i];
    hide PathMap, Directory, HashMap<int>.Valid;
  }

  // ---------- any run of commands ----------

  /** What the commands before it make of one more. */
  ghost predicate Answered(before: seq<FD.Command>, c: FD.Command, ack: bool, index: int) {
    match c
    case Register(_, _, _, _) => ack <==> FD.Registers(before, c)
    case Create(path, _, ok) => ack <==> FD.MappedTo(before, path) != NOT_FOUND && ok
    case Delete(path, ok) => ack <==> FD.MappedTo(before, path) != NOT_FOUND && ok
    case Access(path) =>
      var s, i := FD.Run(before), FD.MappedTo(before, path);
      && (ack <==> i != NOT_FOUND)
      && (ack ==>
            && 0 <= i < |s.servers|
            && (index != NOT_FOUND <==> FD.GiverOf(before, i, path) != FD.Nobody)
            && (FD.Initialised(s.servers[i], index) <==> FD.GiverOf(before, i, path) == FD.AtStartup))
  }

  /** What a command needs: a path that is not empty, or a storage server that has indexed
      its files and shares no map with the others. */
  ghost predicate Ready(c: FD.Command, ns: NamingServer, servers: seq<StorageServer>, joining: StorageServer?)
    reads ns, joining, if joining == null then {} else {joining.pathToSem, joining.pathToSem.buckets}
    reads ns.accessible, set i | 0 <= i < |servers| :: servers[i].pathToSem
  {
    if c.Register? then
      && ns.storageServerCount < MAX_SS && joining != null
      && joining.Valid() && joining.State() == FD.Startup(c.files)
      && Apart(ns, servers + [joining])
      && forall k :: 0 <= k < |c.slots| ==> Readable(c.slots[k])
    else c.path != []
  }

  /** Whatever run of commands came before, one more of any kind leaves the servers' maps
      standing for the run extended by it, and is answered as that run determines. */
  method Perform(ghost before: seq<FD.Command>, c: FD.Command, ns: NamingServer, servers: seq<StorageServer>,
                 joining: StorageServer?)
    returns (ack: bool, index: int, servers': seq<StorageServer>)
    requires Represents(FD.Run(before), ns, servers)
    requires Ready(c, ns, servers, joining)
    modifies ns, ns.accessible, ns.accessible.buckets, ns.usedPorts, servers
    modifies set i | 0 <= i < |servers| :: servers[i].pathToSem
    modifies set i | 0 <= i < |servers| :: servers[i].pathToSem.buckets
    ensures Represents(FD.Run(before + [c]), ns, servers') && Kept(ns, servers)
    ensures c.Register? ==> joining.pathToSem.buckets == old(joining.pathToSem.buckets)
    ensures servers' == if c.Register? && ack then servers + [joining] else servers
    ensures Answered(before, c, ack, index)
  {
    ghost var s := FD.Run(before);
    FD.RunAppend(before, c);
    FD.AlwaysLocated(before);
    Answers(before, c);
    hide FD.CreateEffect, FD.DeleteEffect, FD.RegisterEffect, BothHave, BothDropped;
    hide Represents, FD.Run, FD.Step, FD.Located, FD.MappedTo, FD.GiverOf, FD.Registers, FD.Accepted;
    index, servers' := NOT_FOUND, servers;
    match c {
      case Register(np, cp, _, slots) =>
        ack, servers' := HandleRegister(s, ns, servers, joining, np, cp, c.files, slots);
      case Create(path, name, ok) =>
        ack := HandleCreate(s, ns, servers, path, name, ok);
      case Delete(path, ok) =>
        ack := HandleDelete(s, ns, servers, path, ok);
      case Access(path) =>
        ack, index := HandleAccess(s, ns, servers, path);
    }
  }

  /** The commands of any number of clients, one after the other, on the same maps. */
  method ServeAll(ghost before: seq<FD.Command>, commands: seq<FD.Command>, ns: NamingServer,
                  servers: seq<StorageServer>)
    returns (acks: seq<bool>, indexes: seq<int>)
    requires Represents(FD.Run(before), ns, servers)
    requires forall k :: 0 <= k < |commands| ==> !commands[k].Register? && commands[k].path != []
    modifies ns, ns.accessible, ns.accessible.buckets, ns.usedPorts, servers
    modifies set i | 0 <= i < |servers| :: servers[i].pathToSem
    modifies set i | 0 <= i < |servers| :: servers[i].pathToSem.buckets
    ensures Represents(FD.Run(before + commands), ns, servers) && Kept(ns, servers)
    ensures |acks| == |indexes| == |commands|
    ensures forall k :: 0 <= k < |commands| ==> Answered(before + commands[..k], commands[k], acks[k], indexes[k])
  {
    hide Represents, FD.Run, Answered;
    acks, indexes := [], [];
    assert before + commands[..0] == before;
    for k := 0 to |commands|
      invariant Represents(FD.Run(before + commands[..k]), ns, servers) && Kept(ns, servers)
      invariant |acks| == |indexes| == k
      invariant forall j :: 0 <= j < k ==> Answered(before + commands[..j], commands[j], acks[j], indexes[j])
    {
      ghost var so := before + commands[..k];
      var ack, index, _ := Perform(so, commands[k], ns, servers, null);
      assert so + [commands[k]] == before + commands[..k + 1];
      acks, indexes := acks + [ack], indexes + [index];
    }
    assert commands[..|commands|] == commands;
  }

  lemma Answers(before: seq<FD.Command>, c: FD.Command)
    ensures var ports := FD.Run(before).ports;
            c.Register? ==> (c.namingPort !in ports && c.clientPort !in ports <==> FD.Registers(before, c))
    ensures !c.Register? ==> (c.path in FD.Run(before).accessible <==> FD.MappedTo(before, c.path) != NOT_FOUND)
    ensures c.Access? ==> FD.Step(FD.Run(before), c) == FD.Run(before)
    ensures c.Access? && c.path !in FD.Run(before).accessible ==> Answered(before, c, false, NOT_FOUND)
    ensures var s := FD.Run(before);
      c.Access? && c.path in s.accessible ==>
        && 0 <= s.accessible[c.path] < |s.servers|
        && Answered(before, c, true, FD.DirectoryLookup(s.servers[s.accessible[c.path]].index, c.path))
  {
    FD.DirectoryTells(before);
    if !c.Register? {
      FD.AccessExactly(before, c.path);
      assert FD.DirectoryLookup(FD.Run(before).accessible, c.path) == FD.MappedTo(before, c.path);
    }
  }
}
