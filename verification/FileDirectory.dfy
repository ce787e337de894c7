/** The naming server's directory and the storage servers' indexes as one system, moved by
    registrations and by commands that do not overlap. */
module FileDirectory {
  import opened CStrings
  import opened PathKeys
  import opened PathOperations
  import Semaphores

  const NAMING_SERVER_PORT: int := 8989
  const MAX_ACC_PATHS: nat := 15

  /** One storage server: the semaphore index of each file it serves, how many indexes it
      has given out, and how many of those at startup, with their semaphores initialised. */
  datatype Server = Server(index: map<Bytes, int>, files: int, startup: int)

  const FRESH_SERVER: Server := Server(map[], 0, 0)

  ghost predicate Indexed(s: Server) {
    && 0 <= s.startup <= s.files
    && (forall p :: p in s.index ==> 0 <= s.index[p] < s.files)
    && (forall p, q :: p in s.index && q in s.index && p != q ==> s.index[p] != s.index[q])
  }

  /** The next index goes to `path`, whether or not it had one. */
  function AddFile(s: Server, path: Bytes): Server {
    s.(index := s.index[path := s.files], files := s.files + 1)
  }

  function StartupFile(s: Server, path: Bytes): Server {
    AddFile(s, path).(startup := s.files + 1)
  }

  function Startup(files: seq<Bytes>): Server {
    if files == [] then FRESH_SERVER
    else StartupFile(Startup(files[..|files| - 1]), files[|files| - 1])
  }

  lemma StartupStep(files: seq<Bytes>, i: nat)
    requires i < |files|
    ensures Startup(files[..i + 1]) == StartupFile(Startup(files[..i]), files[i])
  {
    assert files[..i + 1][..i] == files[..i];
  }

  ghost function RemoveTree(s: Server, path: Bytes): Server {
    s.(index := Without(s.index, path))
  }

  function Child(path: Bytes, name: Bytes): (c: Bytes)
    ensures |c| > 0
  {
    path + [SLASH] + name
  }

  /** The path that CREATE makes is the given one, a slash, and the name. */
  lemma ChildExactly(path: Bytes, name: Bytes)
    ensures var c := Child(path, name);
      c == path + [47] + name && |c| == |path| + 1 + |name| && path + [47] <= c && c[|path| + 1..] == name
  {
  }

  // ---------- semaphore indexes never collide ----------

  lemma AddFileIndexed(s: Server, path: Bytes)
    requires Indexed(s)
    ensures Indexed(AddFile(s, path))
  {
  }

  lemma RemoveTreeIndexed(s: Server, path: Bytes)
    requires Indexed(s)
    ensures Indexed(RemoveTree(s, path))
  {
  }

  lemma {:induction false} StartupIndexed(files: seq<Bytes>)
    ensures Indexed(Startup(files)) && Startup(files).startup == Startup(files).files == |files|
    ensures forall p :: p in Startup(files).index <==> p in files
  {
    if files != [] {
      var n := |files| - 1;
      assert files == files[..n] + [files[n]];
      StartupIndexed(files[..n]);
    }
  }

  /** The k-th chosen file gets index k; one that is chosen again keeps the last. */
  lemma {:induction false} StartupExactly(files: seq<Bytes>, k: nat)
    requires k < |files| && files[k] !in files[k + 1..]
    ensures files[k] in Startup(files).index && Startup(files).index[files[k]] == k
  {
    var n := |files| - 1;
    StartupIndexed(files[..n]);
    if k < n {
      assert files[n] == files[k + 1..][n - k - 1];
      forall i | k < i < n
        ensures files[..n][i] != files[k]
      {
        assert files[i] == files[k + 1..][i - k - 1];
      }
      StartupExactly(files[..n], k);
    }
  }

  /** Whether the semaphores of an index were initialised: `main` does it for those it gives
      out at startup, CREATE does not. */
  predicate Initialised(s: Server, i: int) {
    0 <= i < s.startup
  }

  // ---------- the system ----------

  /** `origins` is history: under which directories a mapped path was created. */
  datatype System = System(
    accessible: map<Bytes, int>,
    servers: seq<Server>,
    ports: seq<int>,
    origins: map<Bytes, set<Bytes>>)

  const BOOTED: System := System(map[], [], [NAMING_SERVER_PORT], map[])

  /** `files` is what a storage server indexes at startup, `slots` what it sends as its
      accessible paths; `ok` is whether the storage server's shell command succeeded. */
  datatype Command =
    | Register(namingPort: int, clientPort: int, files: seq<Bytes>, slots: seq<Bytes>)
    | Create(path: Bytes, name: Bytes, ok: bool)
    | Delete(path: Bytes, ok: bool)
    | Access(path: Bytes)

  function MapAll(m: map<Bytes, int>, paths: seq<Bytes>, server: int): map<Bytes, int> {
    if paths == [] then m
    else MapAll(m, paths[..|paths| - 1], server)[paths[|paths| - 1] := server]
  }

  function DirectoryLookup(m: map<Bytes, int>, path: Bytes): int {
    if path in m then m[path] else NOT_FOUND
  }

  function OriginsOf(origins: map<Bytes, set<Bytes>>, path: Bytes): set<Bytes> {
    if path in origins then origins[path] else {}
  }

  /** Registrations that name a port in use are refused; the storage server exits. */
  ghost predicate Accepted(s: System, c: Command) {
    c.Register? && c.namingPort !in s.ports && c.clientPort !in s.ports
  }

  ghost function Step(s: System, c: Command): System {
    match c
    case Register(np, cp, files, slots) =>
      if !Accepted(s, c) then s
      else s.(accessible := MapAll(s.accessible, slots, |s.servers|),
              servers := s.servers + [Startup(files)],
              ports := s.ports + [np, cp])
    case Create(path, name, ok) =>
      var i := DirectoryLookup(s.accessible, path);
      if !(0 <= i < |s.servers|) || !ok then s
      else
        var child := Child(path, name);
        s.(accessible := s.accessible[child := i],
           servers := s.servers[i := AddFile(s.servers[i], child)],
           origins := s.origins[child := OriginsOf(s.origins, child) + {path}])
    case Delete(path, ok) =>
      var i := DirectoryLookup(s.accessible, path);
      if !(0 <= i < |s.servers|) || !ok then s
      else
        s.(accessible := Without(s.accessible, path),
           servers := s.servers[i := RemoveTree(s.servers[i], path)],
           origins := map p | p in s.origins && !WordUnder(p, path) :: s.origins[p])
    case Access(_) => s
  }

  ghost function Run(commands: seq<Command>): System {
    if commands == [] then BOOTED
    else Step(Run(commands[..|commands| - 1]), commands[|commands| - 1])
  }

  // ---------- the steps, byte by byte ----------

  /** CREATE maps the new path to its parent's server, which gives it the next index; it
      does nothing if the path is not mapped or the shell command failed. */
  ghost predicate CreateEffect(s: System, path: Bytes, name: Bytes, ok: bool, t: System) {
    if path in s.accessible && ok then
      var i, child := s.accessible[path], path + [47] + name;
      && 0 <= i < |s.servers|
      && t.accessible == s.accessible[child := i] && |t.servers| == |s.servers|
      && (forall j :: 0 <= j < |s.servers| && j != i ==> t.servers[j] == s.servers[j])
      && t.servers[i].index == s.servers[i].index[child := s.servers[i].files]
      && t.servers[i].files == s.servers[i].files + 1
    else
      t.accessible == s.accessible && t.servers == s.servers
  }

  lemma CreateExactly(s: System, path: Bytes, name: Bytes, ok: bool)
    requires Located(s)
    ensures CreateEffect(s, path, name, ok, Step(s, Create(path, name, ok)))
  {
    ChildExactly(path, name);
  }

  /** A removal of `path` takes `p`: its first word is `path`, or begins with it and a slash. */
  ghost predicate Taken(p: Bytes, path: Bytes) {
    exists i: nat, j: nat :: WordSpan(p, i, j) && (p[i..j] == path || path + [47] <= p[i..j])
  }

  lemma TakenExactly(p: Bytes, path: Bytes)
    ensures Taken(p, path) <==> WordUnder(p, path)
    ensures p != [] && (forall i :: 0 <= i < |p| ==> p[i] !in {9, 10, 11, 12, 13, 32}) ==>
              (Taken(p, path) <==> p == path || path + [47] <= p)
  {
    if p != [] {
      RemovalExactly(p, path);
    }
    if ScanWord(p).Some? {
      ScanWordExactly(p, ScanWord(p).value);
    }
    forall i: nat, j: nat | WordSpan(p, i, j)
      ensures ScanWord(p) == Some(p[i..j])
    {
      ScanWordIs(p, i, j);
    }
    hide WordSpan, WordUnder, ScanWord;
  }

  /** DELETE unmaps all that a removal takes, and drops its indexes at the server asked. */
  ghost predicate DeleteEffect(s: System, path: Bytes, ok: bool, t: System) {
    if path in s.accessible && ok then
      var i := s.accessible[path];
      && 0 <= i < |s.servers| == |t.servers|
      && (forall p :: p in t.accessible <==> p in s.accessible && !Taken(p, path))
      && (forall p :: p in t.accessible ==> t.accessible[p] == s.accessible[p])
      && (forall j :: 0 <= j < |s.servers| && j != i ==> t.servers[j] == s.servers[j])
      && (forall p :: p in t.servers[i].index <==> p in s.servers[i].index && !Taken(p, path))
      && (forall p :: p in t.servers[i].index ==> t.servers[i].index[p] == s.servers[i].index[p])
      && t.servers[i].files == s.servers[i].files
    else
      t.accessible == s.accessible && t.servers == s.servers
  }

  lemma DeleteExactly(s: System, path: Bytes, ok: bool)
    requires Located(s)
    ensures DeleteEffect(s, path, ok, Step(s, Delete(path, ok)))
  {
    forall p
      ensures Taken(p, path) <==> WordUnder(p, path)
    {
      TakenExactly(p, path);
    }
    hide Taken, WordUnder;
  }

  /** The indexes of the files chosen at startup: the k-th one's is k, unless it was chosen
      again after that. */
  ghost predicate StartupEffect(files: seq<Bytes>, index: map<Bytes, int>) {
    && (forall p :: p in index <==> p in files)
    && (forall k :: 0 <= k < |files| && files[k] !in files[k + 1..] ==> index[files[k]] == k)
  }

  lemma StartupHas(files: seq<Bytes>)
    ensures StartupEffect(files, Startup(files).index) && Startup(files).files == |files|
  {
    StartupIndexed(files);
    forall k | 0 <= k < |files| && files[k] !in files[k + 1..]
      ensures files[k] in Startup(files).index && Startup(files).index[files[k]] == k
    {
      StartupExactly(files, k);
    }
  }

  /** All slots are mapped to the new server, and the other paths as they were. */
  ghost predicate SlotsEffect(before: map<Bytes, int>, slots: seq<Bytes>, n: int, after: map<Bytes, int>) {
    && (forall p :: p in after <==> p in before || p in slots)
    && (forall p :: p in after ==> after[p] == if p in slots then n else before[p])
  }

  lemma SlotsHave(before: map<Bytes, int>, slots: seq<Bytes>, n: int)
    ensures SlotsEffect(before, slots, n, MapAll(before, slots, n))
  {
    MapAllIs(before, slots, n);
  }

  /** A registration is accepted iff neither of its ports is in use. Then all its slots are
      mapped to the new server, whose files have indexes, and both ports are in use. */
  ghost predicate RegisterEffect(s: System, np: int, cp: int, files: seq<Bytes>, slots: seq<Bytes>, t: System) {
    if np in s.ports || cp in s.ports then t == s
    else
      var n := |s.servers|;
      && |t.servers| == n + 1 && t.servers[..n] == s.servers && t.ports == s.ports + [np, cp]
      && SlotsEffect(s.accessible, slots, n, t.accessible)
      && StartupEffect(files, t.servers[n].index) && t.servers[n].files == |files|
  }

  lemma RegisterExactly(s: System, np: int, cp: int, files: seq<Bytes>, slots: seq<Bytes>)
    ensures RegisterEffect(s, np, cp, files, slots, Step(s, Register(np, cp, files, slots)))
  {
    SlotsHave(s.accessible, slots, |s.servers|);
    StartupHas(files);
    hide SlotsEffect, StartupEffect;
  }

  lemma RunAppend(before: seq<Command>, c: Command)
    ensures Run(before + [c]) == Step(Run(before), c)
  {
    assert (before + [c])[..|before|] == before;
  }

  // ---------- what every run keeps ----------

  ghost predicate AllIndexed(s: System) {
    forall i :: 0 <= i < |s.servers| ==> Indexed(s.servers[i])
  }

  /** Two paths of one server never share a semaphore, over all runs. */
  lemma {:induction false} IndexesNeverCollide(commands: seq<Command>)
    ensures AllIndexed(Run(commands))
  {
    if commands != [] {
      var c := commands[|commands| - 1];
      IndexesNeverCollide(commands[..|commands| - 1]);
      StepKeepsIndexed(Run(commands[..|commands| - 1]), c);
    }
  }

  lemma StepKeepsIndexed(s: System, c: Command)
    requires AllIndexed(s)
    ensures AllIndexed(Step(s, c))
  {
    match c
    case Register(_, _, files, _) => StartupIndexed(files);
    case Create(path, name, _) =>
      var i := DirectoryLookup(s.accessible, path);
      if 0 <= i < |s.servers| {
        AddFileIndexed(s.servers[i], Child(path, name));
      }
    case Delete(path, _) =>
      var i := DirectoryLookup(s.accessible, path);
      if 0 <= i < |s.servers| {
        RemoveTreeIndexed(s.servers[i], path);
      }
    case Access(_) =>
  }

  ghost predicate Serves(s: System, path: Bytes) {
    && path in s.accessible
    && 0 <= s.accessible[path] < |s.servers|
    && path in s.servers[s.accessible[path]].index
  }

  /** Every path the naming server maps to a storage server is indexed there. */
  ghost predicate Agrees(s: System) {
    forall p :: p in s.accessible ==> Serves(s, p)
  }

  /** What a registration sends, it has indexed. */
  ghost predicate Honest(c: Command) {
    c.Register? ==> forall k :: 0 <= k < |c.slots| ==> c.slots[k] in c.files
  }

  lemma {:induction false} MapAllIs(m: map<Bytes, int>, paths: seq<Bytes>, server: int)
    ensures forall p :: p in MapAll(m, paths, server) <==> p in m || p in paths
    ensures forall p :: p in paths ==> MapAll(m, paths, server)[p] == server
    ensures forall p :: p in m && p !in paths ==> MapAll(m, paths, server)[p] == m[p]
  {
    if paths != [] {
      var n := |paths| - 1;
      assert paths == paths[..n] + [paths[n]];
      MapAllIs(m, paths[..n], server);
    }
  }

  /** An accepted registration keeps agreement iff every slot it sends is one it indexed. */
  lemma RegistrationAgreesExactly(s: System, c: Command)
    requires Agrees(s) && Accepted(s, c)
    ensures Agrees(Step(s, c)) <==> Honest(c)
  {
    var t := Step(s, c);
    MapAllIs(s.accessible, c.slots, |s.servers|);
    StartupIndexed(c.files);
    if Honest(c) {
      forall p | p in t.accessible
        ensures Serves(t, p)
      {
        assert p in s.accessible ==> Serves(s, p);
      }
    } else {
      var k :| 0 <= k < |c.slots| && c.slots[k] !in c.files;
      assert c.slots[k] in t.accessible && !Serves(t, c.slots[k]);
    }
  }

  /** One that chose no file still sends "/home/" in its first slot, and so breaks it,
      whatever the other slots hold. */
  lemma EmptyChoiceBreaksAgreement(s: System, np: int, cp: int, slots: seq<Bytes>)
    requires Agrees(s) && Accepted(s, Register(np, cp, [], slots))
    requires |slots| == 15 && slots[0] == [47, 104, 111, 109, 101, 47]
    ensures !Agrees(Step(s, Register(np, cp, [], slots)))
  {
    RegistrationAgreesExactly(s, Register(np, cp, [], slots));
    assert slots[0] !in [];
  }

  lemma StepAgrees(s: System, c: Command)
    requires Agrees(s) && (Accepted(s, c) ==> Honest(c))
    ensures Agrees(Step(s, c))
  {
    match c
    case Register(_, _, _, _) =>
      if Accepted(s, c) {
        RegistrationAgreesExactly(s, c);
      }
    case Create(path, name, ok) => CreateAgrees(s, path, name, ok);
    case Delete(path, ok) => DeleteAgrees(s, path, ok);
    case Access(_) =>
  }

  lemma CreateAgrees(s: System, path: Bytes, name: Bytes, ok: bool)
    requires Agrees(s)
    ensures Agrees(Step(s, Create(path, name, ok)))
  {
    var t := Step(s, Create(path, name, ok));
    forall p | p in t.accessible
      ensures Serves(t, p)
    {
      assert p in s.accessible ==> Serves(s, p);
    }
  }

  lemma DeleteAgrees(s: System, path: Bytes, ok: bool)
    requires Agrees(s)
    ensures Agrees(Step(s, Delete(path, ok)))
  {
    var t := Step(s, Delete(path, ok));
    forall p | p in t.accessible
      ensures Serves(t, p)
    {
      assert Serves(s, p);
    }
  }

  /** In every run whose accepted registrations sent only what they had indexed, a READ or
      WRITE that the naming server forwards finds its semaphore index. */
  lemma {:induction false} ForwardedAccessFindsIndex(commands: seq<Command>)
    requires forall k :: 0 <= k < |commands| ==> Accepted(Run(commands[..k]), commands[k]) ==> Honest(commands[k])
    ensures Agrees(Run(commands))
    ensures var s := Run(commands);
            forall p :: p in s.accessible ==> DirectoryLookup(s.servers[s.accessible[p]].index, p) != NOT_FOUND
  {
    if commands != [] {
      var n := |commands| - 1;
      assert forall k :: 0 <= k < n ==> commands[..n][..k] == commands[..k];
      ForwardedAccessFindsIndex(commands[..n]);
      StepAgrees(Run(commands[..n]), commands[n]);
    }
    IndexesNeverCollide(commands);
    forall p | p in Run(commands).accessible
      ensures DirectoryLookup(Run(commands).servers[Run(commands).accessible[p]].index, p) != NOT_FOUND
    {
      AgreementFinds(Run(commands), p);
    }
  }

  lemma AgreementFinds(s: System, path: Bytes)
    requires Agrees(s) && AllIndexed(s)
    ensures path in s.accessible ==>
              && 0 <= s.accessible[path] < |s.servers|
              && DirectoryLookup(s.servers[s.accessible[path]].index, path) != NOT_FOUND
  {
    if path in s.accessible {
      assert Serves(s, path) && Indexed(s.servers[s.accessible[path]]);
    }
  }

  /** Every mapped path is mapped to a server that exists, whatever was registered. */
  ghost predicate Located(s: System) {
    forall p :: p in s.accessible ==> 0 <= s.accessible[p] < |s.servers|
  }

  lemma {:induction false} AlwaysLocated(commands: seq<Command>)
    ensures Located(Run(commands))
  {
    if commands != [] {
      var s, c := Run(commands[..|commands| - 1]), commands[|commands| - 1];
      AlwaysLocated(commands[..|commands| - 1]);
      if c.Register? {
        MapAllIs(s.accessible, c.slots, |s.servers|);
      }
    }
  }

  // ---------- what a run means for one path ----------

  /** The ports and the number of servers, read off the registrations. */
  function PortsAfter(commands: seq<Command>): seq<int> {
    if commands == [] then [NAMING_SERVER_PORT]
    else
      var ports, c := PortsAfter(commands[..|commands| - 1]), commands[|commands| - 1];
      if c.Register? && c.namingPort !in ports && c.clientPort !in ports
      then ports + [c.namingPort, c.clientPort] else ports
  }

  predicate Registers(before: seq<Command>, c: Command) {
    c.Register? && c.namingPort !in PortsAfter(before) && c.clientPort !in PortsAfter(before)
  }

  function ServersAfter(commands: seq<Command>): nat {
    if commands == [] then 0
    else
      var before := commands[..|commands| - 1];
      ServersAfter(before) + if Registers(before, commands[|commands| - 1]) then 1 else 0
  }

  /** The server a path is mapped to, by the last command that says so. */
  function MappedTo(commands: seq<Command>, p: Bytes): int {
    if commands == [] then NOT_FOUND
    else
      var before, c := commands[..|commands| - 1], commands[|commands| - 1];
      match c
      case Register(_, _, _, slots) =>
        if Registers(before, c) && p in slots then ServersAfter(before) else MappedTo(before, p)
      case Create(path, name, ok) =>
        if ok && MappedTo(before, path) != NOT_FOUND && p == Child(path, name) then MappedTo(before, path)
        else MappedTo(before, p)
      case Delete(path, ok) =>
        if ok && MappedTo(before, path) != NOT_FOUND && WordUnder(p, path) then NOT_FOUND
        else MappedTo(before, p)
      case Access(_) => MappedTo(before, p)
  }

  /** How a path came by its semaphore index at server `i`: the last command that gave it
      one, unless a later one took it away. */
  datatype Giver = Nobody | AtStartup | ByCreate

  function GiverOf(commands: seq<Command>, i: nat, p: Bytes): Giver {
    if commands == [] then Nobody
    else
      var before, c := commands[..|commands| - 1], commands[|commands| - 1];
      match c
      case Register(_, _, files, _) =>
        if Registers(before, c) && i == ServersAfter(before) && p in files then AtStartup
        else GiverOf(before, i, p)
      case Create(path, name, ok) =>
        if ok && MappedTo(before, path) == i && p == Child(path, name) then ByCreate
        else GiverOf(before, i, p)
      case Delete(path, ok) =>
        if ok && MappedTo(before, path) == i && WordUnder(p, path) then Nobody
        else GiverOf(before, i, p)
      case Access(_) => GiverOf(before, i, p)
  }

  /** The naming server's directory after any run is the one the commands determine. */
  lemma {:induction false} DirectoryTells(commands: seq<Command>)
    ensures var s := Run(commands);
      && s.ports == PortsAfter(commands) && |s.servers| == ServersAfter(commands)
      && forall p :: DirectoryLookup(s.accessible, p) == MappedTo(commands, p)
  {
    if commands != [] {
      var before, c := commands[..|commands| - 1], commands[|commands| - 1];
      var s := Run(before);
      DirectoryTells(before);
      AlwaysLocated(before);
      if c.Register? {
        MapAllIs(s.accessible, c.slots, |s.servers|);
      }
      hide WordUnder;
      forall p
        ensures DirectoryLookup(Step(s, c).accessible, p) == MappedTo(commands, p)
      {
        assert DirectoryLookup(s.accessible, p) == MappedTo(before, p);
        if c.Create? || c.Delete? {
          assert DirectoryLookup(s.accessible, c.path) == MappedTo(before, c.path);
        }
      }
    }
  }

  /** After any run, a path has an index at a server iff some command gave it one, and that
      index's semaphores are initialised iff the giver was the server's startup. */
  lemma {:induction false} IndexesTell(commands: seq<Command>, i: nat, p: Bytes)
    ensures i >= ServersAfter(commands) ==> GiverOf(commands, i, p) == Nobody
    ensures |Run(commands).servers| == ServersAfter(commands)
    ensures i < ServersAfter(commands) ==>
              var server := Run(commands).servers[i];
              && (p in server.index <==> GiverOf(commands, i, p) != Nobody)
              && (p in server.index ==>
                    (Initialised(server, server.index[p]) <==> GiverOf(commands, i, p) == AtStartup))
  {
    DirectoryTells(commands);
    if commands != [] {
      var before, c := commands[..|commands| - 1], commands[|commands| - 1];
      IndexesTell(before, i, p);
      DirectoryTells(before);
      AlwaysLocated(before);
      IndexesNeverCollide(before);
      hide WordUnder;
      match c
      case Register(_, _, files, _) => StartupIndexed(files);
      case Create(path, _, _) => assert DirectoryLookup(Run(before).accessible, path) == MappedTo(before, path);
      case Delete(path, _) => assert DirectoryLookup(Run(before).accessible, path) == MappedTo(before, path);
      case Access(_) =>
    }
  }

  /** What becomes of a READ or WRITE after any run: it is forwarded iff its path is mapped,
      finds an index iff a command gave the path one at that server, and finds initialised
      semaphores iff that was at startup. */
  lemma AccessExactly(commands: seq<Command>, path: Bytes)
    ensures var s, i := Run(commands), MappedTo(commands, path);
      && (path in s.accessible <==> i != NOT_FOUND)
      && (i != NOT_FOUND ==>
            && 0 <= i < |s.servers|
            && var j := DirectoryLookup(s.servers[i].index, path);
               && (j != NOT_FOUND <==> GiverOf(commands, i, path) != Nobody)
               && (Initialised(s.servers[i], j) <==> GiverOf(commands, i, path) == AtStartup))
  {
    DirectoryTells(commands);
    AlwaysLocated(commands);
    IndexesNeverCollide(commands);
    var s, i := Run(commands), MappedTo(commands, path);
    assert DirectoryLookup(s.accessible, path) == i;
    if i != NOT_FOUND {
      IndexesTell(commands, i, path);
      assert Indexed(s.servers[i]);
    }
  }

  /** What `sem_wait` finds in both semaphores of an index: 1 if `main` initialised them,
      and 0, as in all static storage, if not. */
  function SemaphoreValue(s: Server, i: int): nat {
    if Initialised(s, i) then 1 else 0
  }

  /** The end of that story. Of the requests for a path that a client is sent on with, a READ
      can get in iff the path's index was given out at startup. If CREATE gave it out, every
      READ waits for good before it starts, and every WRITE after it emptied the file. */
  lemma RequestsEndExactly(commands: seq<Command>, path: Bytes, s0: Semaphores.State)
    requires Serves(Run(commands), path)
    requires var server := Run(commands).servers[Run(commands).accessible[path]];
             Semaphores.Initial(s0, SemaphoreValue(server, server.index[path]))
    ensures var giver := GiverOf(commands, Run(commands).accessible[path], path);
      && giver != Nobody
      && ((exists schedule :: Semaphores.CanRun(s0, schedule) &&
                              Semaphores.RReading in Semaphores.After(s0, schedule).pcs)
          <==> giver == AtStartup && Semaphores.RStart in s0.pcs)
      && (giver == ByCreate ==> forall schedule :: Semaphores.CanRun(s0, schedule) ==> KeptOut(s0, schedule))
  {
    var s := Run(commands);
    var i := s.accessible[path];
    IndexesTell(commands, i, path);
    var value := SemaphoreValue(s.servers[i], s.servers[i].index[path]);
    Semaphores.EnterableExactly(s0, value);
    if value == 0 {
      forall schedule | Semaphores.CanRun(s0, schedule)
        ensures KeptOut(s0, schedule)
      {
        Semaphores.NeverInitialisedNeverEnters(s0, schedule);
      }
    }
  }

  /** No READ has begun, and no WRITE has done more than to empty the file. */
  ghost predicate KeptOut(s0: Semaphores.State, schedule: seq<nat>)
    requires Semaphores.CanRun(s0, schedule)
  {
    var s := Semaphores.After(s0, schedule);
    && |s.pcs| == |s0.pcs|
    && forall i :: 0 <= i < |s.pcs| ==> if s0.pcs[i] == Semaphores.RStart then s.pcs[i] == Semaphores.RStart
                                        else s.pcs[i] == Semaphores.WStart || s.pcs[i] == Semaphores.WOpened
  }

  // ---------- indexes that no client can reach ----------

  ghost predicate BackAt(s: System, i: nat, p: Bytes)
    requires i < |s.servers|
  {
    p in s.servers[i].index ==> p in s.accessible && s.accessible[p] == i
  }

  /** Every indexed path is mapped to the server that indexed it. */
  ghost predicate Back(s: System) {
    forall i, p :: 0 <= i < |s.servers| ==> BackAt(s, i, p)
  }

  /** The path is indexed at no server but `i`. */
  ghost predicate OnlyAt(s: System, p: Bytes, i: int) {
    forall j :: 0 <= j < |s.servers| && p in s.servers[j].index ==> j == i
  }

  /** What a command needs for that: a registration sends all that it indexed and nothing
      that another server did, a CREATE does not make a path another server has, and a DELETE
      does not reach below its path into another server. */
  ghost predicate KeepsBack(s: System, c: Command) {
    match c
    case Register(_, _, files, slots) =>
      Accepted(s, c) ==>
        && (forall p :: p in files ==> p in slots)
        && (forall p :: p in slots ==> OnlyAt(s, p, |s.servers|))
    case Create(path, name, ok) =>
      var i := DirectoryLookup(s.accessible, path);
      0 <= i < |s.servers| && ok ==> OnlyAt(s, Child(path, name), i)
    case Delete(path, ok) =>
      var i := DirectoryLookup(s.accessible, path);
      0 <= i < |s.servers| && ok ==> forall p :: WordUnder(p, path) ==> OnlyAt(s, p, i)
    case Access(_) => true
  }

  /** DELETE unmaps its subtree for every server, but only the one it asked drops indexes;
      this is when an index is left behind, for every kind of command. */
  lemma BackExactly(s: System, c: Command)
    requires Back(s) && Located(s)
    ensures Back(Step(s, c)) <==> KeepsBack(s, c)
  {
    match c
    case Register(_, _, _, _) => RegisterBack(s, c);
    case Create(_, _, _) => CreateBack(s, c);
    case Delete(_, _) => DeleteBack(s, c);
    case Access(_) =>
  }

  lemma RegisterBack(s: System, c: Command)
    requires Back(s) && Located(s) && c.Register?
    ensures Back(Step(s, c)) <==> KeepsBack(s, c)
  {
    var n, t := |s.servers|, Step(s, c);
    MapAllIs(s.accessible, c.slots, n);
    StartupIndexed(c.files);
    if !Accepted(s, c) {
      return;
    }
    if KeepsBack(s, c) {
      forall i, p | 0 <= i < |t.servers|
        ensures BackAt(t, i, p)
      {
        assert i < n ==> BackAt(s, i, p);
        assert p in c.slots ==> OnlyAt(s, p, n);
      }
    }
    if Back(t) {
      forall p | p in c.files
        ensures p in c.slots
      {
        assert BackAt(t, n, p);
      }
      forall p, j | p in c.slots && 0 <= j < n
        ensures p !in s.servers[j].index
      {
        assert BackAt(t, j, p);
      }
    }
  }

  lemma CreateBack(s: System, c: Command)
    requires Back(s) && c.Create?
    ensures Back(Step(s, c)) <==> KeepsBack(s, c)
  {
    var t, i, child := Step(s, c), DirectoryLookup(s.accessible, c.path), Child(c.path, c.name);
    if !(0 <= i < |s.servers|) || !c.ok {
      return;
    }
    if KeepsBack(s, c) {
      forall j, p | 0 <= j < |t.servers|
        ensures BackAt(t, j, p)
      {
        assert BackAt(s, j, p);
      }
    }
    if Back(t) {
      forall j | 0 <= j < |s.servers| && child in s.servers[j].index
        ensures j == i
      {
        assert BackAt(t, j, child);
      }
    }
  }

  lemma DeleteBack(s: System, c: Command)
    requires Back(s) && c.Delete?
    ensures Back(Step(s, c)) <==> KeepsBack(s, c)
  {
    hide WordUnder;
    var t, i := Step(s, c), DirectoryLookup(s.accessible, c.path);
    if !(0 <= i < |s.servers|) || !c.ok {
      return;
    }
    if KeepsBack(s, c) {
      forall j, p | 0 <= j < |t.servers|
        ensures BackAt(t, j, p)
      {
        assert BackAt(s, j, p);
        assert WordUnder(p, c.path) ==> OnlyAt(s, p, i);
      }
    }
    if Back(t) {
      forall p, j | WordUnder(p, c.path) && 0 <= j < |s.servers| && p in s.servers[j].index
        ensures j == i
      {
        assert BackAt(t, j, p);
      }
    }
  }

  /** The registration of a server with one file, which then fills all its slots. */
  function OneFile(namingPort: int, clientPort: int, p: Bytes): Command {
    Register(namingPort, clientPort, [p], seq(MAX_ACC_PATHS, _ => p))
  }

  lemma OneFileJoins(s: System, np: int, cp: int, p: Bytes)
    requires Back(s) && Located(s) && np !in s.ports && cp !in s.ports && p !in s.accessible
    ensures var t := Step(s, OneFile(np, cp, p));
      && Back(t) && Located(t)
      && t.accessible == s.accessible[p := |s.servers|] && t.ports == s.ports + [np, cp]
      && |t.servers| == |s.servers| + 1 && p in t.servers[|s.servers|].index
  {
    var c := OneFile(np, cp, p);
    assert c.slots[0] == p;
    MapAllIs(s.accessible, c.slots, |s.servers|);
    StartupIndexed([p]);
    forall j | 0 <= j < |s.servers|
      ensures p !in s.servers[j].index
    {
      assert BackAt(s, j, p);
    }
    BackExactly(s, c);
  }

  lemma OneJoins(a: Bytes)
    ensures var s := Run([OneFile(1, 2, a)]);
      && Back(s) && Located(s) && |s.servers| == 1
      && s.accessible == map[a := 0] && s.ports == [NAMING_SERVER_PORT, 1, 2]
  {
    RunAppend([], OneFile(1, 2, a));
    hide OneFile, Step;
    OneFileJoins(BOOTED, 1, 2, a);
    assert [] + [OneFile(1, 2, a)] == [OneFile(1, 2, a)];
  }

  lemma TwoJoin(a: Bytes, b: Bytes)
    requires a != b
    ensures var s := Run([OneFile(1, 2, a), OneFile(3, 4, b)]);
      && Back(s) && Located(s) && |s.servers| == 2
      && DirectoryLookup(s.accessible, a) == 0 && b in s.servers[1].index
  {
    var c, d := OneFile(1, 2, a), OneFile(3, 4, b);
    hide Step, Run, Back, Located, OneFile;
    OneJoins(a);
    RunAppend([c], d);
    assert [c] + [d] == [c, d];
    OneFileJoins(Run([c]), 3, 4, b);
  }

  /** Two servers that share out "/a" and "/a/b": deleting "/a" leaves an index at the other. */
  lemma DeleteLeavesIndex()
    ensures var joined := [OneFile(1, 2, [47, 97]), OneFile(3, 4, [47, 97, 47, 98])];
            Back(Run(joined)) && !Back(Run(joined + [Delete([47, 97], true)]))
  {
    var a, b := [47, 97], [47, 97, 47, 98];
    var joined, e := [OneFile(1, 2, a), OneFile(3, 4, b)], Delete(a, true);
    ScannedIsWordUnder(b, a);
    assert WordUnder(b, a) && |a| != |b|;
    hide Step, Run, Back, WordUnder, OneFile;
    TwoJoin(a, b);
    RunAppend(joined, e);
    BackExactly(Run(joined), e);
    assert !OnlyAt(Run(joined), b, 0);
  }

  // ---------- no orphans ----------

  /** A path that was created is mapped, and so is every directory it was created under. */
  ghost predicate NoOrphans(s: System) {
    && (forall c :: c in s.origins ==> c in s.accessible)
    && (forall c, d :: c in s.origins && d in s.origins[c] ==> d in s.accessible && d + [SLASH] <= c)
  }

  lemma StepNoOrphans(s: System, c: Command)
    requires NoOrphans(s)
    ensures NoOrphans(Step(s, c))
  {
    match c
    case Register(_, _, _, slots) => MapAllIs(s.accessible, slots, |s.servers|);
    case Create(path, name, _) => assert path + [SLASH] <= Child(path, name);
    case Delete(path, _) =>
      forall p, d | p in s.origins && d in s.origins[p] && WordUnder(d, path)
        ensures WordUnder(p, path)
      {
        WordUnderInherited(p, d, path);
      }
      hide WordUnder;
    case Access(_) =>
  }

  /** Whether `c` was created under `d` and not removed since, read off the commands. */
  predicate CreatedUnder(commands: seq<Command>, c: Bytes, d: Bytes) {
    if commands == [] then false
    else
      var before, last := commands[..|commands| - 1], commands[|commands| - 1];
      match last
      case Create(path, name, ok) =>
        (ok && MappedTo(before, path) != NOT_FOUND && c == Child(path, name) && d == path)
        || CreatedUnder(before, c, d)
      case Delete(path, ok) =>
        !(ok && MappedTo(before, path) != NOT_FOUND && WordUnder(c, path)) && CreatedUnder(before, c, d)
      case _ => CreatedUnder(before, c, d)
  }

  lemma {:induction false} OriginsTell(commands: seq<Command>, c: Bytes, d: Bytes)
    ensures d in OriginsOf(Run(commands).origins, c) <==> CreatedUnder(commands, c, d)
  {
    if commands != [] {
      var before, last := commands[..|commands| - 1], commands[|commands| - 1];
      OriginsTell(before, c, d);
      DirectoryTells(before);
      AlwaysLocated(before);
      hide WordUnder;
      if last.Create? || last.Delete? {
        assert DirectoryLookup(Run(before).accessible, last.path) == MappedTo(before, last.path);
      }
    }
  }

  lemma {:induction false} RunNoOrphans(commands: seq<Command>)
    ensures NoOrphans(Run(commands))
  {
    if commands != [] {
      RunNoOrphans(commands[..|commands| - 1]);
      StepNoOrphans(Run(commands[..|commands| - 1]), commands[|commands| - 1]);
    }
  }

  /** Over all runs, a path created under a directory and not removed since is mapped, and
      so is the directory: no DELETE takes the one without the other. */
  lemma NeverOrphaned(commands: seq<Command>, c: Bytes, d: Bytes)
    requires CreatedUnder(commands, c, d)
    ensures c in Run(commands).accessible && d in Run(commands).accessible && d + [47] <= c
  {
    OriginsTell(commands, c, d);
    RunNoOrphans(commands);
  }

  // ---------- ports ----------

  /** Entry 0 is the naming server's port; server i has entries 2i+1 and 2i+2. */
  ghost predicate PortsApart(s: System) {
    && |s.ports| == 2 * |s.servers| + 1
    && s.ports[0] == 8989
    && forall a, b :: 0 <= a < b < |s.ports| && (a + 1) / 2 != (b + 1) / 2 ==> s.ports[a] != s.ports[b]
  }

  /** Distinct servers, and the naming server, never share a port. */
  lemma {:induction false} PortsNeverShared(commands: seq<Command>)
    ensures PortsApart(Run(commands)) && 8989 in Run(commands).ports
  {
    if commands != [] {
      var s, c := Run(commands[..|commands| - 1]), commands[|commands| - 1];
      PortsNeverShared(commands[..|commands| - 1]);
      var t := Step(s, c);
      assert t.ports == s.ports || (c.Register? && t.ports == s.ports + [c.namingPort, c.clientPort]);
      if t.ports != s.ports {
        forall a, b | 0 <= a < b < |t.ports| && (a + 1) / 2 != (b + 1) / 2
          ensures t.ports[a] != t.ports[b]
        {
          if b >= |s.ports| {
            assert a < |s.ports|;
            assert s.ports[a] in s.ports;
          }
        }
      }
    }
  }
}
