# A model of the network file system

This project models four parts of the network file system and proves properties of them.

1. **The hash map** (`hashmap/map.c`). Open addressing with linear probing, tombstones, a
   list of used buckets threaded through the bucket array, and a doubling resize that
   carries that list from the old array to the new one in place. `BucketTable.dfy` holds the
   invariants of one array, `Migration.dfy` those of the middle of a resize, `HashTable.dfy`
   the operations as methods over a real array. They are proved against
   `OrderedMap.dfy`: a finite map with an insertion order, whose whole runs are in turn proved
   equal to a per-key reading of the calls. `PathKeys.dfy` and `PathOperations.dfy` add the
   path encoding and the subtree removal that walks the list while it buries buckets of it.
2. **The LRU cache** (`LRU/lru.c`). `Lru.dfy` has the doubly linked list with its sentinels
   and the map of node pointers, on top of the hash map's own contract. `LruSpec.dfy` proves
   that a larger cache always includes a smaller one; `LruRecency.dfy` says which keys are
   cached, and where, by what was touched and when.
3. **The per-file semaphores** (`storageserverinit.c`). `Semaphores.dfy` is a step system over
   any number of reader and writer threads and any interleaving.
4. **The transfer and the directory.** `Transfer.dfy` and `StopAndWait.dfy` model the chunk, ACK
   and STOP exchange as packets, as the two loops, and as two processes on two channels.
   `FileDirectory.dfy` is the naming server's directory with the storage servers' indexes as
   one system; `Servers.dfy` has the two servers' state in real hash maps and proves that the
   commands across them take the steps of that system, whatever commands came before.

## Where the code and its documentation differ

The model follows the code in each case.

- The documentation says that a reader count keeps a file from being written while it is read.
  `write_to_file` opens the file with `"wb"`, which empties it, before it waits for the
  semaphore. Of free-running threads, one can come to empty a file that another is reading
  iff there is a reader and a writer among them (`TruncationExactly`). The accept loop joins
  each worker before it takes the next request, and with it that never happens
  (`SerialNeverTruncates`).
- The reader's entry test compares the incremented count with `> 0`, so every reader waits for
  the file semaphore with the lock in hand. Free-running threads can block the file for good
  iff two of them are readers (`WedgeExactly`); `CompletableExactly` says which states can
  still finish. The accept loop never gets there either (`SerialNeverWedges`), and serves every
  request (`SerialServesAll`).
- Files made by CREATE get a semaphore index but no `sem_init`. A READ or WRITE of a mapped
  path finds an index iff some command gave it one, and initialised semaphores iff that was
  the startup of its storage server (`IndexesTell`, `AccessExactly`). If it was a CREATE, every
  READ blocks for good in its first wait and every WRITE after it emptied the file
  (`RequestsEndExactly`).
- DELETE unmaps a subtree for every storage server, but only the one that was asked drops its
  indexes, so others can keep indexes that no client reaches (`DeleteLeavesIndex`).
  `BackExactly` says for every kind of command when none is left behind.
- A transferred file arrives intact only if it has no NUL byte and its last chunk does not read
  "stop" (`ArrivesExactly`); in the second case the sender still reports success (`Outcome`).
- A storage server sends all 15 accessible-path slots however many files were chosen. The
  directory agrees with the storage server iff each of them was indexed
  (`RegistrationAgreesExactly`); slot 0 is "/home/" when no file was chosen
  (`EmptyChoiceBreaksAgreement`).
- `remove_entry` compares what `sscanf` reads back from the key. A stored path is treated
  rightly by every removal iff it has no white space (`RemovalRightIffNoSpace`).

## Assumptions

- The hash is any function from byte strings to 32-bit values. Key buffers do not change
  while the map holds them. Machine integers do not overflow; the load test is written in
  integers, which is exact at the capacities an `int` can hold without rounding in `float`.
- Map values are of any type with two different constants, the value of a fresh bucket and
  the value of a tombstone (0 and 0xDEAD in the code).
- Paths and cache keys are not empty, because the code reads the character at length minus one.
- The cache has a capacity of at least 1 and starts on an empty, fresh map.
- Channels keep message boundaries and lose nothing. A `recv` after the peer has closed
  returns an empty packet.
- Commands that change the directory do not overlap. No stored path is blank; file names in
  a path list begin with a slash and created paths contain one.
- A semaphore in static storage that was never initialised has the value 0.
- `char` is signed in the printed character code; nothing but injectivity rests on it.
- The outcome of the forked shell command is a parameter (`ok`).

## Model

| member | source | states |
|---|---|---|
| `OrderedMap.RunTells` | hashmap/map.c:175-376 | After any sequence of set, get_set, set_free, get and remove calls the map holds exactly the keys the calls on each key leave present, once each, with the key buffer and the value those calls determine, ordered by the last call that took each from absent to present |
| `OrderedMap.RunIsPlain` | hashmap/map.c:175-376 | Seen as a plain finite map, any run of set, get_set, set_free, get and remove calls is the run of the plain map's update, update if absent, update, nothing and removal |
| `OrderedMap.LookupPut` | hashmap/map.c:220-240 | A set changes what is found under its own key and under no other |
| `OrderedMap.LookupReplace` | hashmap/map.c:268-298 | A set_free changes what is found under its own key and under no other |
| `OrderedMap.LookupDelete` | hashmap/map.c:314-329 | A removal changes what is found under its own key and under no other |
| `BucketTable.SomeEmpty` | hashmap/map.c:222-223 | A table listing fewer buckets than it has contains a bucket that was never used, so probing ends |
| `BucketTable.ProbeOn` | hashmap/map.c:189-216 | Passing a bucket that is neither fresh nor a match lengthens the cleared probe path by exactly one, modulo the capacity |
| `BucketTable.EmptyMeansAbsent` | hashmap/map.c:175-218 | A probe that reaches a fresh bucket without a match proves that no bucket holds the key and the map does not have it |
| `BucketTable.FillKeeps` | hashmap/map.c:227-239 | Filling the fresh bucket a probe ended at and linking it behind `last` keeps probe paths, key uniqueness, list coverage and links, and appends exactly one entry |
| `BucketTable.BuryKeeps` | hashmap/map.c:319-328 | A tombstone keeps every probe path and the list, takes out exactly its key's entry and touches no other bucket |
| `BucketTable.OverwriteKeeps` | hashmap/map.c:293-297 | Overwriting a live bucket keeps the table and replaces its entry in place |
| `Migration.Skip` | hashmap/map.c:116-123 | Passing over a tombstone in a resize keeps the half-migrated list and drops only the tombstone |
| `Migration.Carry` | hashmap/map.c:78-126 | Moving one live bucket keeps the new table's probe paths and uniqueness, and the list that runs through new buckets and then on through old ones |
| `Migration.Finish` | hashmap/map.c:112-129 | When the old list is used up the new table is consistent, has the old entries in the old order and no tombstone, and `last` is right |
| `HashTable.HashMap.constructor` | hashmap/map.c:46-69 | A new map is valid, empty and of capacity 20 |
| `HashTable.HashMap.FindEntry` | hashmap/map.c:175-218 | Terminates at the bucket of the key if it is present, else at the first never-used bucket of its probe path, never at a tombstone |
| `HashTable.HashMap.Get` | hashmap/map.c:300-309 | Finds a key iff the map has it, with its value; a miss yields the fresh value |
| `HashTable.HashMap.Remove` | hashmap/map.c:314-329 | Removes exactly the key from the map; the only bucket that changes becomes a tombstone that keeps its link |
| `HashTable.HashMap.RemoveFree` | hashmap/map.c:331-347 | As remove, and the callback gets the old entry iff there was one |
| `HashTable.HashMap.Size` | hashmap/map.c:350-358 | The number of live keys |
| `HashTable.HashMap.Iterate` | hashmap/map.c:360-376 | Calls back on every live entry once, in insertion order |
| `HashTable.HashMap.ResizeEntry` | hashmap/map.c:78-93 | Copies the bucket to the first free place on its probe path in the new array and nowhere else |
| `HashTable.HashMap.Resize` | hashmap/map.c:95-130 | Doubles the capacity, keeps every live entry and the order, drops exactly the tombstones, leaves counters and pointers right, and terminates even when all listed buckets are tombstones |
| `HashTable.HashMap.MakeRoom` | hashmap/map.c:222-223 | The load check makes room for one more bucket and is invisible in the map |
| `HashTable.HashMap.Set` | hashmap/map.c:220-240 | A new key goes to the end; a present one keeps its place and buffer and gets the value; counts a fresh insertion iff the key was absent |
| `HashTable.HashMap.GetSet` | hashmap/map.c:242-266 | Adds the key only if absent, and reports its value afterwards and whether it was present |
| `HashTable.HashMap.SetFree` | hashmap/map.c:268-298 | As set, but the map holds the new buffer afterwards; the callback gets the old entry iff there was one |
| `HashTable.HashMap.Perform` | hashmap/map.c:220-329 | Whatever run of calls came before, one more call of any kind leaves the table representing the run extended by it, and the plain map of its contents the plain run |
| `HashTable.HashMap.Bounds` | hashmap/map.c:95-130 | All resizes together visited exactly 3(capacity-20)/4 list nodes, at most twice the fresh insertions, and 3*capacity is at most 60 or 8 times the fresh insertions |
| `CStrings.DigitsExactly` | hashmap/map_operations.c:8 | The printed form of a number is its only text of bytes 48 to 57 without a leading zero |
| `CStrings.ScanIntExactly` | hashmap/map_operations.c:82 | `%d` reads white space (bytes 9 to 13 and 32), at most one sign, and all the digits there are |
| `CStrings.ScanWordExactly` | hashmap/map_operations.c:82 | `%s` stores the first longest run of bytes other than 9 to 13 and 32 |
| `PathKeys.KeysExactly` | hashmap/map_operations.c:4-13 | The buffers of the path map and of the cache's map, and the part of the first that is compared, byte for byte |
| `PathKeys.PathIdInjective` | hashmap/map_operations.c:4-13 | Two paths have the same compared key iff they are equal, although its last byte is cut off |
| `PathKeys.LruKeyInjective` | LRU/lru.c:4-35 | The same for the cache's keys |
| `PathKeys.ScanKeyReadsPath` | hashmap/map_operations.c:77-83 | Scanning a stored buffer yields the first word of its path |
| `PathKeys.ScanRoundTrip` | hashmap/map_operations.c:77-83 | Scanning a stored buffer yields its path iff the path has no white space |
| `PathKeys.UnderExactly` | hashmap/map_operations.c:84-88 | The comparison accepts exactly the path itself and what begins with it and byte 47 |
| `PathKeys.RemovalExactly` | hashmap/map_operations.c:77-90 | A removal takes a stored path iff its first word is the given path or begins with it and byte 47 |
| `PathKeys.RemovalRightIffNoSpace` | hashmap/map_operations.c:84-88 | For a stored path, every removal takes it exactly when it is the given path or begins with it and byte 47, iff it has no byte 9 to 13 or 32 |
| `PathKeys.ScannedIsWordUnder` | hashmap/map_operations.c:77-90 | The comparison of the scanned buffer holds iff the first word of the stored path is the given path or starts with it and a slash |
| `PathKeys.WordUnderInherited` | hashmap/map_operations.c:84-88 | A removal that takes a path takes everything that starts with it and a slash, white space or not |
| `PathOperations.DirectoryIsLookup` | hashmap/map_operations.c:16-31 | Looking up a path's compared key is looking up the path in a plain map |
| `PathOperations.SetValue` | hashmap/map_operations.c:4-13 | Acts as update on the plain map and on the ordered list of bindings |
| `PathOperations.GetValue` | hashmap/map_operations.c:16-31 | The plain map's value, or -1 |
| `PathOperations.RemoveEntryCallback` | hashmap/map_operations.c:77-90 | Turns the bucket being visited into a tombstone iff its scanned path is the given one or below it, and changes no other bucket |
| `PathOperations.KeptBindings` | hashmap/map_operations.c:77-90 | The scanned test keeps exactly the bindings whose first word is outside the given path's subtree, in order |
| `PathOperations.OutsideIsTree` | hashmap/map_operations.c:77-90 | Among paths without white space those are exactly the bindings outside the subtree |
| `PathOperations.RemoveEntry` | hashmap/map_operations.c:92-102 | Removes exactly what the scanner places in the subtree; where no path has white space a path stays bound iff it is neither the given one nor begins with it and byte 47; the other bindings keep their order, although the walk stands on the buckets it buries |
| `LruSpec.RunBounded` | LRU/lru.c:76-121 | Every run keeps keys distinct and at most `capacity` of them |
| `LruSpec.Inclusion` | LRU/lru.c:76-121 | On the same calls the smaller cache's items are a subsequence of the larger's with equal values, and the two differ only if the smaller is full |
| `LruSpec.HitsGrow` | LRU/lru.c:76-92 | A hit at the smaller capacity is a hit at the larger with the same answer |
| `LruRecency.KeysAreRecent` | LRU/lru.c:76-121 | The cached keys are the `capacity` most recently touched distinct keys, in that order |
| `LruRecency.ExactRecency` | LRU/lru.c:76-121 | A touched key is cached iff fewer than `capacity` distinct other keys were touched since, and that number is its position |
| `LruRecency.UntouchedAbsent` | LRU/lru.c:76-121 | A key never touched is not cached |
| `LruRecency.ValuesAreLatest` | LRU/lru.c:94-121 | Every cached value is the latest put to its key |
| `LruRecency.HitAnswers` | LRU/lru.c:76-92 | What is found under a key, from the calls alone |
| `LruRecency.FoundIsRecalled` | LRU/lru.c:76-121 | What is found under any key is the latest put to it if it is among the `capacity` most recently touched keys, else nothing |
| `Lru.IndexedAdd` | LRU/lru.c:117-120 | Adding a new node keeps map and list keys equal |
| `Lru.IndexedRemove` | LRU/lru.c:99-111 | Removing a listed node's key keeps map and list keys equal |
| `Lru.SetValueLr` | LRU/lru.c:4-10 | Sets the formatted key in the map |
| `Lru.GetValueLr` | LRU/lru.c:13-28 | The node under the formatted key, or null |
| `Lru.RemoveEntryLr` | LRU/lru.c:30-35 | Removes the formatted key |
| `Lru.AddNode` | LRU/lru.c:57-64 | Links a node behind the head; neighbours still point at each other and no node occurs twice |
| `Lru.DeleteNode` | LRU/lru.c:66-73 | Unlinks a node; its neighbours point at each other |
| `Lru.LRU.constructor` | LRU/lru.c:38-55 | The empty cache between its sentinels |
| `Lru.LRU.EvictLast` | LRU/lru.c:106-111 | Takes exactly the least recent item out of list, map and size |
| `Lru.GetExactly` | LRU/lru.c:76-92 | A hit at any place answers that item's value and moves it to the front of the others in their order; a miss answers -1 and changes nothing |
| `Lru.PutExactly` | LRU/lru.c:95-121 | A put comes first and takes out the old item of its key, or else the last one iff the cache is full |
| `Lru.LRU.GetLru` | LRU/lru.c:76-92 | The linked list and the map do just that; list, map, sizes and the whole history stay in agreement, and the listed nodes are the ones listed before |
| `Lru.LRU.PutLru` | LRU/lru.c:95-121 | The linked list and the map do just that, the agreement is kept, and every listed node is one listed before or new |
| `Lru.LRU.Perform` | LRU/lru.c:76-121 | Whatever calls came before, a get answers the latest put to its key if that is among the `capacity` most recently touched ones, and -1 if not |
| `Lru.LRU.RunAll` | LRU/lru.c:76-121 | Any run of gets and puts on one cache, after any earlier run: each get answers the latest put if its key is among the most recently touched ones then, else -1, and the cache stands for the whole run |
| `Lru.LRU.WholeRun` | LRU/lru.c:76-121 | In every reachable state the keys are the most recent ones, the values the latest, the three sizes equal, and the map's total resize cost and capacity are bounded by the number of puts and hits |
| `Semaphores.StepInv` | storageserverinit.c:40-211 | Every atomic step keeps value plus holders of both semaphores and the exact reader count |
| `Semaphores.Safety` | storageserverinit.c:40-211 | In every interleaving of any number of threads no two are ever between acquiring and releasing the file semaphore, value plus holders is 1, and the count is at most 2 |
| `Semaphores.DecrementReachesZero` | storageserverinit.c:99-105 | The decrement always brings the count to 0 |
| `Semaphores.WedgedForever` | storageserverinit.c:40-46 | Once the count is 2, nobody enters or leaves the critical section or finishes in any continuation |
| `Semaphores.Progress` | storageserverinit.c:40-211 | Short of 2, some thread can move unless all are done |
| `Semaphores.StuckExactly` | storageserverinit.c:40-211 | Exactly which states have no move at all |
| `Semaphores.CompletableExactly` | storageserverinit.c:40-211 | Some continuation finishes every thread iff no reader is between the lock and the file semaphore while another is reading |
| `Semaphores.SerialNeverWedges` | storageserverinit.c:730-836 | Under the accept loop the count stays below 2 and the worker whose turn it is can always move |
| `Semaphores.RunsEnd` | storageserverinit.c:40-211 | Every run of the threads is bounded by the steps they have left |
| `Semaphores.SerialServesAll` | storageserverinit.c:730-836 | Under the accept loop every run is so bounded, and its worker in turn cannot move iff every request has been served |
| `Semaphores.WedgeExactly` | storageserverinit.c:40-46 | Some interleaving of the given threads blocks the file for good iff two of them are readers |
| `Semaphores.TruncationExactly` | storageserverinit.c:170-178 | Some interleaving brings a writer to its truncating open while a reader is in its critical section iff there are a reader and a writer |
| `Semaphores.SerialNeverTruncates` | storageserverinit.c:730-836 | Under the accept loop no thread is reading when it is a writer's turn to open the file |
| `Semaphores.EnterableExactly` | storageserverinit.c:40-46 | Some interleaving gets a reader into its critical section iff the semaphores start at 1 and there is a reader |
| `Semaphores.NeverInitialisedNeverEnters` | operations/create_file.c:85-86 | On semaphores of value 0 no thread gets past its first wait: a reader never moves, and a writer does no more than empty the file |
| `Transfer.CutExactly` | storageserverinit.c:205 | What is stored of a packet is its part before the first zero byte |
| `Transfer.IsStopExactly` | storageserverinit.c:199-202 | A packet reads like STOP iff it is these four letters in either case, and then ends or has a zero byte |
| `Transfer.IsAckExactly` | storageserverinit.c:80-84 | A reply is an acknowledgement iff it is the three letters of ACK in either case, and then ends or has a zero byte |
| `Transfer.ChunksExactly` | storageserverinit.c:61-68 | There are as many chunks as the file has beginnings of 512 bytes, and the k-th is the file's part from 512k on |
| `Transfer.PaddedExactly` | storageserverinit.c:88-90 | STOP and ACK go out as 513 bytes, zeroed behind the word |
| `Transfer.StoredOfNulFree` | clientinit.c:125-153 | A file without NUL bytes arrives whole, or without its last four bytes if they are a last chunk reading "stop" |
| `Transfer.ArrivesExactly` | storageserverinit.c:179-210 | What is stored equals the file iff it has no zero byte and its length is not 4 modulo 512 with the letters of "stop", in either case, at the end |
| `Transfer.SendFile` | storageserverinit.c:61-94 | Sends the chunks, then STOP, and succeeds iff there is a reply to each chunk and it is an acknowledgement; else has sent exactly the chunks up to the first whose reply is not, or is missing |
| `Transfer.ReceiveFile` | storageserverinit.c:179-210 | The receiving loop stores the NUL-cut packets before the first that reads like STOP, and acknowledges up to and including that one |
| `StopAndWait.Safety` | clientinit.c:192-224 | In every interleaving at most one packet is unacknowledged, what was received is a prefix of what was sent, and what was stored is that prefix's contents |
| `StopAndWait.RunsEnd` | clientinit.c:192-224 | No run is longer than five steps a packet |
| `StopAndWait.Outcome` | storageserverinit.c:179-210 | When neither side can move the receiver has finished with everything before the first STOP-like packet, and the sender reports success iff no chunk before its last one reads like STOP |
| `StopAndWait.DeliversExactly` | storageserverinit.c:61-94 | Every complete run delivers the file intact iff it has no NUL byte and no "stop" as its last chunk, and then the sender succeeds |
| `FileDirectory.ChildExactly` | namingserver.c:362 | CREATE makes the given path, byte 47, and the name |
| `FileDirectory.StartupExactly` | storageserverinit.c:893-905 | The k-th chosen file has index k unless it is chosen again |
| `FileDirectory.CreateExactly` | namingserver.c:341-367 | A CREATE of a mapped path whose shell command succeeds maps the new path to the parent's server and gives it that server's next index; any other changes nothing |
| `FileDirectory.TakenExactly` | hashmap/map_operations.c:77-90 | A DELETE takes a path iff its first run of other than white space is the given path or begins with it and byte 47 |
| `FileDirectory.DeleteExactly` | namingserver.c:369-377 | A DELETE of a mapped path whose shell command succeeds unmaps exactly those paths and drops their indexes at the server asked; any other changes nothing |
| `FileDirectory.RegisterExactly` | namingserver.c:830-881 | A registration with a port in use changes nothing; any other maps exactly its slots to a new server that has indexed its files, and records both ports |
| `FileDirectory.IndexesNeverCollide` | storageserverinit.c:893-905 | Over all runs no two paths of one server share a semaphore index, and every index is below `associated_files` |
| `FileDirectory.IndexesTell` | storageserverinit.c:893-905 | After any run a path has an index at a server iff a command gave it one and no later one took it away, and its semaphores are initialised iff the giver was the server's startup |
| `FileDirectory.AccessExactly` | namingserver.c:436-468 | After any run a READ or WRITE is forwarded iff the commands map its path, finds an index iff they gave it one at that server, and initialised semaphores iff at startup |
| `FileDirectory.RequestsEndExactly` | storageserverinit.c:893-905 | After any run, with semaphores as startup or CREATE left them, some interleaving of the requests for an indexed path gets a READ in iff the index was given out at startup and there is a READ; on a CREATEd path none ever begins |
| `FileDirectory.AlwaysLocated` | namingserver.c:341-377 | After any run, whatever was registered, every mapped path is mapped to a server that exists |
| `FileDirectory.RegistrationAgreesExactly` | namingserver.c:864-873 | An accepted registration keeps directory and indexes in agreement iff every slot it sends was indexed |
| `FileDirectory.EmptyChoiceBreaksAgreement` | storageserverinit.c:858-905 | An accepted storage server that chose no file breaks the agreement with its fifteen slots, whatever is in the last fourteen |
| `FileDirectory.ForwardedAccessFindsIndex` | namingserver.c:436-468 | In every run whose accepted registrations sent only what they indexed, each path the naming server maps has an index at its storage server |
| `FileDirectory.BackExactly` | namingserver.c:341-377 | A command keeps every indexed path mapped to its server iff a registration sends all it indexed and nothing another server did, a CREATE does not make a path another server indexed, and a DELETE does not reach a path another server indexed |
| `FileDirectory.DeleteLeavesIndex` | namingserver.c:369-377 | A three-command run after which a storage server has an index for a path that is not mapped |
| `FileDirectory.NeverOrphaned` | namingserver.c:341-377 | Over all runs a path created under a directory and not removed since is mapped, and so is the directory |
| `FileDirectory.PortsNeverShared` | namingserver.c:830-881 | Over all runs no two registered servers, nor a server and the naming server on port 8989, share a port |
| `Servers.StorageServer.RegisterFiles` | storageserverinit.c:893-905 | The startup loop indexes exactly the chosen files, the k-th under k unless it is chosen again |
| `Servers.StorageServer.Create` | operations/create_file.c:80-93 | Adds the path, byte 47 and the name with the next index iff the shell command succeeded |
| `Servers.StorageServer.DeleteItem` | operations/delete.c:85-98 | Removes the subtree iff the shell command succeeded |
| `Servers.StorageServer.FindSemaphore` | storageserverinit.c:129-138 | The path's semaphore index, or -1 |
| `Servers.NamingServer.PortsAvailable` | namingserver.c:831-840 | True iff neither port is in use |
| `Servers.NamingServer.Register` | namingserver.c:830-881 | Refuses a used port and changes nothing; else maps every slot to the new server's number and records both ports |
| `Servers.Boot` | namingserver.c:713-739 | A naming server that has just started stands for the empty run of the system |
| `Servers.HandleRegister` | namingserver.c:820-881 | On the two servers' real maps, a registration takes the system's step |
| `Servers.HandleCreate` | namingserver.c:341-367 | In every state a run can reach, a CREATE takes the system's step on the real maps and is acknowledged iff the path was mapped and the command succeeded; then the path, byte 47 and the name is mapped to the parent's server and indexed there |
| `Servers.HandleDelete` | namingserver.c:369-377 | The same for DELETE; when acknowledged, the real maps of the naming server and of the server asked have exactly the paths they had that a removal does not take |
| `Servers.HandleAccess` | namingserver.c:436-468 | A READ or WRITE is forwarded iff its path is mapped, and then gets the index of that path at that server, or -1 if it has none, which agreement of directory and indexes excludes |
| `Servers.Perform` | namingserver.c:287-881 | Whatever run of commands came before, one more of any kind leaves the real maps standing for the run extended by it, and its answer, index and initialised semaphores are those the earlier commands determine |
| `Servers.ServeAll` | namingserver.c:287-468 | So does any run of CREATE, DELETE, READ and WRITE commands on the same maps, each answered by the commands before it |

## Left out

- PathOperations.RemoveEntry: requires that the scanner finds a word in every stored key, because for an all-blank path the source compares an uninitialised buffer.
- Transfer.ReceiveFile: requires that some incoming packet reads like STOP, because the source's loop does not end on a connection closed before that.
- Servers.NamingServer.Register: does not model an eleventh storage server, for which the source's arrays have no room, nor an empty slot, for which `set_value` reads the byte before the path.
- Servers.StorageServer.RegisterFiles: takes paths that are not blank, because removal by scanned key reads an uninitialised buffer for the others.
- Servers.StorageServer.Create: does not model a hundred-and-first index, for which the source's semaphore arrays have no room.
- HashTable.HashMap.Set: `int` and `size_t` overflow and the rounding of the load test in `float` are not modelled.
- Sockets, threads' creation, `fork`, `stat`, `tar`, printing and prompts.
- The bit mixing of `hash_data`: nothing rests on it but that it is a function.
- `hashmap_free`, leaks and failed allocations.
- `get_paths` and `add_paths_to_list`: the first has room for 15 results only, the second ignores its server parameter and shadows its index variable.
- COPY, SEND and RECEIVE: the receiving storage server never indexes the copied path, and the relay's unacknowledged chunks have no framing.
- The naming server's `put_LRU` calls at registration: they pass a stack buffer that the next registration reuses, while the model's keys do not change.
- Overlapping commands at the naming server: its map has no lock and is updated only after the storage server's reply.
- Partial and merged `recv` results, and connection failures.
- The path text limits, commands with too few arguments, and the choice between file and directory by a period in the name.
