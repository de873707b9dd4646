# PathSet: the path container of an onion-routing client

This project models the `PathSet` of the llarp router (`llarp/pathset.cpp`):
the keyed collection of onion-routing circuits ("paths") that one local
identity owns. Each path is filed under the key `(Upstream(), RXID())`. The
path set decides whether more paths should be built, expires dead paths in
one traversal, inserts, erases and looks up paths by key, counts paths in a
status, lists the introductions of the ready paths, picks a random ready
path, and publishes the service's introduction set through such a path under
a fresh transaction id.

Files:

- `paths.dfy` (module `PathTypes`): the path datatype (upstream, rxid, txid,
  status, buildStarted, intro), its key, `IsReady`, and the DHT publish message.
- `path_table.dfy` (module `PathTable`): the table as a sequence of paths in
  iteration order with distinct keys, its map view `Table`, and the pure
  functions the methods are specified by (`Find`, `Added`, `Removed`,
  `Filter`, `ReadyPaths`, `Intros`, `Pick`, `TickAll`), with lemmas that
  tie them to the map view (`Find`, `Added`, `Removed`, `Filter`, `TickAll`,
  `ReadyPaths`) or to the stored paths (`Intros`, `Pick`).
- `pathset.dfy` (module `PathSets`): the class `PathSet` with the fields
  `paths`, `numPaths` (`m_NumPaths`) and `currentPublishTX`
  (`m_CurrentPublishTX`). Its invariant `Valid()` is key uniqueness; every
  method that changes the table keeps it, so no sequence of insertions,
  removals, ticks and expiries can store two paths under one key. A client
  method, `DuplicateKeyScenario`, shows from the contracts alone that a second
  insertion under a taken key leaves the first path reachable.

Modelling choices:

- The container is a sequence whose order is the iteration order; the map
  `Table(paths)` is what the container stands for. Queries that scan the
  container (`GetCurrentIntroductions`, `PickRandomEstablishedPath`) are stated
  in sequence order, lookups and membership in terms of the map.
- `Path::IsReady()` is taken to be `status == Established`; its definition is
  not part of this model.
- `Path::Expired(now)` and `Path::Tick(now, router)` are defined elsewhere in
  the router; they are caller-supplied functions here (`expired`, `tick`). A
  ticked path keeps its upstream and rxid, the identity it is filed under.
- `rand()` is replaced by caller-supplied natural numbers: one for the index
  of the picked path, one for the transaction id. `Path::SendRoutingMessage` is
  a caller-supplied function `send` from the chosen path and the message to a
  boolean.
- Time is a caller-supplied number of milliseconds.

Two behaviours of the code that a reader might not expect:

- `AddPath` uses a non-overwriting insertion: when the key is already present
  the stored path is kept and the table does not change. No duplicate-key
  error is reported, because the code reports none.
- `ShouldPublishDescriptors` returns true whatever the transaction state,
  as the code does; no rate limit or in-flight guard is modelled.

## Model

| member | source | states |
|---|---|---|
| PathSets.PathSet.constructor | llarp/pathset.cpp:10-12 | a new set is empty, keeps the given target size, and has no publish transaction |
| PathSets.PathSet.ShouldBuildMore | llarp/pathset.cpp:14-18 | true exactly when the container holds fewer keys than the target size; reads only |
| PathSets.PathSet.Tick | llarp/pathset.cpp:20-30 | every established path receives its per-tick maintenance, every other path is unchanged, the key set and key uniqueness are kept |
| PathTable.TickAllKeys | llarp/pathset.cpp:20-30 | ticking keeps every key in place, so the keys stay distinct and the table's key set is unchanged |
| PathSets.PathSet.ExpirePaths | llarp/pathset.cpp:32-46 | the traversal leaves exactly the unexpired paths, in their order: no stored path is expired, every unexpired path is still stored, nothing is added, and keys stay unique |
| PathTable.EraseStep | llarp/pathset.cpp:36-45 | erasing the current entry when it is expired, or stepping past it when not, keeps the visited part filtered and the unvisited part untouched |
| PathTable.ExpiryOutcome | llarp/pathset.cpp:32-46 | in the keyed view, after expiry no path is expired, each unexpired path is under its old key unchanged, no key is new, and keys stay distinct |
| PathTable.FilterMembers | llarp/pathset.cpp:35-45 | erasing entries during a traversal keeps exactly the entries that pass the test and never grows the table |
| PathTable.FilterDistinct | llarp/pathset.cpp:35-45 | erasing entries cannot create two entries with one key |
| PathTable.FilterTable | llarp/pathset.cpp:35-45 | the map view after erasure holds exactly the keys whose path passes the test, each mapped to its old path |
| PathSets.PathSet.NumInStatus | llarp/pathset.cpp:48-60 | the count equals the number of keys whose path has the given status, hence at most the container size |
| PathTable.FilterCount | llarp/pathset.cpp:48-60 | the number of entries passing a test equals the number of map keys whose path passes it |
| PathTable.StatusCount | llarp/pathset.cpp:48-60 | the number of entries in a status equals the number of keys whose path is in it, and is at most the table size |
| PathSets.PathSet.AddPath | llarp/pathset.cpp:62-66 | the path's key is present afterwards; if it was already present the stored path and the whole table are unchanged, otherwise the path is filed under its key; keys stay unique |
| PathTable.AddedTable | llarp/pathset.cpp:62-66 | non-overwriting insertion keeps keys distinct and updates the map only when the key was absent |
| PathTable.AppendDistinct | llarp/pathset.cpp:65 | appending a path whose key is new keeps keys distinct |
| PathTable.DuplicateAddKeepsFirst | llarp/pathset.cpp:62-81 | inserting a second path under a taken key keeps the first one, which lookup still returns |
| PathSets.PathSet.RemovePath | llarp/pathset.cpp:68-72 | exactly the path's key is erased, every other entry is untouched, and erasing an absent key changes nothing |
| PathTable.RemovedTable | llarp/pathset.cpp:68-72 | erasure by key yields the old map minus that key and keeps keys distinct |
| PathTable.RemovedAbsent | llarp/pathset.cpp:68-72 | erasing a key that is not present leaves the table as it is |
| PathSets.PathSet.GetByUpstream | llarp/pathset.cpp:74-81 | returns the path stored under (remote, rxid), and none when that key is absent |
| PathTable.Find | llarp/pathset.cpp:77-80 | a hit is a stored path with the requested key; a miss happens exactly when no stored path has that key |
| PathTable.FindInTable | llarp/pathset.cpp:74-81 | with distinct keys, lookup returns the map's entry for the key, and none when absent |
| PathTable.TableAt | llarp/pathset.cpp:65 | each stored path is the map's entry for its own key |
| PathTable.TableSize | llarp/pathset.cpp:17 | with distinct keys, the container's size equals the number of keys |
| PathTable.TableDomain | llarp/pathset.cpp:77-78 | a key is in the map exactly when some stored path is filed under it |
| PathSets.PathSet.GetCurrentIntroductions | llarp/pathset.cpp:91-107 | the list keeps its earlier contents as a prefix and gains the introductions of exactly the ready paths in table order; the result is true iff something was appended, iff some stored path is ready |
| PathTable.AppendIntroStep | llarp/pathset.cpp:99-103 | one step of the scan appends an entry's introduction to the list exactly when the entry is ready |
| PathTable.AppendIntrosOutcome | llarp/pathset.cpp:91-107 | appending the ready paths' introductions keeps the list as a prefix, and appends something exactly when some stored path is ready |
| PathTable.ReadyIntrosExact | llarp/pathset.cpp:99-103 | an introduction is appended exactly when it is the introduction of a stored, ready path |
| PathTable.Intros | llarp/pathset.cpp:101 | one introduction per path, at the same position |
| PathSets.PathSet.ShouldPublishDescriptors | llarp/pathset.cpp:109-114 | always true |
| PathSets.PathSet.PickRandomEstablishedPath | llarp/pathset.cpp:116-134 | none exactly when no stored path is ready; otherwise the ready path at index rnd modulo the number of ready paths, a stored and ready path |
| PathTable.ReadyPathsInTable | llarp/pathset.cpp:120-126 | with distinct keys, a path is among the ready paths exactly when it is the map's entry for its own key and is ready |
| PathTable.PickReady | llarp/pathset.cpp:127-133 | picking among the ready paths fails exactly when none is ready, and otherwise yields a stored, ready path |
| PathTable.EveryReadyPathPickable | llarp/pathset.cpp:127-130 | every stored, ready path is chosen by some random value |
| PathSets.PathSet.PublishIntroSet | llarp/pathset.cpp:136-151 | with no ready path it fails and leaves the transaction id and the table unchanged; otherwise it records the new transaction id and returns what sending the publish message (introduction set and that id) through the chosen ready path returned |

## Left out

- `HandlePathBuilt` (llarp/pathset.cpp:83-89): it reads the wall clock and logs the build latency; it changes no state, so it has no counterpart here.
- Heap ownership: `ExpirePaths` deletes the erased path; the model only removes it from the table.
- `Path::Expired`, `Path::Tick`, `Path::IsReady` and `Path::SendRoutingMessage` live in `llarp/path.cpp`, which is not part of this model; they are caller-supplied functions or, for `IsReady`, the assumption `status == Established`.
- The router argument of `Tick` and `PublishIntroSet` is the transport; it is folded into the caller-supplied `tick` and `send` functions.
- The wire format of the DHT message and the routing message: the model keeps only their content (introduction set and transaction id).
- `rand()`: replaced by caller-supplied values; the uniformity of the choice is a statistical property and is not stated (only that every ready path can be chosen).
- Integer widths: `size_t` counts, the `uint64_t` transaction id and `rand()`'s `int` result are unbounded naturals. Counts cannot reach their bound in practice; the random values can, see the next two lines.
- PathTable.EveryReadyPathPickable: `rand()` returns at most `RAND_MAX`, while `rnd` here is any natural. The statement that every ready path is chosen by some random value therefore holds for the code only while there are at most `RAND_MAX + 1` ready paths.
- PathSets.PathSet.PublishIntroSet: `txRand` stands for `rand()`, so in the code the recorded transaction id is at most `RAND_MAX`; the model accepts any natural.
- PathSets.PathSet.AddPath: a new entry is placed last in iteration order; the real position is decided by the container type declared in `llarp/pathset.hpp`, which is not part of this model, so the order stated by `GetCurrentIntroductions` and `PickRandomEstablishedPath` is the model's table order.
- The initial value of `m_CurrentPublishTX` is taken as 0 (none outstanding); its initialiser is in `llarp/pathset.hpp`, which is not part of this model.
- PathSets.PathSet.AddPath, PathSets.PathSet.GetByUpstream, PathSets.PathSet.PickRandomEstablishedPath: the code stores `Path*` pointers and returns them; the model stores path values, and a returned path is a copy. A status change that the path builder makes through the stored pointer (Building to Established, which `HandlePathBuilt` at llarp/pathset.cpp:83-89 is told about) is therefore not represented: in the model a stored path changes only through `Tick`, or by `RemovePath` followed by `AddPath`, which also moves it to the end of the order. The path builder lives outside `llarp/pathset.cpp` and is not part of this model.
- Concurrency: the path set is used from one logic thread; no locking is modelled.
