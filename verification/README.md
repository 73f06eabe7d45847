# Ribosome, verified

A Dafny model of the algorithms and protocols at the heart of the LysineOS package tools: the vacuole
content-addressable store, the genome dependency graph, the incremental build executor, the lysin package
manager, and the text formats between them. `dafny verify dfyconfig.toml` checks all of it.

## What is modelled

**The vacuole.** `VacuoleProtocol` is the write protocol as a state machine over system calls. Many
processes hash, check, create, write, sync, verify and rename at once; processes crash, sources are edited
between the two passes of `put_file`, readers hold files open, a collector unlinks what it likes, and the power
fails. Names lead to inodes and inodes to bytes, as on a POSIX disk. `rename` may replace the target or report
that it exists. The results are integrity of every object in every state, whole objects for every reader, and
permanence of what was stored; `VacuolePuts` adds what every put of every run reports, that none gets stuck, and
that a put left to itself stores what it was given. `VacuoleStore` is the store as one process calls
it, on a disk that may hold anything, with the mark-and-sweep collector. `StoreRuns` shows that whole
operations refine a map of objects with a table of roots, and `StoreAnswers` when they succeed and what the
collector takes. `StoreStats` counts what is there. `StoreClients` is the fetching of sources and the caching of
packages, `FetchAnswers` what each source and the report come to.

**The genome.** `Digraph` says what walks, cycles and topological orders are. `Petgraph` holds the graph
algorithms that the source takes from a library, written out and proved. `DependencyGraph` is the class with
its build orders, cycle reports, removal sets and install plans, specified over package names.

**The build executor.** `BuildExecutor` is the phase loop with its markers. What a build does is a list of
events, a crash leaves a beginning of that list, and the results hold over all histories of such builds; each
build's events and answer are also given by the first phase that is due and does not succeed.

**Lysin.** `LocalDb` is the database with its file, `Lysin` the operations on a host. `LysinAnswers` says exactly
when each succeeds and what it answers otherwise. `LysinFiles` proves that the database determines the disk,
`LysinDepends` what is known about dependencies, `LysinUpdates` when repeated updates come to rest; `LysinPlans`
is what they share about single updates.

**Formats.** `Digest`, `Version`, `DependencySpec`, `ProtName`, `DependsText`, `JsonLines`, `RepositoryIndex` and
`RepositoryScan` are the texts that the parts exchange, with round trips, and the index that a repository is
scanned into. `RepositoryLookup` follows a package file from the scan to the package manager that looks it up.
`Text` has the string functions of Rust's library that they call.

Assumptions are parameters. SHA-256 is an arbitrary function; nothing is assumed about collisions but in
`LysinFiles`, where `IsTidy` says that package files with one hash unpack to the same files. The JSON codec is
an arbitrary pair of functions of which `IsCoded` asks that a record is printed on one line and read back.
Power loss keeps the bytes of synced files, may undo any rename or unlink, and puts nothing at an object path
that was not renamed to it (`PowerLossAllows`). Which characters are numeric is an arbitrary predicate. The
network is what each attempt comes to, which may differ each time a URL is asked, and a script is what running
it comes to.

## Where code and documentation part

The model follows the code.

- `add_entry` promises that the higher version wins. A lower one wins if it is not smaller as a string:
  `9.0.0` replaces `10.0.0` (`RepositoryScan.NineReplacesTen`; `RepositoryScan.EveryScanKeepsNewest` says exactly
  when that cannot happen).
- `install` promises the package and its dependencies. It goes one level deep, and a package that came in as a
  dependency is passed over (`LysinDepends.InstallIsComplete` says exactly when one level is enough,
  `LysinDepends.ChainIsBroken` is a case where it is not).
- `update` compares by number and falls back to strings. The mixture can go round in circles
  (`LysinUpdates.SettlesUnlessTwisted`, `LysinUpdates.NeverUpToDate`).
- `parse` promises 64 hex characters. It takes plus signs (`Digest.AcceptedTexts`), and panics on text that a
  byte offset cuts inside a character (`Digest.PanickingTexts`).
- Recipes may declare hashes in upper case. No download ever meets one (`StoreClients.DownloadableHashes`,
  `StoreClients.UpperCaseIsNeverMet`).
- A source is taken as cached by its file name alone (`StoreClients.CachedByNameOnly`,
  `StoreClients.SecondTarballIsFirst`).
- Every reference is said to protect its object. One whose name holds a slash does not
  (`StoreRuns.GcSparesRoots`, `StoreRuns.NestedRefDangles`).
- Loading an index skips malformed lines, but the warning about a long one panics if its 80th byte is inside a
  character (`RepositoryIndex.AccentAtEightyPanics`).
- `Version` is ordered without `rest` and compared for equality with it (`Version.BothWaysIsNotEqual`,
  `Version.DashedVersionsDiffer`).
- Install and remove read a dependency up to white space, the recipe parser up to an operator
  (`LysinDepends.FirstWordIsParsedName`, `LysinDepends.UnspacedDependency`).

## Model

| member | source | states |
|---|---|---|
| Digest.ParseDigest | ribosome/crates/ribosome-store/src/digest.rs:37-52 | the loop that fills the array comes to what parsing means, the invalid and the panicking cases included |
| Digest.ParseHex | ribosome/crates/ribosome-store/src/digest.rs:37-52 | parsing undoes printing, with the `sha256:` prefix and without it |
| Digest.AcceptedTexts | ribosome/crates/ribosome-store/src/digest.rs:37-52 | a text is accepted exactly if, after the optional prefix, it is 32 pairs of a hex digit with another one or a plus sign before it |
| Digest.AcceptedHex | ribosome/crates/ribosome-store/src/digest.rs:32-37 | an accepted text is the 64 hex digits asked for exactly if it holds no plus sign |
| Digest.PanickingTexts | ribosome/crates/ribosome-store/src/digest.rs:46-50 | parsing panics exactly if there are 64 bytes and the first pair that does not read is cut out of the middle of a character |
| Digest.AsciiNeverPanics | ribosome/crates/ribosome-store/src/digest.rs:46-50 | an ASCII text never makes parsing panic |
| Digest.CutLetterPanics | ribosome/crates/ribosome-store/src/digest.rs:46-50 | texts that do: an accented letter across the end of the first pair, before any 61 ASCII characters |
| Digest.ShardAndFileName | ribosome/crates/ribosome-store/src/digest.rs:71-86 | directory name and file name together spell the digest |
| Digest.HexInjective | ribosome/crates/ribosome-store/src/digest.rs:103-110 | two digests that print alike are one |
| Digest.ObjectPathInjective | ribosome/crates/ribosome-store/src/digest.rs:90-94 | two digests with one object path are one |
| Digest.CanonicalSpelling | ribosome/crates/ribosome-store/src/digest.rs:37-52 | of the 64-character texts that parse to a digest, exactly the lower-case one is the printed form |
| Digest.OtherSpellings | ribosome/crates/ribosome-store/src/digest.rs:47-50 | parsing is not injective: a leading `+` gives a second spelling |
| VacuoleProtocol.OnDiskInjective | ribosome/crates/ribosome-store/src/store.rs:284-285 | no temporary file has the name of an object, and each belongs to one digest and one process |
| VacuoleProtocol.StepKeeps | ribosome/crates/ribosome-store/src/store.rs:97-208 | every system call, crash, edit, unlink and power loss, in any order, keeps the invariant of disk, writers and readers |
| VacuoleProtocol.Integrity | ribosome/crates/ribosome-store/src/store.rs:97-208 | in every state of every run the file at each object path has the content its name is the hash of |
| VacuoleProtocol.ReadersSeeWholeObjects | ribosome/crates/ribosome-store/src/store.rs:215-231 | a reader holds a beginning of its object and, having all of it, bytes with the digest asked for, even if the object is unlinked or replaced meanwhile |
| VacuoleProtocol.StoredStays | ribosome/crates/ribosome-store/src/store.rs:97-208 | without collector and power loss, a digest once reported as stored is present in every later state |
| VacuolePuts.PutOutcome | ribosome/crates/ribosome-store/src/store.rs:97-208 | in every run: an I/O error is reported exactly by a put of which a system call has failed, a mismatch only if its file was edited after it began, and any other put reports the digest of what it was given |
| VacuolePuts.PutIsNeverStuck | ribosome/crates/ribosome-store/src/store.rs:124-208 | in every state of every run a put that has not returned can go on without a failure, except exactly one that is to rename a temporary file that is gone to an object that is not there |
| VacuolePuts.UndisturbedPut | ribosome/crates/ribosome-store/src/store.rs:97-119 | left to itself, and in whatever pieces it writes, the put of an absent object stores its bytes, reports their digest and touches no other name or file |
| VacuolePuts.UndisturbedPutFile | ribosome/crates/ribosome-store/src/store.rs:124-208 | in whatever chunks a file is hashed, read and written, and edited or not between the passes: it is stored and reported exactly if both passes have one digest, and otherwise the mismatch is reported and no name is left behind |
| VacuolePuts.PresentPut | ribosome/crates/ribosome-store/src/store.rs:100-103 | putting bytes that are there reports them and touches nothing |
| VacuolePuts.PresentPutFile | ribosome/crates/ribosome-store/src/store.rs:132-149 | nor does putting a file that is there, after its first pass |
| VacuolePuts.RenameRefused | ribosome/crates/ribosome-store/src/store.rs:191-204 | a put that loses the race for the rename reports its digest all the same, any other failed rename the error, and both take the temporary file away |
| VacuolePuts.UndisturbedRead | ribosome/crates/ribosome-store/src/store.rs:30-42 | whoever opens an object that is there and reads to the end has all of it, in whatever pieces |
| VacuoleStore.VacuoleStore.constructor | ribosome/crates/ribosome-store/src/store.rs:71-84 | a new store is empty |
| VacuoleStore.VacuoleStore.PutBytes | ribosome/crates/ribosome-store/src/store.rs:97-119 | result and whole new disk for a present object, a new one, and a directory in the way of the temporary file |
| VacuoleStore.VacuoleStore.WriteAtomic | ribosome/crates/ribosome-store/src/store.rs:284-311 | the object appears with its content, the temporary file goes, all else stays |
| VacuoleStore.VacuoleStore.PutFile | ribosome/crates/ribosome-store/src/store.rs:124-208 | result and whole new disk when the two passes read the same and when they do not |
| VacuoleStore.VacuoleStore.HashStream | ribosome/crates/ribosome-store/src/store.rs:132-144 | hashing buffer by buffer is hashing the whole file |
| VacuoleStore.VacuoleStore.CopyStream | ribosome/crates/ribosome-store/src/store.rs:161-179 | copying buffer by buffer leaves the whole file and its hash |
| VacuoleStore.PutFileUnedited | ribosome/crates/ribosome-store/src/store.rs:97-208 | on a file that nobody edits, putting the file is putting its content |
| VacuoleStore.VacuoleStore.AddRef | ribosome/crates/ribosome-store/src/refs.rs:20-29 | the reference reads as the digest afterwards, or nothing changes where a directory or another reference is in the way |
| VacuoleStore.VacuoleStore.ResolveRef | ribosome/crates/ribosome-store/src/refs.rs:32-41 | absent, unreadable, malformed and well-formed references, case by case |
| VacuoleStore.VacuoleStore.RemoveRef | ribosome/crates/ribosome-store/src/refs.rs:77-85 | the reference is gone and nothing else |
| VacuoleStore.RefDigestHex | ribosome/crates/ribosome-store/src/refs.rs:20-41 | a reference file written for a digest is read back as that digest |
| VacuoleStore.VacuoleStore.MarkNamespace | ribosome/crates/ribosome-store/src/gc.rs:145-162 | in any order of listing, the digests named right below one namespace are added to the marks |
| VacuoleStore.VacuoleStore.ReadRefFile | ribosome/crates/ribosome-store/src/gc.rs:150-160 | what a reference file names, or why it cannot be read |
| VacuoleStore.VacuoleStore.CollectReachable | ribosome/crates/ribosome-store/src/gc.rs:123-165 | marking succeeds exactly if every reference can be read, and finds exactly the digests they name |
| VacuoleStore.VacuoleStore.SweepEntry | ribosome/crates/ribosome-store/src/gc.rs:67-106 | one entry of a shard: kept, removed or fatal, counted once |
| VacuoleStore.VacuoleStore.ReadEntryName | ribosome/crates/ribosome-store/src/gc.rs:81-91 | which digest, if any, a directory and a file name spell together |
| VacuoleStore.VacuoleStore.SweepShard | ribosome/crates/ribosome-store/src/gc.rs:64-107 | one shard, in any order of listing; on failure only garbage is gone |
| VacuoleStore.VacuoleStore.Sweep | ribosome/crates/ribosome-store/src/gc.rs:42-119 | succeeds exactly if nothing resists, removes exactly the garbage, and reports the counts and sizes of it |
| VacuoleStore.VacuoleStore.Gc | ribosome/crates/ribosome-store/src/gc.rs:27-119 | exactly when a collection succeeds, what is left, what it reports, that it never removes anything but garbage, and nothing at all if a reference cannot be read |
| VacuoleStore.TotalSizeAdd | ribosome/crates/ribosome-store/src/gc.rs:93-106 | the bytes reclaimed do not depend on the order of removal |
| StoreRuns.ObjectKeyName | ribosome/crates/ribosome-store/src/gc.rs:58-91 | the collector takes an object's path for that object |
| StoreRuns.TmpKeyName | ribosome/crates/ribosome-store/src/gc.rs:72-79 | the collector takes every temporary file of a put for one |
| StoreRuns.ReportAddsUp | ribosome/crates/ribosome-store/src/gc.rs:42-119 | reachable and removed together are all the digest-named files there were |
| StoreRuns.ObjectAfterGc | ribosome/crates/ribosome-store/src/gc.rs:93-106 | an object is there after a collection exactly if it was there and is marked |
| StoreRuns.SurvivorsAreMarked | ribosome/crates/ribosome-store/src/gc.rs:67-106 | whatever a file is called, if it survives and spells a digest that digest is marked, and temporary files do not survive |
| StoreRuns.SecondGcRemovesNothing | ribosome/crates/ribosome-store/src/gc.rs:27-119 | a second collection succeeds, changes nothing and reports nothing removed |
| StoreRuns.GcSucceeds | ribosome/crates/ribosome-store/src/gc.rs:27-119 | on a store that only its own operations have touched, collection never fails |
| StoreRuns.Refines | ribosome/crates/ribosome-store/src/store.rs:97-208 | each operation does to the map of objects and the table of roots what its abstract counterpart says, or nothing if it fails |
| StoreRuns.RunRefines | ribosome/crates/ribosome-store/src/refs.rs:20-85 | throughout every run the disk refines the abstract store, collections succeed, and every object has its digest |
| StoreRuns.RunWellFormed | ribosome/crates/ribosome-store/src/store.rs:97-208 | every run keeps objects under their own names and references well-formed |
| StoreRuns.RunHasNoDangling | ribosome/crates/ribosome-store/src/gc.rs:27-165 | over every run that refers only to stored objects, one name below one namespace, no reference dangles |
| StoreRuns.GcSparesRoots | ribosome/crates/ribosome-store/src/gc.rs:123-165 | on the disk, collection leaves the object a reference names exactly if that reference, or another for the same digest, is right below a namespace |
| StoreRuns.NestedRefDangles | ribosome/crates/ribosome-store/src/refs.rs:135-137 | a run in which a name holding a slash makes a reference that dangles after a collection |
| StoreAnswers.PutsSucceed | ribosome/crates/ribosome-store/src/store.rs:97-208 | on a store that only its operations have touched, a put of bytes always stores them, and a put of a file fails exactly if the passes differ and the object is absent |
| StoreAnswers.RunSucceeds | ribosome/crates/ribosome-store/src/store.rs:97-208 | over every run that refers only to stored objects, one name below one namespace, no operation ever fails, but for the put of a file that changes and is not stored |
| StoreAnswers.MarksAnswer | ribosome/crates/ribosome-store/src/gc.rs:123-165 | malformed references name nothing and stop nothing: marking fails exactly at one that is no text or makes parsing panic, and finds exactly the digests that the others spell |
| StoreAnswers.SweepRemoves | ribosome/crates/ribosome-store/src/gc.rs:50-106 | exactly what goes: in two-digit directories, the files with `.tmp` in their names, and what else spells an unmarked digest; all other names and directories stay |
| StoreAnswers.SweepSucceeds | ribosome/crates/ribosome-store/src/gc.rs:58-102 | exactly when a sweep goes through, by the names it meets |
| StoreStats.WalkdirEntries | ribosome/crates/ribosome-store/src/store.rs:315-335 | the stack traversal finds every file of the tree exactly once |
| StoreStats.Stats | ribosome/crates/ribosome-store/src/store.rs:251-270 | number and total size of the files of the tree, as a recursion over the tree counts them |
| StoreClients.DownloadVerified | ribosome/crates/ribosome-core/src/source.rs:501-545 | whatever the network delivers, a download that succeeds has the declared hash |
| StoreClients.DownloadableHashes | ribosome/crates/ribosome-core/src/source.rs:407-420 | a declared hash can be met exactly if it is the printed digest of some bytes; one with upper-case digits never is |
| StoreClients.UpperCaseIsNeverMet | ribosome/crates/ribosome-core/src/source.rs:407-420 | no response is ever taken for a declared hash that begins with an upper-case digit |
| FetchAnswers.DownloadAnswers | ribosome/crates/ribosome-core/src/source.rs:402-464 | a download succeeds exactly with bytes of the declared hash that one of the first four attempts delivers, all before it having failed for the time being |
| StoreClients.DownloadAndVerify | ribosome/crates/ribosome-core/src/source.rs:402-464 | the retry loop: only transient failures are retried, and only three times |
| StoreClients.CandidateUrls | ribosome/crates/ribosome-core/src/source.rs:142-150 | a replacement for each mirror that fits, in order, then the URL itself |
| FetchAnswers.CandidatesAnswer | ribosome/crates/ribosome-core/src/source.rs:142-150 | for each mirror whose prefix fits, in order, the URL with that prefix replaced, and last the URL itself; nothing else |
| StoreClients.TryUrls | ribosome/crates/ribosome-core/src/source.rs:155-191 | the first candidate that delivers what was declared |
| FetchAnswers.FirstDownloadAnswers | ribosome/crates/ribosome-core/src/source.rs:155-191 | the result is what the first candidate that delivers delivers, all before it having come to nothing; there is none exactly if no candidate delivers, the URL itself included |
| StoreClients.StoreAndRefer | ribosome/crates/ribosome-core/src/source.rs:163-168 | put bytes, then refer, with the errors of both |
| StoreClients.StoreInCas | ribosome/crates/ribosome-core/src/executor.rs:270-306 | put the package file, then refer, with the errors of both, that of a file edited in between included |
| StoreClients.CacheKeeps | ribosome/crates/ribosome-core/src/source.rs:163-168 | storing and referring leave all other objects and references in place, and the new reference names the bytes stored |
| StoreClients.CacheFileKeeps | ribosome/crates/ribosome-core/src/executor.rs:279-298 | caching a package file leaves all other objects and references in place, and its reference names an object with the hash first found; a mismatch leaves no reference |
| StoreClients.FetchSource | ribosome/crates/ribosome-core/src/source.rs:102-205 | one source: cached, skipped, fetched, failed or aborted, and the disk in each case |
| FetchAnswers.FetchAnswersOne | ribosome/crates/ribosome-core/src/source.rs:102-203 | on any store: a taken name is cached, a free one skipped without a hash, failed exactly if no candidate delivers, and else put as the first one delivers it; a malformed reference leaves its name free |
| FetchAnswers.FetchSucceeds | ribosome/crates/ribosome-core/src/source.rs:102-203 | on a store in order no source is aborted: which of cached, skipped, failed and fetched it is, and that its reference then names the bytes delivered |
| FetchAnswers.CacheFileSucceeds | ribosome/crates/ribosome-core/src/executor.rs:279-298 | on such a store caching a package fails exactly if its file changes in between and is not stored |
| StoreClients.FetchSourcesWithProgress | ribosome/crates/ribosome-core/src/source.rs:86-208 | the loop over the sources does to store and report what the sources do one after the other |
| StoreClients.FetchSourcesKeep | ribosome/crates/ribosome-core/src/source.rs:155-180 | a fetch keeps all objects and references, and each reference it adds names an object with a hash that a source declares |
| StoreClients.ReportCountsSources | ribosome/crates/ribosome-core/src/source.rs:91-204 | the report accounts for every source once and lists as many errors as failures |
| FetchAnswers.ReportAnswers | ribosome/crates/ribosome-core/src/source.rs:91-206 | each counter is the number of sources with that outcome, the errors are the URLs of the failed ones in order, and the first that is aborted ends the fetch with its error |
| FetchAnswers.FetchReports | ribosome/crates/ribosome-core/src/source.rs:86-207 | on a store in order a fetch always ends with a report |
| StoreClients.CachedByNameOnly | ribosome/crates/ribosome-core/src/source.rs:105-117 | a source reported as cached or fetched is the declared one exactly if its name was free or taken by that very digest |
| StoreClients.SecondTarballIsFirst | ribosome/crates/ribosome-core/src/source.rs:105-117 | two recipes naming different tarballs alike: the second is reported as cached and its reference is the first one's |
| Petgraph.VisitNeighbors | ribosome/crates/ribosome-deps/src/graph.rs:166-172 | one step of a breadth-first search: what is seen is reachable, only queued nodes lead out of it, and the search comes closer to its end |
| Petgraph.SearchEnds | ribosome/crates/ribosome-deps/src/graph.rs:159-172 | with an empty queue the nodes seen are exactly those reachable |
| Petgraph.HasPathConnecting | ribosome/crates/ribosome-deps/src/graph.rs:115-120 | whether there is a walk, cycles or not |
| Petgraph.Toposort | ribosome/crates/ribosome-deps/src/graph.rs:91-92 | a topological order of all nodes, or a node on a cycle |
| Petgraph.SortedOrCyclic | ribosome/crates/ribosome-deps/src/graph.rs:91-92 | sorting succeeds exactly on the graphs without a cycle |
| Petgraph.IsCyclicDirected | ribosome/crates/ribosome-deps/src/graph.rs:106-108 | whether there is a cycle |
| DependencyGraph.DependencyGraph.constructor | ribosome/crates/ribosome-deps/src/graph.rs:23-28 | a new graph is empty |
| DependencyGraph.DependencyGraph.AddPackage | ribosome/crates/ribosome-deps/src/graph.rs:30-38 | a known name keeps its node, a new one gets the next; names and nodes stay one to one |
| DependencyGraph.DependencyGraph.AddDependency | ribosome/crates/ribosome-deps/src/graph.rs:40-47 | exactly that one dependency is added, unless it was there or would be a loop; the graph stays simple |
| DependencyGraph.DependencyGraph.AddEdge | ribosome/crates/ribosome-deps/src/graph.rs:43-45 | no parallel edges and no loops |
| DependencyGraph.EdgeIsDependency | ribosome/crates/ribosome-deps/src/graph.rs:40-47 | adding the edge changes the dependency relation between names by exactly that pair |
| DependencyGraph.DependencyGraph.Contains | ribosome/crates/ribosome-deps/src/graph.rs:288-290 | whether the name was added |
| DependencyGraph.DependencyGraph.TopologicalSort | ribosome/crates/ribosome-deps/src/graph.rs:90-104 | succeeds exactly if no package depends on itself; then all packages, once each, dependencies first; an error names a package on a cycle |
| DependencyGraph.DependencyGraph.HasCycle | ribosome/crates/ribosome-deps/src/graph.rs:106-108 | whether some package depends on itself |
| DependencyGraph.DependencyGraph.CyclePackages | ribosome/crates/ribosome-deps/src/graph.rs:110-126 | exactly the packages that depend on themselves, once each |
| DependencyGraph.DependencyGraph.BuildOrder | ribosome/crates/ribosome-deps/src/graph.rs:154-191 | succeeds exactly if the name is known and the graph has no cycle; then exactly what the name needs, once each, dependencies first and the name last |
| DependencyGraph.ReachableInOrder | ribosome/crates/ribosome-deps/src/graph.rs:174-190 | a topological order restricted to what is reachable is a build order |
| DependencyGraph.EndsWithStart | ribosome/crates/ribosome-deps/src/graph.rs:154-191 | the package asked for comes last |
| DependencyGraph.DependencyGraph.DirectDependencies | ribosome/crates/ribosome-deps/src/graph.rs:194-202 | exactly the dependencies listed, once each |
| DependencyGraph.DependencyGraph.ReverseDependencies | ribosome/crates/ribosome-deps/src/graph.rs:205-228 | exactly the other packages that depend on the name, even by way of others, once each |
| DependencyGraph.DependencyGraph.CollectNames | ribosome/crates/ribosome-deps/src/graph.rs:223-227 | the names of the nodes found without the start, in any order of the set |
| DependencyGraph.DependencyGraph.Removable | ribosome/crates/ribosome-deps/src/graph.rs:232-246 | the candidates nothing else installed depends on, in their order; removing them all leaves no installed dependent |
| DependencyGraph.UnblockedIsSafe | ribosome/crates/ribosome-deps/src/graph.rs:232-246 | the removable candidates can go all at once, in cyclic graphs too |
| DependencyGraph.UnblockedIsGreatest | ribosome/crates/ribosome-deps/src/graph.rs:232-246 | no safe choice among the candidates removes anything more |
| DependencyGraph.DependencyGraph.ResolveInstallOrder | ribosome/crates/ribosome-deps/src/graph.rs:252-285 | without a cycle everything the known names need, dependencies first, then the unknown names; with a cycle exactly the names asked for, once each |
| DependencyGraph.PlanIsOrder | ribosome/crates/ribosome-deps/src/graph.rs:252-285 | the known part followed by unknown names is still in dependency order |
| BuildExecutor.BuildDirectory.CleanMarkers | ribosome/crates/ribosome-core/src/context.rs:194-200 | which markers are left after a complete and after a partial removal |
| BuildExecutor.BuildDirectory.RunPhase | ribosome/crates/ribosome-core/src/executor.rs:130-159 | the events of one phase, and its marker exactly if it succeeded and could be marked |
| BuildExecutor.BuildDirectory.Build | ribosome/crates/ribosome-core/src/executor.rs:28-212 | result and events of a whole build, cleaning and the outcome of packing included |
| BuildExecutor.BuildDirectory.RunPhases | ribosome/crates/ribosome-core/src/executor.rs:104-160 | result and events of the phase loop, early returns included |
| BuildExecutor.ScriptedIsNotBlank | ribosome/crates/ribosome-core/src/executor.rs:105-111 | a script counts exactly if it has a character that is not white space |
| BuildExecutor.BuildAnswers | ribosome/crates/ribosome-core/src/executor.rs:28-212 | the answer by the first phase that is due and does not succeed: an error exactly if the build cannot start or that phase cannot be run to its end, a failed phase with exactly the scripted ones before it if its script fails, and success or failed packing exactly without such a phase |
| BuildExecutor.BuildDoes | ribosome/crates/ribosome-core/src/executor.rs:104-160 | besides cleaning, exactly the phases that are due are run, by rank, up to the first that does not succeed, each marked right after its success if that can be written |
| BuildExecutor.HistorySound | ribosome/crates/ribosome-core/src/executor.rs:104-160 | the invariant of every history of builds, cut off anywhere |
| BuildExecutor.NoScriptRunsEarly | ribosome/crates/ribosome-core/src/executor.rs:104-160 | whatever failed or crashed, no script ran before all earlier scripted phases had succeeded, and no marker lies |
| BuildExecutor.MarkersArePrefix | ribosome/crates/ribosome-core/src/context.rs:152-170 | with complete cleaning and marker writes that succeed, markers are always those of the first few scripted phases, crashes included |
| BuildExecutor.PhasesSucceedOnce | ribosome/crates/ribosome-core/src/executor.rs:33-160 | without faults and crashes a phase succeeds at most once between removals of the markers |
| BuildExecutor.CompleteIsIdle | ribosome/crates/ribosome-core/src/context.rs:174-191 | a build is complete exactly if a further one has nothing to run |
| BuildExecutor.ReportedPhases | ribosome/crates/ribosome-core/src/executor.rs:102-160 | a build that gets through reports every scripted phase in order, one that fails a proper beginning of them |
| BuildExecutor.SuccessCompletes | ribosome/crates/ribosome-core/src/executor.rs:104-212 | a build that gets through its phases leaves the build complete, and is a success exactly if it was packed |
| BuildExecutor.InterruptedCleaning | ribosome/crates/ribosome-core/src/executor.rs:33-38 | partial cleaning can leave markers that are no prefix |
| BuildExecutor.CrashRepeatsPhase | ribosome/crates/ribosome-core/src/executor.rs:152-155 | a crash between a success and its marker makes the phase succeed twice |
| Version.ParsePrinted | ribosome/crates/ribosome-parser/src/version.rs:46-77 | reading undoes printing for all numbers that fit 64 bits |
| Version.ParseJoined | ribosome/crates/ribosome-parser/src/version.rs:46-77 | how any text of components reads: the first three are numbers or there is an error, missing and empty ones are zero, and what follows the dash and further components are kept |
| Version.ParsedStart | ribosome/crates/ribosome-parser/src/version.rs:46-96 | what can be read as a version starts with no comparison character |
| Version.LessIsStrict | ribosome/crates/ribosome-parser/src/version.rs:19-26 | the order is strict and total up to `rest`, which only equality sees |
| Version.LessIsBefore | ribosome/crates/ribosome-parser/src/version.rs:19-26 | a version is smaller exactly if it is at the first of the three numbers in which they differ |
| Version.BothWaysIsNotEqual | ribosome/crates/ribosome-parser/src/version.rs:79-87 | `<=` with `>=` is `=` exactly if the two agree in `rest`; the strict constraints are the complements of the others |
| Version.DashedVersionsDiffer | ribosome/crates/ribosome-parser/src/version.rs:5-26 | `1-a` and `1-b` are each at least and at most the other, and not equal |
| DependencySpec.ValidNamesAreKebabCase | ribosome/crates/ribosome-parser/src/dependency.rs:55-82 | the hand-written check accepts exactly the language of the regular expression in validate.rs |
| DependencySpec.ParsedNameIsValid | ribosome/crates/ribosome-parser/src/dependency.rs:11-53 | every name that comes out is in that language |
| DependencySpec.SpecAnswers | ribosome/crates/ribosome-parser/src/dependency.rs:11-53 | what any text at all is read as: which operator counts, the four errors and when each is given, and what the constraint read asks of a version |
| DependencySpec.WrittenReadsBack | ribosome/crates/ribosome-parser/src/dependency.rs:11-53 | name, operator and version, with blanks or without, are read back exactly if the version text holds no operator that is looked for earlier |
| DependencySpec.BareNameReadsBack | ribosome/crates/ribosome-parser/src/dependency.rs:45-52 | a bare name is read as a dependency on any version |
| ProtName.FindLastSplit | ribosome/crates/ribosome-repository/src/repository.rs:319-327 | the last dash with a numeric character after it, or 0 |
| ProtName.ExtractName | ribosome/crates/ribosome-repository/src/repository.rs:317-334 | what stands before that dash |
| ProtName.ExtractVersion | ribosome/crates/ribosome-repository/src/repository.rs:337-353 | what stands after it |
| ProtName.ParseProtFilename | ribosome/crates/ribosome-repository/src/repository.rs:273-314 | the four parts, with the defaults of the short and unparseable cases |
| ProtName.ReadsBack | ribosome/crates/ribosome-package/src/packer.rs:63-66 | reading gives back the four parts that `pack` wrote exactly if the name is not empty, the architecture has no dash, and the version starts with its last numeric character after a dash |
| ProtName.OddStems | ribosome/crates/ribosome-repository/src/repository.rs:273-314 | what stems of no package are read as: one dash or none, and a release that is no number |
| ProtName.StemsAreDistinct | ribosome/crates/ribosome-package/src/packer.rs:63-66 | readable packages never share a file name |
| ProtName.PrintedVersionReadsBack | ribosome/crates/ribosome-repository/src/repository.rs:273-314 | versions printed from three numbers are always read back |
| ProtName.DashedVersionIsMisread | ribosome/crates/ribosome-repository/src/repository.rs:317-353 | `1.0-2` moves the boundary into the version |
| DependsText.AddMetaDepends | ribosome/crates/ribosome-package/src/packer.rs:247-257 | the two loops write the build lines, then the runtime lines |
| DependsText.ReadDepends | ribosome/crates/ribosome-package/src/packer.rs:340-356 | the loop adds what the lines add one after the other |
| DependsText.ReadsBack | ribosome/crates/ribosome-package/src/packer.rs:247-356 | both lists come back, in order, exactly if every entry is non-empty, trimmed and on one line |
| DependsText.ReadAreEntries | ribosome/crates/ribosome-package/src/packer.rs:340-356 | whatever the text, every entry read is non-empty, trimmed and on one line |
| JsonLines.LoadedSaved | ribosome/crates/ribosome-repository/src/index.rs:53-109 | loading what was saved gives back every record, in order |
| JsonLines.LineAdds | ribosome/crates/ribosome-repository/src/index.rs:53-73 | one line more, anywhere in a file: blank, comment and malformed lines change nothing, any other adds its record at its place |
| RepositoryIndex.RepositoryIndex.constructor | ribosome/crates/ribosome-repository/src/index.rs:42-49 | a new index is empty |
| RepositoryIndex.RepositoryIndex.AddEntry | ribosome/crates/ribosome-repository/src/index.rs:113-133 | the whole new index: a new name at the end, an entry replaced in place, or nothing |
| RepositoryIndex.ReplacesByText | ribosome/crates/ribosome-repository/src/index.rs:113-127 | where the numbers do not make the new entry newer, it replaces the old exactly if its version is no smaller as a string; equal versions go by release |
| RepositoryIndex.RepositoryIndex.RemoveEntry | ribosome/crates/ribosome-repository/src/index.rs:136-139 | the name is gone from entries and order; the entry removed is returned |
| RepositoryIndex.RemovedAt | ribosome/crates/ribosome-repository/src/index.rs:136-139 | the others stay as they are and in their order |
| RepositoryIndex.RemoveUndoesAdd | ribosome/crates/ribosome-repository/src/index.rs:113-139 | removing a package that was new when added gives back the index before |
| RepositoryIndex.RepositoryIndex.Save | ribosome/crates/ribosome-repository/src/index.rs:76-109 | whether it succeeds, and what is in `nucleus.db`, its temporary file and its hash file after success and after each failure |
| RepositoryIndex.RepositoryIndex.Content | ribosome/crates/ribosome-repository/src/index.rs:77-85 | the entries in order, one a line |
| RepositoryIndex.SaveIsAtomic | ribosome/crates/ribosome-repository/src/index.rs:87-105 | readers find the old index exactly if the new file was not written or renamed, and else all of the new one; exactly when the hash beside it still describes it |
| RepositoryIndex.RepositoryIndex.Load | ribosome/crates/ribosome-repository/src/index.rs:53-73 | blank, comment and malformed lines are passed over, the others added in turn; it fails exactly if the warning about a malformed line panics |
| RepositoryIndex.RunIsConsistent | ribosome/crates/ribosome-repository/src/index.rs:113-139 | after every run of additions and removals the order holds, once each, exactly the names added and not removed since |
| RepositoryIndex.LoadedSaved | ribosome/crates/ribosome-repository/src/index.rs:53-109 | loading a saved index restores its entries and their order |
| RepositoryIndex.SavedIsLoaded | ribosome/crates/ribosome-repository/src/index.rs:53-109 | what saving without a fault leaves in `nucleus.db` loads as the index saved |
| RepositoryIndex.SavedCanLoad | ribosome/crates/ribosome-repository/src/index.rs:53-109 | a saved index can always be loaded |
| RepositoryIndex.AccentAtEightyPanics | ribosome/crates/ribosome-repository/src/index.rs:66-68 | lines that make loading panic: 79 ASCII characters and an accented letter |
| RepositoryScan.ReplacesByNumber | ribosome/crates/ribosome-repository/src/index.rs:118-124 | among versions with equal `rest` the newer one wins, except that an older one wins that is not smaller as a string |
| RepositoryScan.IndexHoldsKept | ribosome/crates/ribosome-repository/src/repository.rs:187-257 | an index filled from a mixed stream holds for each name what is kept of its own entries |
| RepositoryScan.EveryScanKeepsNewest | ribosome/crates/ribosome-repository/src/index.rs:113-133 | every order of scanning keeps a newest entry exactly if every older version is smaller as a string |
| RepositoryScan.EveryScanKeepsSameKey | ribosome/crates/ribosome-repository/src/repository.rs:187-261 | the version and release kept are the same for every order of scanning under exactly the same condition |
| RepositoryScan.OrderMatters | ribosome/crates/ribosome-repository/src/index.rs:113-133 | where the strings disagree, two scans of the same files that keep different versions |
| RepositoryScan.NineReplacesTen | ribosome/crates/ribosome-repository/src/index.rs:118-123 | `9.0.0` drives out `10.0.0`, and the other way round |
| RepositoryScan.PackedIsIndexed | ribosome/crates/ribosome-repository/src/repository.rs:218-250 | a file written under a readable name is indexed under the name, version and release it was packed with |
| RepositoryScan.ScanCategory | ribosome/crates/ribosome-repository/src/repository.rs:192-256 | one directory, in any order of listing, each package file counted once; it fails exactly if the directory cannot be listed or a package file in it cannot be hashed |
| RepositoryScan.RebuildIndex | ribosome/crates/ribosome-repository/src/repository.rs:187-261 | fails exactly if something cannot be read or saving fails; else saves the index of the entries of exactly the package files, and returns their number |
| RepositoryScan.RebuildKeepsNewest | ribosome/crates/ribosome-repository/src/repository.rs:187-261 | however the directories list their files, the rebuilt index holds a newest package of every name whose older versions are smaller as strings |
| RepositoryLookup.EntryIsScanned | ribosome/crates/ribosome-repository/src/repository.rs:191-256 | every entry of a rebuilt index is what was read of a package file in a category directory: its path below the root, digest, both dependency lists, description, licence, size and category |
| RepositoryLookup.ScannedIsIndexed | ribosome/crates/ribosome-repository/src/repository.rs:191-256 | every package file with a readable name is in the rebuilt index under that name |
| RepositoryLookup.ScannedIsFound | ribosome/crates/ribosome-repository/src/repository.rs:234-252 | in a repository that serves what was scanned, the package file of every entry is found with the hash promised: installing or updating from it fails exactly at a bad member |
| RepositoryLookup.CachedUnderItsName | ribosome/crates/lysin/src/ops/install.rs:126-129 | the local store is asked for a scanned package under the name its file was packed with |
| LocalDb.LocalDb.Load | ribosome/crates/lysin/src/db.rs:37-67 | no file is an empty database; malformed lines are passed over |
| LocalDb.LocalDb.Save | ribosome/crates/lysin/src/db.rs:70-86 | what is saved is what the next load finds |
| LocalDb.LocalDb.Add | ribosome/crates/lysin/src/db.rs:89-93 | older records of the name go, the new one comes last |
| LocalDb.AddedAt | ribosome/crates/lysin/src/db.rs:89-93 | with distinct names, the record of the name leaves its place and the new one comes last, all others staying in order |
| LocalDb.LocalDb.Remove | ribosome/crates/lysin/src/db.rs:96-99 | the first record of the name goes and is returned |
| LocalDb.FindAdded | ribosome/crates/lysin/src/db.rs:89-104 | adding sets the record of its name and no other |
| LocalDb.FindRemoved | ribosome/crates/lysin/src/db.rs:96-104 | with distinct names, removing takes away the record of its name and no other |
| LocalDb.AddedIsDistinct | ribosome/crates/lysin/src/db.rs:89-93 | distinct names stay distinct |
| LocalDb.RemovedIsDistinct | ribosome/crates/lysin/src/db.rs:96-99 | distinct names stay distinct |
| LocalDb.RemovedAt | ribosome/crates/lysin/src/db.rs:96-99 | removal by position is removal by name |
| Lysin.FindPackageInRepos | ribosome/crates/lysin/src/ops/install.rs:94-111 | the first repository that has the name; missing ones are passed over, a broken one is an error |
| LysinAnswers.LookupAnswers | ribosome/crates/lysin/src/ops/install.rs:98-110 | the first repository that has the name or cannot be read decides; those that are missing or lack the name are passed over |
| Lysin.Host.constructor | ribosome/crates/lysin/src/db.rs:28-34 | a host starts with the given database file and files |
| Lysin.Host.UnpackProt | ribosome/crates/ribosome-package/src/packer.rs:155-196 | members in turn; a bad one stops, what was written before it stays |
| Lysin.Host.UnpackRecordSave | ribosome/crates/lysin/src/ops/install.rs:67-87 | files, record and database file after unpacking, or the files of a failed unpacking and the old records |
| Lysin.Host.InstallSingle | ribosome/crates/lysin/src/ops/install.rs:48-91 | outcome and world for every error and for success, with database file and memory in step |
| Lysin.Host.Install | ribosome/crates/lysin/src/ops/install.rs:11-44 | outcome and world on disk, when it stops half-way too |
| LysinAnswers.SingleAnswers | ribosome/crates/lysin/src/ops/install.rs:48-91 | the package file is the stored one, if there is one; each of missing, mismatched and damaged files has its error, there is no other, and the record is what the index says with the files of the package |
| LysinAnswers.InstallSucceeds | ribosome/crates/lysin/src/ops/install.rs:11-44 | an install succeeds exactly if the package is there, or it and each direct dependency not installed can be had |
| LysinAnswers.InstallAnswers | ribosome/crates/lysin/src/ops/install.rs:29-43 | one that fails gives the error of the first dependency that is neither installed nor to be had, or else of the package itself |
| Lysin.Host.RemoveFiles | ribosome/crates/lysin/src/ops/remove.rs:47-58 | exactly the listed files go |
| Lysin.Host.Remove | ribosome/crates/lysin/src/ops/remove.rs:8-69 | outcome and world on disk: not installed, guarded, forced |
| LysinAnswers.RemoveAnswers | ribosome/crates/lysin/src/ops/remove.rs:8-69 | a removal succeeds exactly if the package is recorded and, unless forced, no other recorded one depends on it; the error lists exactly those that do; a refusal changes nothing, and success takes the record and its files only |
| Lysin.Host.FindNewerVersion | ribosome/crates/lysin/src/ops/update.rs:94-130 | the first repository with something newer, or the error of a broken one before it |
| LysinAnswers.NewerAnswers | ribosome/crates/lysin/src/ops/update.rs:94-130 | the first repository that offers something newer or cannot be read decides; all others are passed over |
| Lysin.Host.CollectUpdates | ribosome/crates/lysin/src/ops/update.rs:26-48 | the packages with something newer, those whose check fails left out |
| Lysin.Host.UpdateSingle | ribosome/crates/lysin/src/ops/update.rs:133-195 | outcome and world for every error and for success |
| Lysin.Host.Update | ribosome/crates/lysin/src/ops/update.rs:11-86 | the two counts and the world on disk, failed packages included |
| LysinAnswers.UpdateAnswers | ribosome/crates/lysin/src/ops/update.rs:133-195 | a single update takes the package file from the repository only; each of missing, mismatched and damaged files has its error, and the record is what the index says |
| LysinAnswers.UpdateCounts | ribosome/crates/lysin/src/ops/update.rs:60-86 | the counts are those of the planned updates that can be applied and that cannot |
| LysinPlans.SucceedsIfApplicable | ribosome/crates/lysin/src/ops/update.rs:133-195 | an update succeeds exactly if the package file is there, has the hash promised and unpacks to its end |
| LysinPlans.UpdateSingleFinds | ribosome/crates/lysin/src/ops/update.rs:174-190 | a successful update records the new package and touches no other name |
| LysinPlans.PlanIsPlan | ribosome/crates/lysin/src/ops/update.rs:26-48 | the plan holds exactly what is newer for each record, and no name twice |
| LysinFiles.UnpackMerges | ribosome/crates/ribosome-package/src/packer.rs:155-196 | unpacking lays the archive's files over those there and lists exactly their paths |
| LysinFiles.InstallIsAccounted | ribosome/crates/lysin/src/ops/install.rs:11-91 | installing accounts for every file, whether it succeeds or stops half-way |
| LysinFiles.RemoveIsAccounted | ribosome/crates/lysin/src/ops/remove.rs:44-62 | so does removing |
| LysinFiles.UpdateIsAccounted | ribosome/crates/lysin/src/ops/update.rs:56-195 | so does updating, with some packages failing |
| LysinFiles.RunIsAccounted | ribosome/crates/lysin/src/ops/install.rs:48-91 | after every run of installs, removals and updates, against repositories that may change, the disk is exactly the unmanaged files and the recorded ones, contents included, and names are distinct |
| LysinFiles.RecordsDetermineFiles | ribosome/crates/lysin/src/db.rs:89-99 | equal records, in whatever order, mean equal files |
| LysinFiles.OwnFilesDecide | ribosome/crates/lysin/src/ops/update.rs:133-195 | with all other files accounted for, the disk is exactly if the package's own files are those recorded |
| LysinFiles.RunLeavesNoTrace | ribosome/crates/lysin/src/ops/remove.rs:44-62 | a run that comes back to the packages it started from leaves the disk as it was |
| LysinFiles.FailedUnpackLeaks | ribosome/crates/lysin/src/ops/install.rs:66-87 | after a failed unpacking of a package not yet installed, the disk is accounted for exactly if nothing was unpacked before the bad member |
| LysinFiles.FailedUpdateLeaks | ribosome/crates/lysin/src/ops/update.rs:158-170 | after a failed unpacking in an update, it is exactly if what was unpacked before the bad member is what was installed |
| LysinFiles.HalfPackageLeaks | ribosome/crates/ribosome-package/src/packer.rs:165-191 | a package file with one good file before a bad member leaves that file behind on an empty system |
| LysinFiles.BrokenUpdateLeaks | ribosome/crates/lysin/src/ops/update.rs:158-170 | a package file that is bad from the start takes the installed file away and leaves the record |
| LysinDepends.InstallRecords | ribosome/crates/lysin/src/ops/install.rs:28-43 | installing keeps every record, and a package that was not there has its direct dependencies afterwards |
| LysinDepends.InstallOutcome | ribosome/crates/lysin/src/ops/install.rs:17-43 | what is recorded after a successful install of a new package: what was, the package, and its direct dependencies, each with what its entry needs |
| LysinDepends.InstallIsComplete | ribosome/crates/lysin/src/ops/install.rs:10-44 | on a system where nothing is missing, a successful install leaves nothing missing exactly if the package was installed already or its uninstalled direct dependencies need only what is installed, the package, or one another |
| LysinDepends.AllMeansAll | ribosome/crates/lysin/src/ops/install.rs:28-40 | where every record has its direct dependencies, all is there that a record depends on by way of others |
| LysinDepends.InstallLeavesDependencies | ribosome/crates/lysin/src/ops/install.rs:17-21 | a successful install leaves the package's own direct dependencies installed exactly if the package was not installed before or had them already |
| LysinDepends.ChainIsBroken | ribosome/crates/lysin/src/ops/install.rs:17-43 | from a repository where `a` needs `b` and `b` needs `c`, installing `a` succeeds without `c`, and installing `b` then does too |
| LysinDepends.InstallIsOneLevelDeep | ribosome/crates/lysin/src/ops/install.rs:28-40 | a package that is new after an install is the one asked for or a direct dependency of it |
| LysinDepends.RemoveTakesDependencies | ribosome/crates/lysin/src/ops/remove.rs:19-62 | a removal, forced or not, takes a dependency away from a package exactly if its record names it |
| LysinDepends.RemoveKeepsDependencies | ribosome/crates/lysin/src/ops/remove.rs:19-42 | removal without force takes no dependency away from a package that stays |
| LysinDepends.UpdateDependencies | ribosome/crates/lysin/src/ops/update.rs:56-195 | a package that an update replaces has its dependencies exactly if those of the new entry were installed before; the others have theirs as before |
| LysinDepends.StepIsClosed | ribosome/crates/lysin/src/ops/update.rs:11-195 | an install, removal or update leaves every completed package with its direct dependencies exactly if it spares them, which can be seen beforehand |
| LysinDepends.RunIsClosed | ribosome/crates/lysin/src/ops/install.rs:17-43 | over every run of installs, failing half-way or not, removals and updates that spare them, each package whose own installation was completed and that was not removed since has its direct dependencies |
| LysinDepends.UnforcedSpares | ribosome/crates/lysin/src/ops/remove.rs:19-42 | installs and removals without force always spare them |
| LysinDepends.FirstWordIsParsedName | ribosome/crates/lysin/src/ops/install.rs:32-33 | the first word of a dependency is the name the recipe parser reads exactly if nothing, or white space, follows the name |
| LysinDepends.UnspacedDependency | ribosome/crates/lysin/src/ops/remove.rs:26-31 | `glibc>=2.39` is taken for a package of that name, and parsed as `glibc` |
| LysinUpdates.NewerIsStrict | ribosome/crates/lysin/src/ops/update.rs:109-126 | among versions that parse, newer is a strict order and raises (major, minor, patch, release) |
| LysinUpdates.CyclesAreTwists | ribosome/crates/lysin/src/ops/update.rs:109-126 | versions can be newer than one another in a circle exactly if an unparsed one lies, as a string, between two parsed ones in the wrong order |
| LysinUpdates.TenNineOneX | ribosome/crates/lysin/src/ops/update.rs:113-117 | such a circle: `10.0.0`, `1x` and `9.0.0` |
| LysinUpdates.NewerRaisesRank | ribosome/crates/lysin/src/ops/update.rs:109-126 | without such a twist every update raises one measure |
| LysinUpdates.SettlesUnlessTwisted | ribosome/crates/lysin/src/ops/update.rs:94-130 | as many rounds as there are repositories settle every package, whatever is offered, exactly if there is no twist; with one, some offers never settle |
| LysinUpdates.FindsFirstNewer | ribosome/crates/lysin/src/ops/update.rs:94-130 | without a broken repository the search finds the first newer offer |
| LysinUpdates.UpdateRecordsNext | ribosome/crates/lysin/src/ops/update.rs:11-86 | a round in which nothing fails takes the key of every package to its next one, independently of the others |
| LysinUpdates.RoundsRecordAfter | ribosome/crates/lysin/src/ops/update.rs:11-86 | so do any number of rounds |
| LysinUpdates.UpdatesSettle | ribosome/crates/lysin/src/ops/update.rs:32-130 | as many rounds of `update` as there are repositories, with every single update succeeding and no twist, bring every package up to date |
| LysinUpdates.NeverUpToDate | ribosome/crates/lysin/src/ops/update.rs:94-130 | three repositories offering `10.0.0`, `1x` and `9.0.0`: every update succeeds, and no number of rounds brings the system up to date |
| LysinUpdates.ParsedUpdatesSettle | ribosome/crates/lysin/src/ops/update.rs:32-130 | in particular when all versions parse |

## Left out

- Input and output errors other than the ones modelled: the protocol lets any call of a put fail; the sequential store has directories in the way and unreadable references; the package manager has missing and broken repositories, missing, mismatched and damaged package files. A database, or a file of the system, that cannot be written, read or deleted is not modelled.
- Collection while another process is between a put and its reference: the design does not promise retention then, and only integrity is claimed.
- Two threads of one process that put the same digest: they share a temporary name, which the design does not provide for.
- `list_refs`, `has_ref` and `size`: reading and sorting what the other operations already determine.
- References with absolute or `..` components, file names that are no Unicode, and plain files directly below `objects/` or `refs/`.
- 64-bit counters: counts and sizes are unbounded.
- Fsync of directories: power loss may undo any rename, so permanence is claimed without power loss only.
- The library's own graph algorithms: `Petgraph` has others with the same promises, so the order among independent packages may differ.
- Filling the graph from recipe files, DOT output, and the package count.
- Sandboxes, source extraction, transcripts, environment variables and times in the executor; of packing only whether it succeeds.
- HTTP, time-outs, progress bars, the reading of mirror files, and the file name cut out of a URL: `StoreClients` takes the outcome of each attempt, the mirrors and the name as given.
- Archive and compression formats: a package file is its hash and its members; directories and links among the members are not told apart from files.
- The installation date in the database and the build date in the index.
- Reading description and licence out of recipe text: `RepositoryScan` takes them as given.
- Publishing a package, searching, listing and printing.
- LysinFiles.RunIsAccounted: assumes that verified package files unpack to the end and hold only paths of their own package; `LysinFiles.FailedUnpackLeaks` and `LysinFiles.FailedUpdateLeaks` say when the disk is still accounted for if a file does not unpack.
- LysinDepends.RunIsClosed: says nothing about forced removals and updates that do not spare a completed package; `LysinDepends.StepIsClosed` says exactly which those are.
- Indexes whose loading panics: the package manager's repositories are missing, broken or opened.
- RepositoryScan.EveryScanKeepsNewest: covers versions of one name that parse with equal `rest`; for others the order of scanning is string order in part and no version order is there to compare with.
