# FileWatcherEx event pipeline, modelled in Dafny

FileWatcherEx wraps the .NET `FileSystemWatcher` and turns its noisy stream of
raw notifications into a small set of semantic events. This project models its
three core helpers and proves what they promise.

- **`EventNormalizer`** (`normalizer.dfy`, with the repository in
  `repository.dfy`) works in two phases:
  - it merges one batch of events, path by path and in arrival order, into a
    dictionary keyed by full path (`NormalizeDuplicates`);
  - it drops every deletion whose parent directory was also deleted in the
    batch (`FilterDeleted`).

  The merge `switch` is the function `SelectRule` (which case fires) plus
  `Apply` (what that case does). The method `EventNormalizer.MergeOne` runs
  the same cases as an `if` chain on the repository object and is proved to
  equal that function. `FilterDeleted` keeps the source's LINQ pipeline:
  number the events, stable-sort them by path length, walk them with the
  growing list of deleted paths, sort by number, drop the numbers. It is
  proved equal to an order-free reference definition, `WithoutNestedDeletes`.
- **`EventProcessor`** (`event_processor.dfy`) is the debouncer. Events are
  queued. A delay timer flushes the queue through a fresh normaliser once no
  event arrived while it ran, and re-arms itself otherwise. A spam warning is
  logged once per burst that lasts longer than a minute.
- **`SymlinkAwareFileWatcher`** (`symlink_watcher.dfy`) is the registry of
  native watchers. It holds one watcher for the watched root, plus one per
  symbolic-link directory found below it. Those are found at start-up by a
  recursive walk and at run time from Created events. Watchers are removed
  when their directory is deleted, and all are disposed at the end.

`NormalizerProperties` (`normalizer_properties.dfy`) holds the lemmas about
whole batches:
- the shape of the output;
- each merge rule;
- the suppression of nested deletions;
- the unit-test scenarios of `EventProcessorTest.cs`.

`FileEvents` (`file_events.dfy`) holds the event record shared by all
modules.

Two consequences of the code worth stating:
- The parent test uses the backslash only (`candidate + '\\'`). A deleted
  `/a` therefore never suppresses `/a/b`: only `\`-separated paths are
  nested.
- The debouncer is a `Task.Delay` continuation that re-arms itself, not a
  loop that blocks on a queue.

How the environment is represented:
- **Clock and timer.** The time (`DateTime.Now.Ticks`) is a parameter. The
  pending delay task is the tick at which it is due. Its continuation is the
  method `TimerFired`.
- **Handler and logger.** The event handler and the logger are the append-only
  traces `handled` and `log`.
- **File system.** `File.GetAttributes` is a map from path to attribute set; a
  path missing from the map is one whose lookup throws. `Directory.Exists`
  and the directory listing are a finite `DirectoryTree` snapshot.
- **Watcher factory.** It is the `Watcher` constructor.

## Model

Source paths are relative to the repository root.

| member | source | states |
|---|---|---|
| Repository.Lookup | Source/FileWatcherEx/Helpers/EventNormalizer.cs:158-162 | `TryGetValue`: the result is an entry stored under the path, and there is none exactly when no entry has that path |
| Repository.Upsert | Source/FileWatcherEx/Helpers/EventNormalizer.cs:138-151 | after `AddOrUpdate` the path maps to the new kind and old path, every other path maps as before, paths stay pairwise distinct, and no entry other than the new one appears |
| Repository.Without | Source/FileWatcherEx/Helpers/EventNormalizer.cs:153-156 | `Remove` leaves an order-preserving subsequence of the entries with no entry for the path |
| Repository.LookupWithout | Source/FileWatcherEx/Helpers/EventNormalizer.cs:153-156 | after `Remove` the removed path is not found and every other path is found as before |
| Repository.UniqueWithout | Source/FileWatcherEx/Helpers/EventNormalizer.cs:153-156 | `Remove` keeps at most one entry per path |
| Repository.UpsertExistingKeepsPosition | Source/FileWatcherEx/Helpers/EventNormalizer.cs:140-145 | updating a stored key rewrites that entry where it stands (the stored object is mutated, so its place among the dictionary values does not move) |
| Repository.UpsertNewAppends | Source/FileWatcherEx/Helpers/EventNormalizer.cs:146-150 | a new key is added after every stored entry |
| Repository.FileEventRepository.constructor | Source/FileWatcherEx/Helpers/EventNormalizer.cs:136 | the dictionary starts empty |
| Repository.FileEventRepository.AddOrUpdate | Source/FileWatcherEx/Helpers/EventNormalizer.cs:138-151 | the stored entries become `Upsert` of the old ones, paths still distinct |
| Repository.FileEventRepository.Remove | Source/FileWatcherEx/Helpers/EventNormalizer.cs:153-156 | the stored entries become `Without` of the old ones, paths still distinct |
| Repository.FileEventRepository.Find | Source/FileWatcherEx/Helpers/EventNormalizer.cs:158-162 | a null path is looked up as the empty string; the result is the entry stored under that path, or none exactly when no entry has it |
| Repository.FileEventRepository.Events | Source/FileWatcherEx/Helpers/EventNormalizer.cs:164-167 | the stored events, at most one per path |
| Normalizer.RenameSource | Source/FileWatcherEx/Helpers/EventNormalizer.cs:24-28 | only a RENAMED event looks up its old path (a null old path as the empty string); the result is the entry stored there, or none exactly when no entry has that path |
| Normalizer.Apply | Source/FileWatcherEx/Helpers/EventNormalizer.cs:32-87 | the body of each `case`: keep, remove the created entry, turn the deleted entry into CHANGED, store the rewritten rename and remove its source, ignore LOG, or upsert; the repository keeps one entry per path |
| Normalizer.SelectRule | Source/FileWatcherEx/Helpers/EventNormalizer.cs:30-88 | the first matching `case`: LOG is ignored exactly for LOG events, the three rename cases fire only for RENAMED events with a rename source, and the CREATED/DELETED cases only when an entry is stored under the path |
| Normalizer.Step | Source/FileWatcherEx/Helpers/EventNormalizer.cs:24-88 | one iteration of the merge loop keeps one entry per path |
| Normalizer.Merged | Source/FileWatcherEx/Helpers/EventNormalizer.cs:20-90 | merging a batch in order keeps one entry per path and never lets a LOG event in |
| Normalizer.StepKeepsNoLog | Source/FileWatcherEx/Helpers/EventNormalizer.cs:79-83 | no case of the switch stores a LOG event |
| Normalizer.IndexOf | Source/FileWatcherEx/Helpers/EventNormalizer.cs:130 | ordinal `IndexOf`: -1 or a position where the pattern occurs, and a non-zero result means the pattern is not a prefix |
| Normalizer.IsParent | Source/FileWatcherEx/Helpers/EventNormalizer.cs:128-131 | `IndexOf(candidate + '\\') == 0`: when it holds, the candidate followed by a backslash starts the path |
| Normalizer.IsParentIsPrefix | Source/FileWatcherEx/Helpers/EventNormalizer.cs:128-131 | `IsParent(p, c)` holds exactly when `c` followed by a backslash is a prefix of `p` |
| Normalizer.ParentIsShorter | Source/FileWatcherEx/Helpers/EventNormalizer.cs:128-131 | a parent path is strictly shorter, which is why the walk by length sees parents first |
| Normalizer.ParentTransitive | Source/FileWatcherEx/Helpers/EventNormalizer.cs:128-131 | a parent of a parent is a parent |
| Normalizer.NotOwnParent | Source/FileWatcherEx/Helpers/EventNormalizer.cs:128-131 | no path is its own parent |
| Normalizer.Survivors | Source/FileWatcherEx/Helpers/EventNormalizer.cs:92-109 | every event kept by the reference filter is an input event that no deleted parent suppresses |
| Normalizer.Enumerate | Source/FileWatcherEx/Helpers/EventNormalizer.cs:104 | `Select((e, n) => …)`: each event paired with its position in the input, one pair per event |
| Normalizer.Values | Source/FileWatcherEx/Helpers/EventNormalizer.cs:108 | `Select(e => e.Value)`: the events of the pairs, one per pair, in order |
| Normalizer.OrderBy | Source/FileWatcherEx/Helpers/EventNormalizer.cs:105-107 | `OrderBy` returns a permutation of its input, sorted by the key |
| Normalizer.InsertBySorted | Source/FileWatcherEx/Helpers/EventNormalizer.cs:105-107 | inserting into a sorted sequence keeps it sorted |
| Normalizer.KeepUnlessParentDeleted | Source/FileWatcherEx/Helpers/EventNormalizer.cs:111-125 | the `Where` predicate keeps an event unless it is a deletion with a recorded deleted parent; a kept deletion records its own path and nothing else changes the list |
| Normalizer.FilterDeleted | Source/FileWatcherEx/Helpers/EventNormalizer.cs:99-109 | the LINQ pipeline returns exactly the reference result: the input, in input order, minus every deletion that has a deleted parent in the input |
| Normalizer.WalkByLength | Source/FileWatcherEx/Helpers/EventNormalizer.cs:102-106 | walking the events shortest path first with the growing list of deleted paths keeps exactly the pairs the reference filter keeps |
| Normalizer.WalkStep | Source/FileWatcherEx/Helpers/EventNormalizer.cs:105-106 | at each step of that walk, the list of deleted paths seen so far has a parent of the event exactly when the whole batch does |
| Normalizer.CoveredAfterStep | Source/FileWatcherEx/Helpers/EventNormalizer.cs:113-122 | after each step, every visited deletion is covered by a recorded path, and every recorded path is a deletion of the batch |
| Normalizer.KeptPairsCount | Source/FileWatcherEx/Helpers/EventNormalizer.cs:106 | the `Where` keeps every copy of an unsuppressed pair and none of a suppressed one, whatever the order |
| Normalizer.KeptValues | Source/FileWatcherEx/Helpers/EventNormalizer.cs:104-108 | filtering the numbered events in original order yields the reference result |
| Normalizer.KeptInOriginalOrder | Source/FileWatcherEx/Helpers/EventNormalizer.cs:104-107 | those kept pairs have strictly increasing numbers |
| Normalizer.SortedByKeyUnique | Source/FileWatcherEx/Helpers/EventNormalizer.cs:107 | sorting by the distinct original numbers has only one possible outcome |
| Normalizer.RestoreOriginalOrder | Source/FileWatcherEx/Helpers/EventNormalizer.cs:107-108 | sorting the kept pairs by number and dropping the numbers gives the reference result, whatever order the walk visited them in |
| Normalizer.EventNormalizer.constructor | Source/FileWatcherEx/Helpers/EventNormalizer.cs:12 | a normaliser owns a new, empty repository |
| Normalizer.EventNormalizer.Normalize | Source/FileWatcherEx/Helpers/EventNormalizer.cs:14-18 | the repository holds the batch merged in order, and the result is its events without nested deletions |
| Normalizer.EventNormalizer.NormalizeDuplicates | Source/FileWatcherEx/Helpers/EventNormalizer.cs:20-90 | after the loop the repository holds the whole batch merged in order |
| Normalizer.EventNormalizer.MergeOne | Source/FileWatcherEx/Helpers/EventNormalizer.cs:24-88 | one pass of the loop body leaves the repository at `Step` of its previous contents |
| Normalizer.EventNormalizer.ReplaceRenamed | Source/FileWatcherEx/Helpers/EventNormalizer.cs:52-77 | a rename case stores the rewritten event and removes the entry it was renamed from |
| NormalizerProperties.SmallBatches | Source/FileWatcherExTests/EventProcessorTest.cs:9-24 | an empty batch gives nothing; a single event passes through unchanged, except a LOG event, which is dropped |
| NormalizerProperties.NormalizedShape | Source/FileWatcherEx/Helpers/EventNormalizer.cs:14-18 | the output holds at most one event per path and no LOG event |
| NormalizerProperties.SurvivorsKeepUnique | Source/FileWatcherEx/Helpers/EventNormalizer.cs:99-109 | filtering keeps paths distinct |
| NormalizerProperties.StepIsPathLocal | Source/FileWatcherEx/Helpers/EventNormalizer.cs:30-88 | an event changes only the entry of its own path and, for a rename, the entry of its old path |
| NormalizerProperties.CreatedThenChangedStaysCreated | Source/FileWatcherEx/Helpers/EventNormalizer.cs:32-35 | CREATED then CHANGED: the repository is left as it is |
| NormalizerProperties.CreatedThenDeletedCancels | Source/FileWatcherEx/Helpers/EventNormalizer.cs:37-40 | CREATED then DELETED: the path has no entry and exactly one entry is gone |
| NormalizerProperties.WithoutUniqueLength | Source/FileWatcherEx/Helpers/EventNormalizer.cs:153-156 | removing a stored key removes exactly one entry |
| NormalizerProperties.NotInWithout | Source/FileWatcherEx/Helpers/EventNormalizer.cs:153-156 | removing a key that is not stored changes nothing |
| NormalizerProperties.DeletedThenCreatedBecomesChanged | Source/FileWatcherEx/Helpers/EventNormalizer.cs:42-45 | DELETED then CREATED: the stored entry becomes CHANGED where it stands and keeps its old path |
| NormalizerProperties.RenameOfCreatedEntry | Source/FileWatcherEx/Helpers/EventNormalizer.cs:47-69 | renaming a created file: the new path holds a CREATED event without old path, or a CHANGED one if that path's entry was DELETED; the created entry is gone |
| NormalizerProperties.RenameChainCollapses | Source/FileWatcherEx/Helpers/EventNormalizer.cs:71-77 | A renamed to B, then B to C: C holds one rename from A, and B has no entry |
| NormalizerProperties.RenameOntoItselfDrops | Source/FileWatcherEx/Helpers/EventNormalizer.cs:61-77 | a rename whose old path is its own path, of a CREATED or RENAMED entry, upserts and then removes the same key: the path has no entry left and every other path is untouched |
| NormalizerProperties.RenameOntoItselfScenario | Source/FileWatcherEx/Helpers/EventNormalizer.cs:61-69 | CREATED p, then RENAMED from p to p, normalises to nothing |
| NormalizerProperties.LogIsIgnored | Source/FileWatcherEx/Helpers/EventNormalizer.cs:79-83 | a LOG event leaves the repository as it is |
| NormalizerProperties.DuplicateTakesNewestData | Source/FileWatcherEx/Helpers/EventNormalizer.cs:85-87 | when no special case applies, a stored entry takes the newest kind and old path, in place |
| NormalizerProperties.CreationAtNewPathAppends | Source/FileWatcherEx/Helpers/EventNormalizer.cs:85-87 | a creation at an unknown path is appended |
| NormalizerProperties.RenameCreatedOntoDeleted | Source/FileWatcherEx/Helpers/EventNormalizer.cs:47-59 | a created file renamed onto a just-deleted path leaves one CHANGED event at that path |
| NormalizerProperties.InSurvivors | Source/FileWatcherEx/Helpers/EventNormalizer.cs:99-109 | an event is in the filtered result exactly when it is an input event and not suppressed |
| NormalizerProperties.SurvivorsSubsequence | Source/FileWatcherEx/Helpers/EventNormalizer.cs:107-108 | the filtered result keeps the input's relative order |
| NormalizerProperties.FilterKeeps | Source/FileWatcherEx/Helpers/EventNormalizer.cs:92-109 | the filter returns a subsequence of its input and keeps every event that is not a deletion |
| NormalizerProperties.KeptDeletedParent | Source/FileWatcherEx/Helpers/EventNormalizer.cs:92-98 | for every deleted parent of a path, some deleted parent of that path survives the filter |
| NormalizerProperties.DroppedIffKeptDeletedParent | Source/FileWatcherEx/Helpers/EventNormalizer.cs:92-125 | an input event is dropped exactly when it is a deletion and a surviving deletion is for one of its parent directories |
| NormalizerProperties.IsParentExamples | Source/FileWatcherEx/Helpers/EventNormalizer.cs:128-131 | the parent test respects separator boundaries: `c:\a` is a parent of `c:\a\b`, not of `c:\ab`, and not of itself |
| NormalizerProperties.DuplicateScenario | Source/FileWatcherExTests/EventProcessorTest.cs:27-53 | CREATED then RENAMED at the same path gives one event carrying the newest data |
| NormalizerProperties.RenameChainScenario | Source/FileWatcherExTests/EventProcessorTest.cs:56-80 | two consecutive renames give one rename from the first old path to the last new path |
| NormalizerProperties.RenameAfterCreateScenario | Source/FileWatcherExTests/EventProcessorTest.cs:83-107 | a create then a rename gives one CREATED event at the new path without old path |
| NormalizerProperties.RenameOntoDeletedScenario | Source/FileWatcherExTests/EventProcessorTest.cs:117-149 | delete foo, create bar, rename bar to foo gives one CHANGED event for foo without old path |
| Processor.NormalizeBatch | Source/FileWatcherEx/Helpers/EventProcessor.cs:63 | a fresh normaliser returns the normalised batch |
| Processor.EventProcessor.constructor | Source/FileWatcherEx/Helpers/EventProcessor.cs:19-37 | empty queue, no delay task, all times zero, no warning logged |
| Processor.EventProcessor.ProcessEvent | Source/FileWatcherEx/Helpers/EventProcessor.cs:40-89 | the event is queued after the spam check; the first event arms the timer 50 ms ahead, a later one leaves the pending timer alone; nothing is emitted; the warning is logged at most once per burst |
| Processor.EventProcessor.TimerFired | Source/FileWatcherEx/Helpers/EventProcessor.cs:55-82 | if no event came in since arming, the handler receives the normalised queue and the queue and timer are cleared; otherwise the timer is re-armed and nothing is emitted |
| Processor.EventProcessor.HandleAll | Source/FileWatcherEx/Helpers/EventProcessor.cs:64-67 | the handler receives every normalised event, in order |
| Processor.EventProcessor.CheckForSpam | Source/FileWatcherEx/Helpers/EventProcessor.cs:91-104 | the first event of a burst resets the flag and the clock; a later one logs one warning (queue length, 60 seconds, latest path) once the burst has lasted more than a minute, and never twice |
| SymlinkWatchers.IsSymbolicLinkDirectory | Source/FileWatcherEx/Helpers/SymlinkAwareFileWatcher.cs:204-209 | reading the attributes fails exactly for an unreadable path; otherwise the result says whether the path is both a directory and a reparse point |
| SymlinkWatchers.Visited | Source/FileWatcherEx/Helpers/SymlinkAwareFileWatcher.cs:134-145 | the discovery visits the directory itself first |
| SymlinkWatchers.VisitedAll | Source/FileWatcherEx/Helpers/SymlinkAwareFileWatcher.cs:140-143 | every listed subdirectory is visited |
| SymlinkWatchers.VisitedAllAppend | Source/FileWatcherEx/Helpers/SymlinkAwareFileWatcher.cs:140-143 | the `foreach` visits the listed subtrees one after another |
| SymlinkWatchers.Watchable | Source/FileWatcherEx/Helpers/SymlinkAwareFileWatcher.cs:176 | a visited path gets a watcher exactly when subdirectories are watched and it is a symbolic-link directory |
| SymlinkWatchers.Watcher.constructor | Source/FileWatcherEx/Helpers/SymlinkAwareFileWatcher.cs:85 | the factory returns a live watcher with no filters and no sync object |
| SymlinkWatchers.Watcher.Stop | Source/FileWatcherEx/Helpers/SymlinkAwareFileWatcher.cs:225-226 | one watcher of the dispose loop stops raising events and is disposed; only those two fields change |
| SymlinkWatchers.SymlinkAwareFileWatcher.constructor | Source/FileWatcherEx/Helpers/SymlinkAwareFileWatcher.cs:37-74 | no watchers yet; notify filter LastWrite, FileName and DirectoryName; events off; no subdirectories, filters or sync object |
| SymlinkWatchers.SymlinkAwareFileWatcher.Init | Source/FileWatcherEx/Helpers/SymlinkAwareFileWatcher.cs:76-80 | the root gets a watcher, then so does every symbolic-link directory below it; if the root is registered already, the duplicate `Add` throws and the registry is left as it was (the registering line is still logged, and the watcher built for it never enters the registry) |
| SymlinkWatchers.SymlinkAwareFileWatcher.RegisterFileWatcher | Source/FileWatcherEx/Helpers/SymlinkAwareFileWatcher.cs:82-90 | logs, then adds one new configured watcher under the path; adding an existing key throws and leaves the registry as it was |
| SymlinkWatchers.SymlinkAwareFileWatcher.SetFileWatcherProperties | Source/FileWatcherEx/Helpers/SymlinkAwareFileWatcher.cs:92-109 | the watcher takes the path, notify filter, subdirectory and raising flags, has the filters appended in order and a 32768-byte buffer; only the root's watcher gets the sync object |
| SymlinkWatchers.SymlinkAwareFileWatcher.IsRootPath | Source/FileWatcherEx/Helpers/SymlinkAwareFileWatcher.cs:124-127 | a path is the root exactly when it equals the watched path as a string (no normalisation) |
| SymlinkWatchers.SymlinkAwareFileWatcher.RegisterAdditionalFileWatchersForSymLinkDirs | Source/FileWatcherEx/Helpers/SymlinkAwareFileWatcher.cs:134-145 | the registered paths grow by exactly the symbolic-link directories visited in the tree; existing watchers are untouched and new ones are fresh and configured |
| SymlinkWatchers.SymlinkAwareFileWatcher.RegisterSubdirectories | Source/FileWatcherEx/Helpers/SymlinkAwareFileWatcher.cs:140-143 | the same for the listed subtrees of one directory |
| SymlinkWatchers.SymlinkAwareFileWatcher.TryRegisterFileWatcherForSymbolicLinkDir | Source/FileWatcherEx/Helpers/SymlinkAwareFileWatcher.cs:172-188 | registers exactly when the path is a symbolic-link directory, subdirectories are watched and the path has no watcher, with both log lines; an unreadable path logs the error and changes nothing |
| SymlinkWatchers.SymlinkAwareFileWatcher.UnregisterFileWatcherForSymbolicLinkDir | Source/FileWatcherEx/Helpers/SymlinkAwareFileWatcher.cs:194-201 | the path's watcher, if any, is disposed and removed; the others stay |
| SymlinkWatchers.SymlinkAwareFileWatcher.Dispose | Source/FileWatcherEx/Helpers/SymlinkAwareFileWatcher.cs:221-228 | every registered watcher has raising events off and is disposed; its path, notify filter, subdirectory flag, filters, sync object and buffer size stay as they were |

## Left out

- Event objects are values. The source mutates the caller's `FileChangedEvent` objects in place (`newEvent.ChangeType = …`) and stores them by reference. The model does not capture that aliasing, or a batch that holds the same object twice.
- The `FileChangedEvent` class and `ChangeType` enum definitions are not part of this model; their shape is taken from how the core uses them.
- `Dictionary` value order is modelled as insertion order with in-place updates. After a `Remove`, .NET may reuse the freed slot for a later key, so a real enumeration can differ. The order of `Normalize`'s output follows the model's order.
- LINQ laziness is not modelled: the pipeline runs once, eagerly, so `deletedPaths` is filled in a single walk.
- The lock in `EventProcessor`, thread scheduling, `Task.Delay` and `DateTime.Now` are not modelled. Time is a parameter in ticks, and the timer continuation is a method the caller invokes at or after its due tick.
- Processor.EventProcessor.ProcessEvent: does not model the wrap-around of `long` tick arithmetic, because tick counts stay far below 2^63.
- Exceptions thrown by the event handler or the logger are not modelled, nor the text of log messages beyond their parameters.
- A watcher factory that throws, and a directory listing that throws, are not modelled outside the `try` of `TryRegisterFileWatcherForSymbolicLinkDir`.
- SymlinkWatchers.SymlinkAwareFileWatcher.TryRegisterFileWatcherForSymbolicLinkDir: the `catch` at `SymlinkAwareFileWatcher.cs:182-187` covers the whole `try` block at lines 174-181. That includes the logger call, the watcher factory, the property setters, the handler wiring and the dictionary `Add`. A throw in any of these is caught and logged, and the half-built watcher is dropped. The model captures only the failing attribute lookup among these.
- The wiring of watcher events to handlers (`SymlinkAwareFileWatcher.cs:111-122`) and the forwarding methods at lines 151-169 are not modelled. They only build event records and invoke callbacks. The symlink methods they reach are modelled.
- `GetFileWatchers` (a test accessor returning the values) is not modelled.
- Start-up discovery walks a finite snapshot of the directory tree, so a symbolic-link cycle, on which the source would recurse without bound, is outside the model.
- SymlinkWatchers.SymlinkAwareFileWatcher.Init: requires the snapshot to be the listing of the watched path itself, since the tree is given by the caller.
- SymlinkWatchers.SymlinkAwareFileWatcher.RegisterAdditionalFileWatchersForSymLinkDirs: states the set of registered paths and the state of each watcher, not the order of the log messages of a whole walk.
- SymlinkWatchers.SymlinkAwareFileWatcher.Init: likewise states no log order.
- Normalizer.OrderBy: states permutation and sortedness, not stability; the filter result is proved not to depend on the order among equal lengths.
- `EventProcessorTest.cs` calls a static `EventProcessor.NormalizeEvents` that is not in `EventProcessor.cs`. Its scenarios are stated on `Normalized`, the result of a fresh normaliser.
- The scenario lemmas are stated for any paths satisfying the test's distinctness conditions, not only for the test's literal paths.
- `FileSystemWatcherEx.cs`, `FileWatcher.cs`, the demo applications and the event recorder are not part of this model.
