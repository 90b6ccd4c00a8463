/**
 * `SymlinkAwareFileWatcher`: the registry of native watchers behind one
 * watched directory. The root always has a watcher; because native watchers
 * do not follow symbolic links, every symbolic-link directory found below the
 * root, at startup or at runtime, gets a watcher of its own.
 *
 * The file system is given per call: `attrs` maps a path to its attributes
 * (a path without an entry is one whose attributes cannot be read, so the
 * lookup throws), and a `DirectoryTree` is a finite snapshot of what
 * `Directory.Exists` and the directory-listing function return.
 */
module SymlinkWatchers {
  import opened FileEvents

  /** `System.IO.NotifyFilters`, one flag per value. */
  datatype NotifyFilter =
    FileName | DirectoryName | Attributes | Size | LastWrite | LastAccess | CreationTime | Security

  /** `System.IO.FileAttributes`, one flag per value. */
  datatype FileAttribute =
    | ReadOnly | Hidden | System | Directory | Archive | Device | Normal | Temporary
    | SparseFile | ReparsePoint | Compressed | Offline | NotContentIndexed | Encrypted
    | IntegrityStream | NoScrubData

  /** An `ISynchronizeInvoke` object, known by identity only. */
  datatype SyncObject = SyncObject(id: nat)

  /** The attributes of each readable path. */
  type AttributeMap = map<string, set<FileAttribute>>

  /** A directory, whether it exists, and the directories listed inside it. */
  datatype DirectoryTree = DirectoryTree(fullName: string, directoryExists: bool, subdirectories: seq<DirectoryTree>)

  /** Messages passed to the logger. */
  datatype LogEntry =
    | RegisteringWatcher(path: string)
    | SymlinkDirDetected(path: string)
    | RegistrationFailed(path: string)

  /** `LastWrite | FileName | DirectoryName`, the default of `FileSystemWatcher`. */
  const DefaultNotifyFilter: set<NotifyFilter> := {LastWrite, FileName, DirectoryName}

  /** Larger buffers cause trouble on UNC drives. */
  const WatcherBufferSize: int := 32768

  /**
   * `IsSymbolicLinkDirectory`: `None` when reading the attributes throws,
   * otherwise whether the path is a directory that is also a reparse point.
   */
  function IsSymbolicLinkDirectory(attrs: AttributeMap, path: string): (r: Option<bool>)
    ensures r.None? <==> path !in attrs
    ensures r == Some(true) <==> IsSymlinkDir(attrs, path)
  {
    if path !in attrs then None
    else Some(Directory in attrs[path] && ReparsePoint in attrs[path])
  }

  /** A readable path whose attributes hold both Directory and ReparsePoint. */
  predicate IsSymlinkDir(attrs: AttributeMap, path: string) {
    path in attrs && Directory in attrs[path] && ReparsePoint in attrs[path]
  }

  /** The paths the startup discovery visits: the directory, then each listed subtree in order. */
  function Visited(tree: DirectoryTree): (r: seq<string>)
    ensures |r| >= 1 && r[0] == tree.fullName
    decreases tree, 1
  {
    [tree.fullName] + (if tree.directoryExists then VisitedAll(tree.subdirectories) else [])
  }

  function VisitedAll(trees: seq<DirectoryTree>): (r: seq<string>)
    ensures forall i :: 0 <= i < |trees| ==> trees[i].fullName in r
    decreases trees, 0
  {
    if trees == [] then []
    else Visited(trees[0]) + VisitedAll(trees[1..])
  }

  /** The visited paths that get a watcher: symbolic-link directories, when subdirectories are watched. */
  function Watchable(attrs: AttributeMap, includeSubdirectories: bool, paths: seq<string>): (r: set<string>)
    ensures forall p :: p in r <==> p in paths && includeSubdirectories && IsSymlinkDir(attrs, p)
  {
    set p | p in paths && includeSubdirectories && IsSymlinkDir(attrs, p)
  }

  /** A native watcher, as the settings it holds. */
  class Watcher {
    var path: string
    var notifyFilter: set<NotifyFilter>
    var includeSubdirectories: bool
    var enableRaisingEvents: bool
    var filters: seq<string>
    var synchronizingObject: Option<SyncObject>
    var internalBufferSize: int
    var disposed: bool

    /** What the watcher factory returns: a watcher with no filters and no sync object. */
    constructor ()
      ensures filters == [] && synchronizingObject == None && !disposed
    {
      path := "";
      notifyFilter := DefaultNotifyFilter;
      includeSubdirectories := false;
      enableRaisingEvents := false;
      filters := [];
      synchronizingObject := None;
      internalBufferSize := 8192;
      disposed := false;
    }

    method Dispose()
      modifies this`disposed
      ensures disposed
    {
      disposed := true;
    }

    /** `EnableRaisingEvents = false`, then `Dispose()`. */
    method Stop()
      modifies this`enableRaisingEvents, this`disposed
      ensures !enableRaisingEvents && disposed
    {
      enableRaisingEvents := false;
      Dispose();
    }
  }

  class SymlinkAwareFileWatcher {
    const watchPath: string
    var fileWatchers: map<string, Watcher>
    var notifyFilter: set<NotifyFilter>
    var enableRaisingEvents: bool
    var includeSubdirectories: bool
    var filters: seq<string>
    var synchronizingObject: Option<SyncObject>
    /** Every message passed to the logger, in order. */
    var log: seq<LogEntry>

    /** Each watcher watches the path it is registered under, so there is one watcher per path. */
    ghost predicate Valid()
      reads this, fileWatchers.Values
    {
      forall p :: p in fileWatchers ==> fileWatchers[p].path == p
    }

    /** Watcher `w` holds the registry's current settings for `path`. */
    ghost predicate Configured(w: Watcher, path: string)
      reads this`notifyFilter, this`includeSubdirectories, this`enableRaisingEvents
      reads this`filters, this`synchronizingObject, w
    {
      w.path == path &&
      w.notifyFilter == notifyFilter &&
      w.includeSubdirectories == includeSubdirectories &&
      w.enableRaisingEvents == enableRaisingEvents &&
      w.filters == filters &&
      w.synchronizingObject == (if path == watchPath then synchronizingObject else None) &&
      w.internalBufferSize == WatcherBufferSize &&
      !w.disposed
    }

    constructor (path: string)
      ensures watchPath == path && fileWatchers == map[] && log == []
      ensures notifyFilter == DefaultNotifyFilter && !enableRaisingEvents && !includeSubdirectories
      ensures filters == [] && synchronizingObject == None
      ensures Valid()
    {
      watchPath := path;
      fileWatchers := map[];
      notifyFilter := DefaultNotifyFilter;
      enableRaisingEvents := false;
      includeSubdirectories := false;
      filters := [];
      synchronizingObject := None;
      log := [];
    }

    /**
     * Registers the root, then discovers the symbolic-link directories below
     * it. `ok` is false when the root is registered already: the registering
     * line is logged and a watcher is built, then adding the key again throws,
     * and the exception leaves the registry as it was.
     */
    method Init(attrs: AttributeMap, listing: DirectoryTree) returns (ok: bool)
      requires Valid() && listing.fullName == watchPath
      modifies this`fileWatchers, this`log
      ensures Valid()
      ensures ok <==> watchPath !in old(fileWatchers)
      ensures ok ==> (fileWatchers.Keys ==
                old(fileWatchers).Keys + {watchPath} + Watchable(attrs, includeSubdirectories, Visited(listing)))
      ensures !ok ==> fileWatchers == old(fileWatchers) && log == old(log) + [RegisteringWatcher(watchPath)]
      ensures forall p :: p in old(fileWatchers) ==> p in fileWatchers && fileWatchers[p] == old(fileWatchers)[p]
      ensures forall p :: p in fileWatchers && p !in old(fileWatchers) ==>
                fresh(fileWatchers[p]) && Configured(fileWatchers[p], p)
    {
      ok := RegisterFileWatcher(watchPath);
      if ok {
        RegisterAdditionalFileWatchersForSymLinkDirs(attrs, listing);
      }
    }

    /**
     * Creates a watcher for `path`, configures it and adds it under `path`.
     * `added` is false when `path` is a key already: `Add` throws after the
     * watcher was made, and the registry is left as it was.
     */
    method RegisterFileWatcher(path: string) returns (added: bool)
      requires Valid()
      modifies this`fileWatchers, this`log
      ensures Valid()
      ensures log == old(log) + [RegisteringWatcher(path)]
      ensures added <==> path !in old(fileWatchers)
      ensures added ==> path in fileWatchers && fileWatchers == old(fileWatchers)[path := fileWatchers[path]] &&
                        fresh(fileWatchers[path]) && Configured(fileWatchers[path], path)
      ensures !added ==> fileWatchers == old(fileWatchers)
    {
      log := log + [RegisteringWatcher(path)];
      var fileWatcher := new Watcher();
      SetFileWatcherProperties(fileWatcher, path);
      if path in fileWatchers {
        return false;
      }
      fileWatchers := fileWatchers[path := fileWatcher];
      added := true;
    }

    /**
     * Copies the settings into `fileWatcher`: the filters are appended in
     * order, and only the root's watcher gets the synchronising object.
     */
    method SetFileWatcherProperties(fileWatcher: Watcher, path: string)
      modifies fileWatcher
      ensures fileWatcher.path == path
      ensures fileWatcher.notifyFilter == notifyFilter
      ensures fileWatcher.includeSubdirectories == includeSubdirectories
      ensures fileWatcher.enableRaisingEvents == enableRaisingEvents
      ensures fileWatcher.filters == old(fileWatcher.filters) + filters
      ensures fileWatcher.synchronizingObject ==
                if IsRootPath(path) then synchronizingObject else old(fileWatcher.synchronizingObject)
      ensures fileWatcher.internalBufferSize == WatcherBufferSize
      ensures fileWatcher.disposed == old(fileWatcher.disposed)
    {
      fileWatcher.path := path;
      fileWatcher.notifyFilter := notifyFilter;
      fileWatcher.includeSubdirectories := includeSubdirectories;
      fileWatcher.enableRaisingEvents := enableRaisingEvents;
      for i := 0 to |filters|
        invariant fileWatcher.filters == old(fileWatcher.filters) + filters[..i]
        invariant fileWatcher.path == path && fileWatcher.notifyFilter == notifyFilter
        invariant fileWatcher.includeSubdirectories == includeSubdirectories
        invariant fileWatcher.enableRaisingEvents == enableRaisingEvents
        invariant fileWatcher.synchronizingObject == old(fileWatcher.synchronizingObject)
        invariant fileWatcher.disposed == old(fileWatcher.disposed)
      {
        fileWatcher.filters := fileWatcher.filters + [filters[i]];
      }
      assert filters[..|filters|] == filters;
      if IsRootPath(path) {
        fileWatcher.synchronizingObject := synchronizingObject;
      }
      fileWatcher.internalBufferSize := WatcherBufferSize;
    }

    predicate IsRootPath(path: string)
      reads this
    {
      watchPath == path
    }

    /**
     * Startup discovery: tries `listing`'s directory, then, if it exists,
     * each listed subdirectory recursively.
     */
    method RegisterAdditionalFileWatchersForSymLinkDirs(attrs: AttributeMap, listing: DirectoryTree)
      requires Valid()
      modifies this`fileWatchers, this`log
      ensures Valid()
      ensures fileWatchers.Keys == old(fileWatchers).Keys + Watchable(attrs, includeSubdirectories, Visited(listing))
      ensures forall p :: p in old(fileWatchers) ==> p in fileWatchers && fileWatchers[p] == old(fileWatchers)[p]
      ensures forall p :: p in fileWatchers && p !in old(fileWatchers) ==>
                fresh(fileWatchers[p]) && Configured(fileWatchers[p], p)
      decreases listing, 1
    {
      TryRegisterFileWatcherForSymbolicLinkDir(attrs, listing.fullName);
      if listing.directoryExists {
        RegisterSubdirectories(attrs, listing);
        assert fileWatchers.Keys == old(fileWatchers).Keys + Watchable(attrs, includeSubdirectories, Visited(listing)) by {
          WatchableAppend(attrs, includeSubdirectories, [listing.fullName], VisitedAll(listing.subdirectories));
        }
      } else {
        assert Visited(listing) == [listing.fullName];
      }
    }

    /** The `foreach` over the directories listed in `listing`. */
    method RegisterSubdirectories(attrs: AttributeMap, listing: DirectoryTree)
      requires Valid()
      modifies this`fileWatchers, this`log
      ensures Valid()
      ensures fileWatchers.Keys ==
                old(fileWatchers).Keys + Watchable(attrs, includeSubdirectories, VisitedAll(listing.subdirectories))
      ensures forall p :: p in old(fileWatchers) ==> p in fileWatchers && fileWatchers[p] == old(fileWatchers)[p]
      ensures forall p :: p in fileWatchers && p !in old(fileWatchers) ==>
                fresh(fileWatchers[p]) && Configured(fileWatchers[p], p)
      decreases listing, 0
    {
      var subdirectories := listing.subdirectories;
      for i := 0 to |subdirectories|
        invariant Valid()
        invariant fileWatchers.Keys ==
                    old(fileWatchers).Keys + Watchable(attrs, includeSubdirectories, VisitedAll(subdirectories[..i]))
        invariant forall p :: p in old(fileWatchers) ==> p in fileWatchers && fileWatchers[p] == old(fileWatchers)[p]
        invariant forall p :: p in fileWatchers && p !in old(fileWatchers) ==>
                    fresh(fileWatchers[p]) && Configured(fileWatchers[p], p)
      {
        RegisterAdditionalFileWatchersForSymLinkDirs(attrs, subdirectories[i]);
        assert fileWatchers.Keys ==
                 old(fileWatchers).Keys + Watchable(attrs, includeSubdirectories, VisitedAll(subdirectories[..i + 1])) by {
          VisitedAllSnoc(subdirectories, i);
          WatchableAppend(attrs, includeSubdirectories, VisitedAll(subdirectories[..i]), Visited(subdirectories[i]));
        }
      }
      assert subdirectories[..|subdirectories|] == subdirectories;
    }

    /**
     * Registers a watcher for `path` if it is a symbolic-link directory,
     * subdirectories are watched and `path` has no watcher yet. An exception
     * while reading the attributes is logged and leaves the registry alone.
     */
    method TryRegisterFileWatcherForSymbolicLinkDir(attrs: AttributeMap, path: string)
      requires Valid()
      modifies this`fileWatchers, this`log
      ensures Valid()
      ensures IsSymlinkDir(attrs, path) && includeSubdirectories && path !in old(fileWatchers) ==>
                path in fileWatchers && fileWatchers == old(fileWatchers)[path := fileWatchers[path]] &&
                fresh(fileWatchers[path]) && Configured(fileWatchers[path], path) &&
                log == old(log) + [SymlinkDirDetected(path), RegisteringWatcher(path)]
      ensures !(IsSymlinkDir(attrs, path) && includeSubdirectories && path !in old(fileWatchers)) ==>
                fileWatchers == old(fileWatchers)
      ensures fileWatchers.Keys == old(fileWatchers).Keys + Watchable(attrs, includeSubdirectories, [path])
      ensures forall p :: p in old(fileWatchers) ==> p in fileWatchers && fileWatchers[p] == old(fileWatchers)[p]
      ensures forall p :: p in fileWatchers && p !in old(fileWatchers) ==>
                fresh(fileWatchers[p]) && Configured(fileWatchers[p], p)
      ensures path !in attrs ==> log == old(log) + [RegistrationFailed(path)]
      ensures path in attrs && !(IsSymlinkDir(attrs, path) && includeSubdirectories && path !in old(fileWatchers)) ==>
                log == old(log)
    {
      WatchableSingle(attrs, includeSubdirectories, path);
      var isLink := IsSymbolicLinkDirectory(attrs, path);
      if isLink.None? {
        log := log + [RegistrationFailed(path)];
        return;
      }
      if isLink.value && includeSubdirectories && path !in fileWatchers {
        log := log + [SymlinkDirDetected(path)];
        var _ := RegisterFileWatcher(path);
      }
    }

    /** The watcher registered under `path`, as a set for a frame. */
    function WatcherAt(path: string): set<Watcher>
      reads this
    {
      if path in fileWatchers then {fileWatchers[path]} else {}
    }

    /** Disposes and forgets the watcher of a deleted symbolic-link directory, if there is one. */
    method UnregisterFileWatcherForSymbolicLinkDir(path: string)
      requires Valid()
      modifies this`fileWatchers, WatcherAt(path)
      ensures Valid()
      ensures fileWatchers == old(fileWatchers) - {path}
      ensures path in old(fileWatchers) ==> old(fileWatchers)[path].disposed
    {
      if path in fileWatchers {
        fileWatchers[path].Dispose();
        fileWatchers := fileWatchers - {path};
      }
    }

    /** Apart from the two flags `Dispose` turns off, watcher `w` holds the settings it had before. */
    twostate predicate SameSettings(w: Watcher)
      reads w
    {
      w.notifyFilter == old(w.notifyFilter) &&
      w.includeSubdirectories == old(w.includeSubdirectories) &&
      w.filters == old(w.filters) &&
      w.synchronizingObject == old(w.synchronizingObject) &&
      w.internalBufferSize == old(w.internalBufferSize)
    }

    /** Stops and disposes every registered watcher; their other settings stay as they were. */
    method Dispose()
      requires Valid()
      modifies fileWatchers.Values
      ensures Valid()
      ensures forall p :: p in fileWatchers ==> !fileWatchers[p].enableRaisingEvents && fileWatchers[p].disposed
      ensures forall p :: p in fileWatchers ==> SameSettings(fileWatchers[p])
    {
      var remaining := fileWatchers.Keys;
      while remaining != {}
        invariant remaining <= fileWatchers.Keys
        invariant Valid()
        invariant forall p :: p in fileWatchers ==>
                    SameSettings(fileWatchers[p]) &&
                    (p !in remaining ==> !fileWatchers[p].enableRaisingEvents && fileWatchers[p].disposed)
        decreases |remaining|
      {
        var p :| p in remaining;
        fileWatchers[p].Stop();
        remaining := remaining - {p};
      }
    }
  }

  lemma VisitedAllSnoc(trees: seq<DirectoryTree>, i: int)
    requires 0 <= i < |trees|
    ensures VisitedAll(trees[..i + 1]) == VisitedAll(trees[..i]) + Visited(trees[i])
  {
    assert trees[..i + 1] == trees[..i] + [trees[i]];
    VisitedAllAppend(trees[..i], trees[i]);
  }

  lemma {:induction false} VisitedAllAppend(trees: seq<DirectoryTree>, t: DirectoryTree)
    ensures VisitedAll(trees + [t]) == VisitedAll(trees) + Visited(t)
    decreases |trees|
  {
    if trees == [] {
      assert [] + [t] == [t];
      assert [t][1..] == [];
    } else {
      assert (trees + [t])[0] == trees[0];
      assert (trees + [t])[1..] == trees[1..] + [t];
      VisitedAllAppend(trees[1..], t);
    }
  }

  lemma WatchableSingle(attrs: AttributeMap, includeSubdirectories: bool, p: string)
    ensures Watchable(attrs, includeSubdirectories, [p]) ==
              if includeSubdirectories && IsSymlinkDir(attrs, p) then {p} else {}
  {
  }

  lemma WatchableAppend(attrs: AttributeMap, includeSubdirectories: bool, a: seq<string>, b: seq<string>)
    ensures Watchable(attrs, includeSubdirectories, a + b) ==
              Watchable(attrs, includeSubdirectories, a) + Watchable(attrs, includeSubdirectories, b)
  {
  }
}
