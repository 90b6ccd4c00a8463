/**
 * What the normaliser promises about a batch: the merge rules one by one, the
 * shape of the output, the suppression of nested deletions, and the
 * scenarios of the unit tests.
 */
module NormalizerProperties {
  import opened FileEvents
  import opened Repository
  import opened Normalizer

  // ---------------------------------------------------------------------------
  // Whole batches
  // ---------------------------------------------------------------------------

  /**
   * An empty batch gives an empty result; a single event passes through
   * unchanged unless it is a LOG event, which is dropped.
   */
  lemma SmallBatches(e: FileChangedEvent)
    ensures Normalized([]) == []
    ensures e.changeType != LOG ==> Normalized([e]) == [e]
    ensures e.changeType == LOG ==> Normalized([e]) == []
  {
    MergedSnoc([], [], e);
    assert [] + [e] == [e];
    StepOnEmpty(e);
    if e.changeType != LOG {
      SingleSurvives(e);
    }
  }

  /** Merging one more event is one more step. */
  lemma MergedSnoc(init: seq<FileChangedEvent>, events: seq<FileChangedEvent>, e: FileChangedEvent)
    requires UniquePaths(init)
    ensures Merged(init, events + [e]) == Step(Merged(init, events), e)
  {
    assert (events + [e])[..|events|] == events;
  }

  /** Into an empty repository, an event goes as it is, unless it is a LOG event. */
  lemma StepOnEmpty(e: FileChangedEvent)
    ensures Step([], e) == if e.changeType == LOG then [] else [e]
  {
    assert Lookup([], e.fullPath) == None;
    assert RenameSource([], e) == None;
    if e.changeType != LOG {
      assert SelectRule(e, None, None) == Default;
      UpsertNewAppends([], e);
    }
  }

  /** A lone event is never suppressed: no path is its own parent. */
  lemma SingleSurvives(e: FileChangedEvent)
    ensures WithoutNestedDeletes([e]) == [e]
  {
    NotOwnParent(e.fullPath);
    assert !Suppressed(e, [e]);
    assert [e][..0] == [];
    assert Survivors([e], [e]) == Survivors([], [e]) + [e];
  }

  /** The output holds at most one event per path and no LOG event. */
  lemma NormalizedShape(events: seq<FileChangedEvent>)
    ensures UniquePaths(Normalized(events))
    ensures NoLog(Normalized(events))
  {
    var merged := Merged([], events);
    SurvivorsKeepUnique(merged, merged);
    var r := Normalized(events);
    forall j | 0 <= j < |r| ensures r[j].changeType != LOG {
      var k :| 0 <= k < |merged| && merged[k] == r[j];
    }
  }

  lemma {:induction false} SurvivorsKeepUnique(xs: seq<FileChangedEvent>, all: seq<FileChangedEvent>)
    requires UniquePaths(xs)
    ensures UniquePaths(Survivors(xs, all))
    decreases |xs|
  {
    if xs != [] {
      var init, last := xs[..|xs| - 1], xs[|xs| - 1];
      SurvivorsKeepUnique(init, all);
      var rest := Survivors(init, all);
      forall j | 0 <= j < |rest| ensures rest[j].fullPath != last.fullPath {
        var k :| 0 <= k < |init| && init[k] == rest[j];
      }
    }
  }

  // ---------------------------------------------------------------------------
  // The merge rules, one event at a time
  // ---------------------------------------------------------------------------

  /**
   * An event touches at most its own path and, for a rename, the path it was
   * renamed from: every other entry is left as it was.
   */
  lemma StepIsPathLocal(entries: seq<FileChangedEvent>, e: FileChangedEvent, p: string)
    requires UniquePaths(entries)
    requires p != e.fullPath
    requires e.changeType == RENAMED ==> p != e.oldFullPath.GetOr("")
    ensures Lookup(Step(entries, e), p) == Lookup(entries, p)
  {
    var oldEvent := Lookup(entries, e.fullPath);
    var from := RenameSource(entries, e);
    match SelectRule(e, oldEvent, from)
    case CreatedThenChanged =>
    case CreatedThenDeleted =>
      LookupWithout(entries, e.fullPath, p);
    case DeletedThenCreated =>
    case RenameOntoDeletedFromCreated =>
      LookupWithout(Upsert(entries, e.(changeType := CHANGED, oldFullPath := None)), from.value.fullPath, p);
    case RenameFromCreated =>
      LookupWithout(Upsert(entries, e.(changeType := CREATED, oldFullPath := None)), from.value.fullPath, p);
    case RenameOfRenamed =>
      LookupWithout(Upsert(entries, e.(oldFullPath := from.value.oldFullPath)), from.value.fullPath, p);
    case IgnoreLog =>
    case Default =>
  }

  /** CREATED then CHANGED for the same path: the CREATED entry stays as it is. */
  lemma CreatedThenChangedStaysCreated(entries: seq<FileChangedEvent>, e: FileChangedEvent)
    requires UniquePaths(entries)
    requires e.changeType == CHANGED && KindIs(Lookup(entries, e.fullPath), CREATED)
    ensures Step(entries, e) == entries
  {
  }

  /** CREATED then DELETED for the same path: no entry is left for the path. */
  lemma CreatedThenDeletedCancels(entries: seq<FileChangedEvent>, e: FileChangedEvent)
    requires UniquePaths(entries)
    requires e.changeType == DELETED && KindIs(Lookup(entries, e.fullPath), CREATED)
    ensures Lookup(Step(entries, e), e.fullPath) == None
    ensures |Step(entries, e)| == |entries| - 1
  {
    LookupWithout(entries, e.fullPath, e.fullPath);
    var i := PathIndex(entries, e.fullPath);
    WithoutUniqueLength(entries, i);
  }

  /** Removing a present key from distinct-path entries removes exactly one entry. */
  lemma {:induction false} WithoutUniqueLength(es: seq<FileChangedEvent>, i: int)
    requires UniquePaths(es) && 0 <= i < |es|
    ensures |Without(es, es[i].fullPath)| == |es| - 1
    decreases |es|
  {
    var init, last := es[..|es| - 1], es[|es| - 1];
    var path := es[i].fullPath;
    if i == |es| - 1 {
      NotInWithout(init, path);
    } else {
      WithoutUniqueLength(init, i);
      assert init[i] == es[i];
    }
  }

  /** Without a key to remove, nothing is removed. */
  lemma {:induction false} NotInWithout(es: seq<FileChangedEvent>, path: string)
    requires forall j :: 0 <= j < |es| ==> es[j].fullPath != path
    ensures Without(es, path) == es
    decreases |es|
  {
    if es != [] {
      var init := es[..|es| - 1];
      NotInWithout(init, path);
      assert init + [es[|es| - 1]] == es;
    }
  }

  /**
   * DELETED then CREATED for the same path: the stored entry becomes CHANGED
   * where it stands and keeps its old path.
   */
  lemma DeletedThenCreatedBecomesChanged(entries: seq<FileChangedEvent>, e: FileChangedEvent, i: int)
    requires UniquePaths(entries) && 0 <= i < |entries|
    requires entries[i].fullPath == e.fullPath && entries[i].changeType == DELETED
    requires e.changeType == CREATED
    ensures Step(entries, e) == entries[i := FileChangedEvent(CHANGED, e.fullPath, entries[i].oldFullPath)]
  {
    LookupAt(entries, i);
    UpsertExistingKeepsPosition(entries, entries[i].(changeType := CHANGED), i);
  }

  /**
   * A rename from a path whose entry is CREATED: the new path holds a CREATED
   * event without an old path, unless its entry was DELETED, in which case
   * it holds a CHANGED event without an old path; the created entry is gone.
   */
  lemma RenameOfCreatedEntry(entries: seq<FileChangedEvent>, e: FileChangedEvent, a: string)
    requires UniquePaths(entries)
    requires e.changeType == RENAMED && e.oldFullPath == Some(a) && a != e.fullPath
    requires KindIs(Lookup(entries, a), CREATED)
    ensures var kind := if KindIs(Lookup(entries, e.fullPath), DELETED) then CHANGED else CREATED;
            Lookup(Step(entries, e), e.fullPath) == Some(FileChangedEvent(kind, e.fullPath, None))
    ensures Lookup(Step(entries, e), a) == None
  {
    var kind := if KindIs(Lookup(entries, e.fullPath), DELETED) then CHANGED else CREATED;
    var upserted := Upsert(entries, e.(changeType := kind, oldFullPath := None));
    LookupWithout(upserted, a, e.fullPath);
    LookupWithout(upserted, a, a);
  }

  /** A rename of a renamed entry collapses into one rename from the original path. */
  lemma RenameChainCollapses(entries: seq<FileChangedEvent>, e: FileChangedEvent, b: string, original: Option<string>)
    requires UniquePaths(entries)
    requires e.changeType == RENAMED && e.oldFullPath == Some(b) && b != e.fullPath
    requires Lookup(entries, b) == Some(FileChangedEvent(RENAMED, b, original))
    ensures Lookup(Step(entries, e), e.fullPath) == Some(FileChangedEvent(RENAMED, e.fullPath, original))
    ensures Lookup(Step(entries, e), b) == None
  {
    var upserted := Upsert(entries, e.(oldFullPath := original));
    assert SelectRule(e, Lookup(entries, e.fullPath), RenameSource(entries, e)) == RenameOfRenamed;
    assert Step(entries, e) == Without(upserted, b);
    LookupWithout(upserted, b, e.fullPath);
    LookupWithout(upserted, b, b);
  }

  /**
   * A rename whose old path is its own path, of a CREATED or RENAMED entry:
   * the entry is upserted and then removed under the same key, so the path
   * has no entry left and every other path is untouched.
   */
  lemma RenameOntoItselfDrops(entries: seq<FileChangedEvent>, e: FileChangedEvent)
    requires UniquePaths(entries)
    requires e.changeType == RENAMED && e.oldFullPath == Some(e.fullPath)
    requires KindIs(Lookup(entries, e.fullPath), CREATED) || KindIs(Lookup(entries, e.fullPath), RENAMED)
    ensures Lookup(Step(entries, e), e.fullPath) == None
    ensures forall p :: p != e.fullPath ==> Lookup(Step(entries, e), p) == Lookup(entries, p)
  {
    var from := Lookup(entries, e.fullPath);
    assert RenameSource(entries, e) == from;
    var renamed :=
      if KindIs(from, CREATED) then e.(changeType := CREATED, oldFullPath := None)
      else e.(oldFullPath := from.value.oldFullPath);
    assert Step(entries, e) == Without(Upsert(entries, renamed), e.fullPath);
    forall p ensures Lookup(Step(entries, e), p) == if p == e.fullPath then None else Lookup(entries, p) {
      LookupWithout(Upsert(entries, renamed), e.fullPath, p);
    }
  }

  /** CREATED `p`, then RENAMED from `p` to `p`: nothing is reported. */
  lemma RenameOntoItselfScenario(p: string, createdFrom: Option<string>)
    ensures Normalized([FileChangedEvent(CREATED, p, createdFrom), FileChangedEvent(RENAMED, p, Some(p))]) == []
  {
    var created := FileChangedEvent(CREATED, p, createdFrom);
    var renamed := FileChangedEvent(RENAMED, p, Some(p));
    MergedPair(created, renamed);
    RenameOntoItselfDrops([created], renamed);
    var r := Step([created], renamed);
    if r != [] {
      LookupAt(r, 0);
      assert false;
    }
  }

  /** A LOG event leaves the repository as it is. */
  lemma LogIsIgnored(entries: seq<FileChangedEvent>, e: FileChangedEvent)
    requires UniquePaths(entries) && e.changeType == LOG
    ensures Step(entries, e) == entries
  {
  }

  /**
   * A plain duplicate (no special case applies) overwrites the stored entry
   * with the newest kind and old path, where it stands.
   */
  lemma DuplicateTakesNewestData(entries: seq<FileChangedEvent>, e: FileChangedEvent, i: int)
    requires UniquePaths(entries) && 0 <= i < |entries| && entries[i].fullPath == e.fullPath
    requires SelectRule(e, Some(entries[i]), RenameSource(entries, e)) == Default
    ensures Step(entries, e) == entries[i := e]
  {
    LookupAt(entries, i);
    UpsertExistingKeepsPosition(entries, e, i);
  }

  // ---------------------------------------------------------------------------
  // Suppression of nested deletions
  // ---------------------------------------------------------------------------

  /** An event is in the filtered result iff it is an input that is not suppressed. */
  lemma {:induction false} InSurvivors(xs: seq<FileChangedEvent>, all: seq<FileChangedEvent>, e: FileChangedEvent)
    ensures e in Survivors(xs, all) <==> e in xs && !Suppressed(e, all)
    decreases |xs|
  {
    if xs != [] {
      var init, last := xs[..|xs| - 1], xs[|xs| - 1];
      assert xs == init + [last];
      InSurvivors(init, all, e);
    }
  }

  /** The filtered result keeps the input's relative order. */
  lemma {:induction false} SurvivorsSubsequence(xs: seq<FileChangedEvent>, all: seq<FileChangedEvent>)
    ensures IsSubsequence(Survivors(xs, all), xs)
    decreases |xs|
  {
    if xs != [] {
      var init, last := xs[..|xs| - 1], xs[|xs| - 1];
      var rest := Survivors(init, all);
      SurvivorsSubsequence(init, all);
      assert init + [last] == xs;
      if Suppressed(last, all) {
        assert Survivors(xs, all) == rest;
        SubsequenceOfLonger(rest, init, last);
      } else {
        var r := rest + [last];
        assert Survivors(xs, all) == r;
        assert r[..|r| - 1] == rest && r[|r| - 1] == xs[|xs| - 1];
        assert IsSubsequence(r, xs);
      }
    }
  }

  /**
   * `FilterDeleted` returns a subsequence of its input, keeps every event
   * that is not a deletion, and keeps a deletion unless a deleted parent
   * directory is in the batch.
   */
  lemma FilterKeeps(xs: seq<FileChangedEvent>)
    ensures IsSubsequence(WithoutNestedDeletes(xs), xs)
    ensures forall e :: e in xs && e.changeType != DELETED ==> e in WithoutNestedDeletes(xs)
  {
    SurvivorsSubsequence(xs, xs);
    forall e | e in xs && e.changeType != DELETED ensures e in WithoutNestedDeletes(xs) {
      InSurvivors(xs, xs, e);
    }
  }

  /** Behind every deleted parent of `p` stands a kept deleted parent of `p`. */
  lemma {:induction false} KeptDeletedParent(xs: seq<FileChangedEvent>, p: string, d: FileChangedEvent)
    requires d in xs && d.changeType == DELETED && IsParent(p, d.fullPath)
    ensures exists k :: k in WithoutNestedDeletes(xs) && k.changeType == DELETED && IsParent(p, k.fullPath)
    decreases |d.fullPath|
  {
    InSurvivors(xs, xs, d);
    if Suppressed(d, xs) {
      var d' :| d' in xs && d'.changeType == DELETED && IsParent(d.fullPath, d'.fullPath);
      ParentIsShorter(d.fullPath, d'.fullPath);
      ParentTransitive(p, d.fullPath, d'.fullPath);
      KeptDeletedParent(xs, p, d');
    }
  }

  /**
   * An input event is dropped exactly when it is a deletion and a kept
   * deletion is for one of its parent directories.
   */
  lemma DroppedIffKeptDeletedParent(xs: seq<FileChangedEvent>, e: FileChangedEvent)
    requires e in xs
    ensures e !in WithoutNestedDeletes(xs) <==>
              e.changeType == DELETED &&
              exists k :: k in WithoutNestedDeletes(xs) && k.changeType == DELETED && IsParent(e.fullPath, k.fullPath)
  {
    InSurvivors(xs, xs, e);
    if Suppressed(e, xs) {
      var d :| d in xs && d.changeType == DELETED && IsParent(e.fullPath, d.fullPath);
      KeptDeletedParent(xs, e.fullPath, d);
    }
    if e.changeType == DELETED && exists k :: k in WithoutNestedDeletes(xs) && k.changeType == DELETED && IsParent(e.fullPath, k.fullPath) {
      var k :| k in WithoutNestedDeletes(xs) && k.changeType == DELETED && IsParent(e.fullPath, k.fullPath);
      InSurvivors(xs, xs, k);
    }
  }

  /**
   * `IsParent` compares whole path segments: `c:\a` is a parent of `c:\a\b`
   * but not of `c:\ab`, and no path is its own parent.
   */
  lemma IsParentExamples()
    ensures IsParent("c:\\a\\b", "c:\\a")
    ensures !IsParent("c:\\ab", "c:\\a")
    ensures !IsParent("c:\\a", "c:\\a")
  {
    IsParentIsPrefix("c:\\a\\b", "c:\\a");
    IsParentIsPrefix("c:\\ab", "c:\\a");
    assert "c:\\a" + ['\\'] <= "c:\\a\\b";
    assert ("c:\\ab")[4] != ("c:\\a" + ['\\'])[4];
    NotOwnParent("c:\\a");
  }

  // ---------------------------------------------------------------------------
  // The unit-test scenarios
  // ---------------------------------------------------------------------------

  /**
   * CREATED then RENAMED onto the same path with another old path: one event,
   * the newest data (the test uses `c:\1.txt`, `c:\1_old_path.txt` and
   * `c:\1_different_old_path.txt`).
   */
  lemma DuplicateScenario(path: string, oldPath: string, otherOldPath: string)
    requires otherOldPath != path
    ensures Normalized([
      FileChangedEvent(CREATED, path, Some(oldPath)),
      FileChangedEvent(RENAMED, path, Some(otherOldPath))])
      == [FileChangedEvent(RENAMED, path, Some(otherOldPath))]
  {
    var created := FileChangedEvent(CREATED, path, Some(oldPath));
    var renamed := FileChangedEvent(RENAMED, path, Some(otherOldPath));
    assert RenameSource([created], renamed) == None;
    DuplicateTakesNewestData([created], renamed, 0);
    NormalizedPair(created, renamed, renamed);
  }

  /**
   * RENAMED A to B, then B to C: one RENAMED event from A to C (the test uses
   * `c:\1_old_path.txt`, `c:\1.txt` and `c:\1_new_name.txt`).
   */
  lemma RenameChainScenario(a: string, b: string, c: string)
    requires c != b
    ensures Normalized([
      FileChangedEvent(RENAMED, b, Some(a)),
      FileChangedEvent(RENAMED, c, Some(b))])
      == [FileChangedEvent(RENAMED, c, Some(a))]
  {
    var first := FileChangedEvent(RENAMED, b, Some(a));
    var second := FileChangedEvent(RENAMED, c, Some(b));
    var result := FileChangedEvent(RENAMED, c, Some(a));
    RenameOfLoneRenamed(first, second);
    NormalizedPair(first, second, result);
  }

  /**
   * CREATED A, then RENAMED A to B: one CREATED event for B without an old
   * path (the test uses `c:\1.txt` and `c:\1_new_name.txt`).
   */
  lemma RenameAfterCreateScenario(a: string, createdFrom: string, b: string)
    requires b != a
    ensures Normalized([
      FileChangedEvent(CREATED, a, Some(createdFrom)),
      FileChangedEvent(RENAMED, b, Some(a))])
      == [FileChangedEvent(CREATED, b, None)]
  {
    var created := FileChangedEvent(CREATED, a, Some(createdFrom));
    var renamed := FileChangedEvent(RENAMED, b, Some(a));
    var result := FileChangedEvent(CREATED, b, None);
    RenameOfLoneCreated(created, renamed);
    NormalizedPair(created, renamed, result);
  }

  /**
   * DELETED A, CREATED B, RENAMED B to A: one CHANGED event for A without an
   * old path (the test uses `c:\foo`, `c:\bar` and `c:\fuzz`).
   */
  lemma RenameOntoDeletedScenario(foo: string, bar: string, fuzz: string)
    requires foo != bar
    ensures Normalized([
      FileChangedEvent(DELETED, foo, None),
      FileChangedEvent(CREATED, bar, Some(fuzz)),
      FileChangedEvent(RENAMED, foo, Some(bar))])
      == [FileChangedEvent(CHANGED, foo, None)]
  {
    var deleted := FileChangedEvent(DELETED, foo, None);
    var created := FileChangedEvent(CREATED, bar, Some(fuzz));
    var renamed := FileChangedEvent(RENAMED, foo, Some(bar));
    var result := FileChangedEvent(CHANGED, foo, None);
    MergedRenameOntoDeleted(deleted, created, renamed);
    SingleSurvives(result);
  }

  /** A rename of the only, renamed, entry: one rename from that entry's old path. */
  lemma RenameOfLoneRenamed(x: FileChangedEvent, e: FileChangedEvent)
    requires x.changeType == RENAMED && e.changeType == RENAMED
    requires e.oldFullPath == Some(x.fullPath) && e.fullPath != x.fullPath
    ensures Step([x], e) == [e.(oldFullPath := x.oldFullPath)]
  {
    var result := e.(oldFullPath := x.oldFullPath);
    assert Lookup([x], e.fullPath) == None;
    assert RenameSource([x], e) == Some(x);
    assert SelectRule(e, None, Some(x)) == RenameOfRenamed;
    UpsertNewAppends([x], result);
    assert [x] + [result] == [x, result];
    WithoutFront(x, result);
  }

  /** A rename of the only, created, entry: a creation at the new path. */
  lemma RenameOfLoneCreated(x: FileChangedEvent, e: FileChangedEvent)
    requires x.changeType == CREATED && e.changeType == RENAMED
    requires e.oldFullPath == Some(x.fullPath) && e.fullPath != x.fullPath
    ensures Step([x], e) == [e.(changeType := CREATED, oldFullPath := None)]
  {
    var result := e.(changeType := CREATED, oldFullPath := None);
    assert Lookup([x], e.fullPath) == None;
    assert RenameSource([x], e) == Some(x);
    assert SelectRule(e, None, Some(x)) == RenameFromCreated;
    UpsertNewAppends([x], result);
    assert [x] + [result] == [x, result];
    WithoutFront(x, result);
  }

  /** A created entry renamed onto a deleted entry: a change at the deleted path. */
  lemma RenameCreatedOntoDeleted(d: FileChangedEvent, c: FileChangedEvent, e: FileChangedEvent)
    requires d.changeType == DELETED && c.changeType == CREATED && d.fullPath != c.fullPath
    requires e.changeType == RENAMED && e.fullPath == d.fullPath && e.oldFullPath == Some(c.fullPath)
    ensures Step([d, c], e) == [e.(changeType := CHANGED, oldFullPath := None)]
  {
    var result := e.(changeType := CHANGED, oldFullPath := None);
    LookupAt([d, c], 0);
    LookupAt([d, c], 1);
    assert RenameSource([d, c], e) == Some(c);
    assert SelectRule(e, Some(d), Some(c)) == RenameOntoDeletedFromCreated;
    UpsertExistingKeepsPosition([d, c], result, 0);
    assert [d, c][0 := result] == [result, c];
    WithoutBack(result, c);
  }

  /** The three-event batch of the previous lemma merges to one change. */
  lemma MergedRenameOntoDeleted(d: FileChangedEvent, c: FileChangedEvent, e: FileChangedEvent)
    requires d.changeType == DELETED && c.changeType == CREATED && d.fullPath != c.fullPath
    requires e.changeType == RENAMED && e.fullPath == d.fullPath && e.oldFullPath == Some(c.fullPath)
    ensures Merged([], [d, c, e]) == [e.(changeType := CHANGED, oldFullPath := None)]
  {
    CreatedBesideDeleted(d, c);
    MergedSnoc([], [d, c], e);
    assert [d, c] + [e] == [d, c, e];
    RenameCreatedOntoDeleted(d, c, e);
  }

  /** A deletion, then a creation at another path: both are kept, in order. */
  lemma CreatedBesideDeleted(d: FileChangedEvent, c: FileChangedEvent)
    requires d.changeType == DELETED && c.changeType == CREATED && d.fullPath != c.fullPath
    ensures Merged([], [d, c]) == [d, c]
  {
    assert [d, c][..1] == [d];
    MergedOne(d);
    assert Lookup([d], c.fullPath) == None;
    CreationAtNewPathAppends([d], c);
  }

  /** A creation at a path the repository does not hold is appended. */
  lemma CreationAtNewPathAppends(entries: seq<FileChangedEvent>, e: FileChangedEvent)
    requires UniquePaths(entries) && e.changeType == CREATED
    requires Lookup(entries, e.fullPath) == None
    ensures Step(entries, e) == entries + [e]
  {
    assert SelectRule(e, None, None) == Default;
    UpsertNewAppends(entries, e);
  }

  /** A batch of two events whose second merges into the first to leave one event. */
  lemma NormalizedPair(a: FileChangedEvent, b: FileChangedEvent, r: FileChangedEvent)
    requires a.changeType != LOG
    requires Step([a], b) == [r]
    ensures Normalized([a, b]) == [r]
  {
    MergedPair(a, b);
    SingleSurvives(r);
  }

  /** Merging two events into an empty repository, the first not LOG. */
  lemma MergedPair(a: FileChangedEvent, b: FileChangedEvent)
    requires a.changeType != LOG
    ensures Merged([], [a, b]) == Step([a], b)
  {
    MergedOne(a);
    MergedSnoc([], [a], b);
    assert [a] + [b] == [a, b];
  }

  /** A batch of one event that is not LOG merges to that event. */
  lemma MergedOne(e: FileChangedEvent)
    requires e.changeType != LOG
    ensures Merged([], [e]) == [e]
  {
    MergedSnoc([], [], e);
    assert [] + [e] == [e];
    StepOnEmpty(e);
  }

  /** Removing the first of two entries with distinct paths. */
  lemma WithoutFront(x: FileChangedEvent, y: FileChangedEvent)
    requires x.fullPath != y.fullPath
    ensures Without([x, y], x.fullPath) == [y]
  {
    assert [x, y][..1] == [x] && [x][..0] == [];
  }

  /** Removing the second of two entries with distinct paths. */
  lemma WithoutBack(x: FileChangedEvent, y: FileChangedEvent)
    requires x.fullPath != y.fullPath
    ensures Without([x, y], y.fullPath) == [x]
  {
    assert [x, y][..1] == [x] && [x][..0] == [];
  }
}
