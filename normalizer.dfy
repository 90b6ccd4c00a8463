/**
 * `EventNormalizer`: turns one ordered batch of raw events into deduplicated
 * events. Phase one merges events path by path into a repository
 * (`NormalizeDuplicates`); phase two drops deletions inside an already deleted
 * directory (`FilterDeleted`).
 */
module Normalizer {
  import opened FileEvents
  import opened Repository

  // ---------------------------------------------------------------------------
  // Phase one: per-path merge
  // ---------------------------------------------------------------------------

  /** The branch of the merge `switch` taken for one incoming event. */
  datatype MergeRule =
    | CreatedThenChanged            // keep the CREATED entry as it is
    | CreatedThenDeleted            // drop the entry altogether
    | DeletedThenCreated            // the DELETED entry becomes CHANGED
    | RenameOntoDeletedFromCreated  // CHANGED at the new path, created entry dropped
    | RenameFromCreated             // CREATED at the new path, created entry dropped
    | RenameOfRenamed               // one rename from the original path
    | IgnoreLog                     // LOG never enters the repository
    | Default                       // plain upsert, newest data wins

  /**
   * First matching `case` of the switch: a constant case whose `when` guard
   * fails falls through to the later cases and finally to `default`.
   */
  function SelectRule(newEvent: FileChangedEvent, oldEvent: Option<FileChangedEvent>,
                      renameFromEvent: Option<FileChangedEvent>): (rule: MergeRule)
    ensures rule == CreatedThenDeleted || rule == DeletedThenCreated ==> oldEvent.Some?
    ensures (rule == RenameOntoDeletedFromCreated || rule == RenameFromCreated || rule == RenameOfRenamed)
              ==> renameFromEvent.Some? && newEvent.changeType == RENAMED
    ensures rule == IgnoreLog <==> newEvent.changeType == LOG
  {
    match newEvent.changeType
    case CHANGED => if KindIs(oldEvent, CREATED) then CreatedThenChanged else Default
    case DELETED => if KindIs(oldEvent, CREATED) then CreatedThenDeleted else Default
    case CREATED => if KindIs(oldEvent, DELETED) then DeletedThenCreated else Default
    case RENAMED =>
      if KindIs(oldEvent, DELETED) && KindIs(renameFromEvent, CREATED) then RenameOntoDeletedFromCreated
      else if KindIs(renameFromEvent, CREATED) then RenameFromCreated
      else if KindIs(renameFromEvent, RENAMED) then RenameOfRenamed
      else Default
    case LOG => IgnoreLog
  }

  /** The entry a RENAMED event was renamed from; other kinds look nothing up. */
  function RenameSource(entries: seq<FileChangedEvent>, newEvent: FileChangedEvent): (r: Option<FileChangedEvent>)
    ensures r.Some? ==> newEvent.changeType == RENAMED && r.value in entries &&
                        r.value.fullPath == newEvent.oldFullPath.GetOr("")
    ensures newEvent.changeType == RENAMED ==>
              (r.None? <==> forall j :: 0 <= j < |entries| ==> entries[j].fullPath != newEvent.oldFullPath.GetOr(""))
  {
    if newEvent.changeType == RENAMED then Lookup(entries, newEvent.oldFullPath.GetOr("")) else None
  }

  /**
   * One iteration of the merge loop on the repository contents `entries`: the
   * stored entry under the event's path and, for a rename, the stored entry
   * under its old path select the rule that is applied.
   */
  function Step(entries: seq<FileChangedEvent>, newEvent: FileChangedEvent): (r: seq<FileChangedEvent>)
    requires UniquePaths(entries)
    ensures UniquePaths(r)
  {
    var oldEvent := Lookup(entries, newEvent.fullPath);
    var renameFromEvent := RenameSource(entries, newEvent);
    Apply(SelectRule(newEvent, oldEvent, renameFromEvent), entries, newEvent, oldEvent, renameFromEvent)
  }

  /**
   * The body of one `case` of the switch. Setting the kind of the stored
   * DELETED entry in place is the upsert of that entry with kind CHANGED: same
   * key, same position, same old path.
   */
  function Apply(rule: MergeRule, entries: seq<FileChangedEvent>, newEvent: FileChangedEvent,
                 oldEvent: Option<FileChangedEvent>, renameFromEvent: Option<FileChangedEvent>): (r: seq<FileChangedEvent>)
    requires UniquePaths(entries)
    requires rule == SelectRule(newEvent, oldEvent, renameFromEvent)
    ensures UniquePaths(r)
  {
    match rule
    case CreatedThenChanged => entries
    case CreatedThenDeleted =>
      UniqueWithout(entries, oldEvent.value.fullPath);
      Without(entries, oldEvent.value.fullPath)
    case DeletedThenCreated => Upsert(entries, oldEvent.value.(changeType := CHANGED))
    case RenameOntoDeletedFromCreated =>
      var upserted := Upsert(entries, newEvent.(changeType := CHANGED, oldFullPath := None));
      UniqueWithout(upserted, renameFromEvent.value.fullPath);
      Without(upserted, renameFromEvent.value.fullPath)
    case RenameFromCreated =>
      var upserted := Upsert(entries, newEvent.(changeType := CREATED, oldFullPath := None));
      UniqueWithout(upserted, renameFromEvent.value.fullPath);
      Without(upserted, renameFromEvent.value.fullPath)
    case RenameOfRenamed =>
      var upserted := Upsert(entries, newEvent.(oldFullPath := renameFromEvent.value.oldFullPath));
      UniqueWithout(upserted, renameFromEvent.value.fullPath);
      Without(upserted, renameFromEvent.value.fullPath)
    case IgnoreLog => entries
    case Default => Upsert(entries, newEvent)
  }

  /**
   * The result of `Apply` case by case, so that a caller in a heavier context
   * does not have to unfold the match itself.
   */
  lemma ApplyCases(rule: MergeRule, entries: seq<FileChangedEvent>, newEvent: FileChangedEvent,
                   oldEvent: Option<FileChangedEvent>, renameFromEvent: Option<FileChangedEvent>)
    requires UniquePaths(entries)
    requires rule == SelectRule(newEvent, oldEvent, renameFromEvent)
    ensures rule == CreatedThenChanged || rule == IgnoreLog ==>
              Apply(rule, entries, newEvent, oldEvent, renameFromEvent) == entries
    ensures rule == CreatedThenDeleted ==>
              Apply(rule, entries, newEvent, oldEvent, renameFromEvent) == Without(entries, oldEvent.value.fullPath)
    ensures rule == DeletedThenCreated ==>
              Apply(rule, entries, newEvent, oldEvent, renameFromEvent) == Upsert(entries, oldEvent.value.(changeType := CHANGED))
    ensures rule == RenameOntoDeletedFromCreated ==>
              Apply(rule, entries, newEvent, oldEvent, renameFromEvent) ==
              Without(Upsert(entries, newEvent.(changeType := CHANGED, oldFullPath := None)), renameFromEvent.value.fullPath)
    ensures rule == RenameFromCreated ==>
              Apply(rule, entries, newEvent, oldEvent, renameFromEvent) ==
              Without(Upsert(entries, newEvent.(changeType := CREATED, oldFullPath := None)), renameFromEvent.value.fullPath)
    ensures rule == RenameOfRenamed ==>
              Apply(rule, entries, newEvent, oldEvent, renameFromEvent) ==
              Without(Upsert(entries, newEvent.(oldFullPath := renameFromEvent.value.oldFullPath)), renameFromEvent.value.fullPath)
    ensures rule == Default ==> Apply(rule, entries, newEvent, oldEvent, renameFromEvent) == Upsert(entries, newEvent)
  {
  }

  /** The repository after merging `events`, in order, into `init`. */
  function Merged(init: seq<FileChangedEvent>, events: seq<FileChangedEvent>): (r: seq<FileChangedEvent>)
    requires UniquePaths(init)
    ensures UniquePaths(r)
    ensures NoLog(init) ==> NoLog(r)
    decreases |events|
  {
    if events == [] then init
    else
      var before := Merged(init, events[..|events| - 1]);
      StepKeepsNoLog(before, events[|events| - 1]);
      Step(before, events[|events| - 1])
  }

  lemma UpsertKeepsNoLog(es: seq<FileChangedEvent>, e: FileChangedEvent)
    requires NoLog(es) && e.changeType != LOG
    ensures NoLog(Upsert(es, e))
  {
    var r := Upsert(es, e);
    forall j | 0 <= j < |r| ensures r[j].changeType != LOG {
      if r[j] != e {
        var k :| 0 <= k < |es| && es[k] == r[j];
      }
    }
  }

  lemma WithoutKeepsNoLog(es: seq<FileChangedEvent>, path: string)
    requires NoLog(es)
    ensures NoLog(Without(es, path))
  {
    var r := Without(es, path);
    forall j | 0 <= j < |r| ensures r[j].changeType != LOG {
      var k :| 0 <= k < |es| && es[k] == r[j];
    }
  }

  /** A LOG event never enters the repository. */
  lemma StepKeepsNoLog(entries: seq<FileChangedEvent>, newEvent: FileChangedEvent)
    requires UniquePaths(entries)
    ensures NoLog(entries) ==> NoLog(Step(entries, newEvent))
  {
    if NoLog(entries) {
      var oldEvent := Lookup(entries, newEvent.fullPath);
      var from := RenameSource(entries, newEvent);
      match SelectRule(newEvent, oldEvent, from)
      case CreatedThenChanged =>
      case CreatedThenDeleted =>
        WithoutKeepsNoLog(entries, oldEvent.value.fullPath);
      case DeletedThenCreated =>
        UpsertKeepsNoLog(entries, oldEvent.value.(changeType := CHANGED));
      case RenameOntoDeletedFromCreated =>
        var e := newEvent.(changeType := CHANGED, oldFullPath := None);
        UpsertKeepsNoLog(entries, e);
        WithoutKeepsNoLog(Upsert(entries, e), from.value.fullPath);
      case RenameFromCreated =>
        var e := newEvent.(changeType := CREATED, oldFullPath := None);
        UpsertKeepsNoLog(entries, e);
        WithoutKeepsNoLog(Upsert(entries, e), from.value.fullPath);
      case RenameOfRenamed =>
        var e := newEvent.(oldFullPath := from.value.oldFullPath);
        UpsertKeepsNoLog(entries, e);
        WithoutKeepsNoLog(Upsert(entries, e), from.value.fullPath);
      case IgnoreLog =>
      case Default =>
        UpsertKeepsNoLog(entries, newEvent);
    }
  }

  // ---------------------------------------------------------------------------
  // Phase two: deleted-subtree suppression
  // ---------------------------------------------------------------------------

  /** `s.IndexOf(sub, StringComparison.Ordinal)`: the first position of `sub` in `s`, or -1. */
  function IndexOf(s: string, sub: string): (r: int)
    ensures r == -1 || (0 <= r && r + |sub| <= |s| && s[r..r + |sub|] == sub)
    ensures r != 0 ==> !(sub <= s)
  {
    IndexOfFrom(s, sub, 0)
  }

  function IndexOfFrom(s: string, sub: string, from: nat): (r: int)
    ensures r == -1 || (from <= r && r + |sub| <= |s| && s[r..r + |sub|] == sub)
    ensures from + |sub| <= |s| && s[from..from + |sub|] == sub ==> r == from
    decreases |s| - from
  {
    if from + |sub| > |s| then -1
    else if s[from..from + |sub|] == sub then from
    else IndexOfFrom(s, sub, from + 1)
  }

  /** `IsParent(p, candidate)`: `candidate` followed by a backslash starts `p`. */
  predicate IsParent(p: string, candidate: string)
    ensures IsParent(p, candidate) ==> candidate + ['\\'] <= p
  {
    IndexOf(p, candidate + ['\\']) == 0
  }

  /** Whether deleted path `d` is one of the DELETED events of `xs`. */
  predicate DeletedPathOf(d: string, xs: seq<FileChangedEvent>) {
    exists e :: e in xs && e.changeType == DELETED && e.fullPath == d
  }

  /**
   * The reference definition of the suppression: a DELETED event is redundant
   * when some DELETED event of the batch is for a parent directory of its path.
   */
  predicate Suppressed(e: FileChangedEvent, all: seq<FileChangedEvent>) {
    e.changeType == DELETED &&
    exists d :: d in all && d.changeType == DELETED && IsParent(e.fullPath, d.fullPath)
  }

  /** The events of `xs` that are not suppressed within `all`, in their order. */
  function Survivors(xs: seq<FileChangedEvent>, all: seq<FileChangedEvent>): (r: seq<FileChangedEvent>)
    ensures forall j :: 0 <= j < |r| ==> r[j] in xs && !Suppressed(r[j], all)
    decreases |xs|
  {
    if xs == [] then []
    else
      var last := xs[|xs| - 1];
      Survivors(xs[..|xs| - 1], all) + (if Suppressed(last, all) then [] else [last])
  }

  /** What `FilterDeleted` returns, by the reference definition. */
  function WithoutNestedDeletes(xs: seq<FileChangedEvent>): seq<FileChangedEvent> {
    Survivors(xs, xs)
  }

  /** What a fresh normaliser returns for the batch `events`. */
  function Normalized(events: seq<FileChangedEvent>): seq<FileChangedEvent> {
    WithoutNestedDeletes(Merged([], events))
  }

  /** `KeyValuePair<int, FileChangedEvent>`: an event with its original position. */
  datatype Indexed = Indexed(key: nat, value: FileChangedEvent)

  /** `Select((e, n) => new KeyValuePair(n, e))`. */
  function Enumerate(xs: seq<FileChangedEvent>): (r: seq<Indexed>)
    ensures |r| == |xs|
    ensures forall i :: 0 <= i < |xs| ==> r[i] == Indexed(i, xs[i])
  {
    seq(|xs|, i requires 0 <= i < |xs| => Indexed(i, xs[i]))
  }

  /** `Select(e => e.Value)`. */
  function Values(ps: seq<Indexed>): (r: seq<FileChangedEvent>)
    ensures |r| == |ps|
    ensures forall i :: 0 <= i < |ps| ==> r[i] == ps[i].value
  {
    seq(|ps|, i requires 0 <= i < |ps| => ps[i].value)
  }

  function LengthRank(p: Indexed): nat { |p.value.fullPath| }

  function KeyRank(p: Indexed): nat { p.key }

  predicate SortedBy(s: seq<Indexed>, rank: Indexed -> nat) {
    forall i, j :: 0 <= i < j < |s| ==> rank(s[i]) <= rank(s[j])
  }

  /** Inserts `x` after every element of `s` that does not rank above it. */
  function InsertBy(x: Indexed, s: seq<Indexed>, rank: Indexed -> nat): (r: seq<Indexed>)
    ensures multiset(r) == multiset(s) + multiset{x}
  {
    if s == [] then [x]
    else if rank(x) < rank(s[0]) then [x] + s
    else
      assert s == [s[0]] + s[1..];
      [s[0]] + InsertBy(x, s[1..], rank)
  }

  lemma {:induction false} InsertBySorted(x: Indexed, s: seq<Indexed>, rank: Indexed -> nat)
    requires SortedBy(s, rank)
    ensures SortedBy(InsertBy(x, s, rank), rank)
  {
    if s != [] && rank(x) >= rank(s[0]) {
      InsertBySorted(x, s[1..], rank);
      InsertByAbove(x, s[1..], rank, rank(s[0]));
    }
  }

  /** Inserting into elements that all rank at least `b` an element that does keeps that bound. */
  lemma {:induction false} InsertByAbove(x: Indexed, s: seq<Indexed>, rank: Indexed -> nat, b: nat)
    requires rank(x) >= b
    requires forall k :: 0 <= k < |s| ==> rank(s[k]) >= b
    ensures forall k :: 0 <= k < |InsertBy(x, s, rank)| ==> rank(InsertBy(x, s, rank)[k]) >= b
  {
    if s != [] && rank(x) >= rank(s[0]) {
      InsertByAbove(x, s[1..], rank, b);
    }
  }

  /** `OrderBy(rank)`: a stable sort, an insertion sort of the elements in input order. */
  function OrderBy(ps: seq<Indexed>, rank: Indexed -> nat): (r: seq<Indexed>)
    ensures multiset(r) == multiset(ps)
    ensures SortedBy(r, rank)
    decreases |ps|
  {
    if ps == [] then []
    else
      assert ps == ps[..|ps| - 1] + [ps[|ps| - 1]];
      InsertBySorted(ps[|ps| - 1], OrderBy(ps[..|ps| - 1], rank), rank);
      InsertBy(ps[|ps| - 1], OrderBy(ps[..|ps| - 1], rank), rank)
  }

  /** The pairs of `ps` whose event survives within `all`, in their order. */
  function KeptPairs(ps: seq<Indexed>, all: seq<FileChangedEvent>): seq<Indexed>
    decreases |ps|
  {
    if ps == [] then []
    else
      var last := ps[|ps| - 1];
      KeptPairs(ps[..|ps| - 1], all) + (if Suppressed(last.value, all) then [] else [last])
  }

  /** Some path of `deletedPaths` is `p` itself or a parent directory of `p`. */
  predicate Covered(p: string, deletedPaths: seq<string>) {
    exists d :: d in deletedPaths && (d == p || IsParent(p, d))
  }

  /**
   * The overload `IsParent(FileChangedEvent, List<string>)` used as the `Where`
   * predicate: true keeps the event; a kept DELETED event records its path.
   */
  method KeepUnlessParentDeleted(e: FileChangedEvent, deletedPaths: seq<string>)
    returns (keep: bool, newDeletedPaths: seq<string>)
    ensures keep <==> !(e.changeType == DELETED && exists d :: d in deletedPaths && IsParent(e.fullPath, d))
    ensures newDeletedPaths == if e.changeType == DELETED && keep then deletedPaths + [e.fullPath] else deletedPaths
  {
    newDeletedPaths := deletedPaths;
    if e.changeType == DELETED {
      if exists d :: d in deletedPaths && IsParent(e.fullPath, d) {
        return false, deletedPaths;
      }
      newDeletedPaths := deletedPaths + [e.fullPath];
    }
    keep := true;
  }

  /**
   * `FilterDeleted`: number the events, walk them shortest path first keeping
   * a DELETED event only when no kept deleted path is its parent, then put the
   * kept events back in their original order.
   */
  method FilterDeleted(eventsWithoutDuplicates: seq<FileChangedEvent>) returns (r: seq<FileChangedEvent>)
    ensures r == WithoutNestedDeletes(eventsWithoutDuplicates)
  {
    var xs := eventsWithoutDuplicates;
    var byLength := OrderBy(Enumerate(xs), LengthRank);
    var kept := WalkByLength(xs, byLength);
    var restored := OrderBy(kept, KeyRank);
    RestoreOriginalOrder(xs, byLength);
    r := Values(restored);
  }

  /**
   * The `Where` over the events sorted by path length, with the list of
   * deleted paths it fills as it goes: the kept pairs are exactly those whose
   * event the reference definition lets survive.
   */
  method WalkByLength(xs: seq<FileChangedEvent>, byLength: seq<Indexed>) returns (kept: seq<Indexed>)
    requires multiset(byLength) == multiset(Enumerate(xs))
    requires SortedBy(byLength, LengthRank)
    ensures kept == KeptPairs(byLength, xs)
  {
    var deletedPaths: seq<string> := [];
    kept := [];
    for k := 0 to |byLength|
      invariant kept == KeptPairs(byLength[..k], xs)
      invariant forall d :: d in deletedPaths ==> DeletedPathOf(d, xs)
      invariant forall j :: 0 <= j < k && byLength[j].value.changeType == DELETED ==>
                  Covered(byLength[j].value.fullPath, deletedPaths)
    {
      var e := byLength[k];
      WalkStep(xs, byLength, k, deletedPaths);
      var keep, newDeletedPaths := KeepUnlessParentDeleted(e.value, deletedPaths);
      CoveredAfterStep(xs, byLength, k, deletedPaths, newDeletedPaths);
      deletedPaths := newDeletedPaths;
      assert byLength[..k + 1][..k] == byLength[..k];
      if keep {
        kept := kept + [e];
      }
    }
    assert byLength[..|byLength|] == byLength;
  }

  // ---------------------------------------------------------------------------
  // Proof that the walk computes the reference definition
  // ---------------------------------------------------------------------------

  lemma IsParentIsPrefix(p: string, candidate: string)
    ensures IsParent(p, candidate) <==> candidate + ['\\'] <= p
  {
    var sub := candidate + ['\\'];
    if sub <= p {
      assert p[0..|sub|] == sub;
    }
  }

  /** A parent directory's path is strictly shorter. */
  lemma ParentIsShorter(p: string, d: string)
    requires IsParent(p, d)
    ensures |d| < |p|
  {
    IsParentIsPrefix(p, d);
  }

  /** A parent of a parent is a parent. */
  lemma ParentTransitive(p: string, q: string, d: string)
    requires IsParent(p, q) && IsParent(q, d)
    ensures IsParent(p, d)
  {
    IsParentIsPrefix(p, q);
    IsParentIsPrefix(q, d);
    IsParentIsPrefix(p, d);
    var sub := d + ['\\'];
    assert q[..|sub|] == sub;
    assert p[..|q|] == q;
    assert p[..|sub|] == q[..|sub|];
  }

  /** No path is its own parent. */
  lemma NotOwnParent(p: string)
    ensures !IsParent(p, p)
  {
    if IsParent(p, p) {
      ParentIsShorter(p, p);
    }
  }

  /**
   * At step `k` of the walk, the `Where` predicate drops the event exactly when
   * the reference definition suppresses it: every deleted parent is at least
   * one character shorter, so it was visited earlier and is covered by a kept
   * deleted path, which is then a parent too.
   */
  lemma WalkStep(xs: seq<FileChangedEvent>, byLength: seq<Indexed>, k: int, deletedPaths: seq<string>)
    requires multiset(byLength) == multiset(Enumerate(xs))
    requires SortedBy(byLength, LengthRank)
    requires 0 <= k < |byLength|
    requires forall d :: d in deletedPaths ==> DeletedPathOf(d, xs)
    requires forall j :: 0 <= j < k && byLength[j].value.changeType == DELETED ==>
               Covered(byLength[j].value.fullPath, deletedPaths)
    ensures byLength[k].value in xs
    ensures Suppressed(byLength[k].value, xs) <==>
              (byLength[k].value.changeType == DELETED &&
               exists d :: d in deletedPaths && IsParent(byLength[k].value.fullPath, d))
  {
    var x := byLength[k].value;
    assert byLength[k] in multiset(Enumerate(xs));
    var i0 :| 0 <= i0 < |xs| && Enumerate(xs)[i0] == byLength[k];
    if Suppressed(x, xs) {
      var y :| y in xs && y.changeType == DELETED && IsParent(x.fullPath, y.fullPath);
      var i :| 0 <= i < |xs| && xs[i] == y;
      assert Enumerate(xs)[i] == Indexed(i, y);
      assert Indexed(i, y) in multiset(byLength);
      var j :| 0 <= j < |byLength| && byLength[j] == Indexed(i, y);
      ParentIsShorter(x.fullPath, y.fullPath);
      assert j < k;
      var d :| d in deletedPaths && (d == y.fullPath || IsParent(y.fullPath, d));
      if d != y.fullPath {
        ParentTransitive(x.fullPath, y.fullPath, d);
      }
    }
    if x.changeType == DELETED && exists d :: d in deletedPaths && IsParent(x.fullPath, d) {
      var d :| d in deletedPaths && IsParent(x.fullPath, d);
      assert DeletedPathOf(d, xs);
    }
  }

  /** The walk's bookkeeping of deleted paths after visiting position `k`. */
  lemma CoveredAfterStep(xs: seq<FileChangedEvent>, byLength: seq<Indexed>, k: int,
                         deletedPaths: seq<string>, newDeletedPaths: seq<string>)
    requires 0 <= k < |byLength| && byLength[k].value in xs
    requires forall d :: d in deletedPaths ==> DeletedPathOf(d, xs)
    requires forall j :: 0 <= j < k && byLength[j].value.changeType == DELETED ==>
               Covered(byLength[j].value.fullPath, deletedPaths)
    requires byLength[k].value.changeType == DELETED ==>
               newDeletedPaths == deletedPaths + [byLength[k].value.fullPath] ||
               (newDeletedPaths == deletedPaths && exists d :: d in deletedPaths && IsParent(byLength[k].value.fullPath, d))
    requires byLength[k].value.changeType != DELETED ==> newDeletedPaths == deletedPaths
    ensures forall d :: d in newDeletedPaths ==> DeletedPathOf(d, xs)
    ensures forall j :: 0 <= j < k + 1 && byLength[j].value.changeType == DELETED ==>
              Covered(byLength[j].value.fullPath, newDeletedPaths)
  {
    forall j | 0 <= j < k + 1 && byLength[j].value.changeType == DELETED
      ensures Covered(byLength[j].value.fullPath, newDeletedPaths)
    {
      var p := byLength[j].value.fullPath;
      if j < k {
        var d :| d in deletedPaths && (d == p || IsParent(p, d));
        assert d in newDeletedPaths;
      } else if newDeletedPaths == deletedPaths + [p] {
        assert p in newDeletedPaths;
      } else {
        var d :| d in deletedPaths && IsParent(p, d);
        assert d in newDeletedPaths;
      }
    }
  }

  /** The number of copies of `p` that survive the filter. */
  lemma {:induction false} KeptPairsCount(ps: seq<Indexed>, all: seq<FileChangedEvent>, p: Indexed)
    ensures multiset(KeptPairs(ps, all))[p] == if Suppressed(p.value, all) then 0 else multiset(ps)[p]
    decreases |ps|
  {
    if ps != [] {
      var init, last := ps[..|ps| - 1], ps[|ps| - 1];
      assert ps == init + [last];
      KeptPairsCount(init, all, p);
    }
  }

  predicate StrictlyByKey(s: seq<Indexed>) {
    forall i, j :: 0 <= i < j < |s| ==> s[i].key < s[j].key
  }

  /** Filtering the numbered events in their original order yields the surviving events. */
  lemma {:induction false} KeptValues(xs: seq<FileChangedEvent>, m: int)
    requires 0 <= m <= |xs|
    ensures Values(KeptPairs(Enumerate(xs)[..m], xs)) == Survivors(xs[..m], xs)
  {
    if m > 0 {
      KeptValues(xs, m - 1);
      var en := Enumerate(xs);
      assert en[..m][..m - 1] == en[..m - 1];
      assert xs[..m][..m - 1] == xs[..m - 1];
      var prev := KeptPairs(en[..m - 1], xs);
      var cur := KeptPairs(en[..m], xs);
      assert en[..m][m - 1] == Indexed(m - 1, xs[m - 1]);
      assert Survivors(xs[..m], xs) ==
             Survivors(xs[..m - 1], xs) + (if Suppressed(xs[m - 1], xs) then [] else [xs[m - 1]]);
      if !Suppressed(xs[m - 1], xs) {
        assert cur == prev + [Indexed(m - 1, xs[m - 1])];
        assert Values(cur) == Values(prev) + [xs[m - 1]];
      }
    }
  }

  /** ... and keeps the numbers increasing and below `m`. */
  lemma {:induction false} KeptInOriginalOrder(xs: seq<FileChangedEvent>, m: int)
    requires 0 <= m <= |xs|
    ensures StrictlyByKey(KeptPairs(Enumerate(xs)[..m], xs))
    ensures forall q :: q in KeptPairs(Enumerate(xs)[..m], xs) ==> q.key < m
  {
    if m > 0 {
      KeptInOriginalOrder(xs, m - 1);
      var en := Enumerate(xs);
      assert en[..m][..m - 1] == en[..m - 1];
      var prev := KeptPairs(en[..m - 1], xs);
      var cur := KeptPairs(en[..m], xs);
      assert en[..m][m - 1] == Indexed(m - 1, xs[m - 1]);
      assert cur == prev + (if Suppressed(xs[m - 1], xs) then [] else [Indexed(m - 1, xs[m - 1])]);
      forall q | q in cur ensures q.key < m {
        if q !in prev {
          assert q == Indexed(m - 1, xs[m - 1]);
        }
      }
      if !Suppressed(xs[m - 1], xs) {
        forall i, j | 0 <= i < j < |cur| ensures cur[i].key < cur[j].key {
          assert cur[i] == prev[i];
          if j == |prev| {
            assert prev[i] in prev;
          } else {
            assert cur[j] == prev[j];
          }
        }
      }
    }
  }

  /** A sorted sequence and a strictly sorted one with the same elements are equal. */
  lemma {:induction false} SortedByKeyUnique(a: seq<Indexed>, b: seq<Indexed>)
    requires SortedBy(a, KeyRank) && StrictlyByKey(b)
    requires multiset(a) == multiset(b)
    ensures a == b
    decreases |a|
  {
    assert |a| == |multiset(a)| == |multiset(b)| == |b|;
    if a != [] {
      SameHead(a, b);
      SameTailMultiset(a, b);
      SortedByKeyUnique(a[1..], b[1..]);
      assert a == [a[0]] + a[1..] && b == [b[0]] + b[1..];
    }
  }

  lemma SameHead(a: seq<Indexed>, b: seq<Indexed>)
    requires SortedBy(a, KeyRank) && StrictlyByKey(b)
    requires multiset(a) == multiset(b) && a != []
    ensures b != [] && a[0] == b[0]
  {
    assert a[0] in multiset(b);
    var j :| 0 <= j < |b| && b[j] == a[0];
    assert b[0] in multiset(a);
    var i :| 0 <= i < |a| && a[i] == b[0];
    assert KeyRank(a[0]) <= KeyRank(a[i]);
    assert j == 0;
  }

  lemma SameTailMultiset(a: seq<Indexed>, b: seq<Indexed>)
    requires a != [] && b != [] && a[0] == b[0]
    requires multiset(a) == multiset(b)
    ensures multiset(a[1..]) == multiset(b[1..])
  {
    assert a == [a[0]] + a[1..] && b == [b[0]] + b[1..];
    assert multiset(a) == multiset{a[0]} + multiset(a[1..]);
    assert multiset(b) == multiset{b[0]} + multiset(b[1..]);
    forall p ensures multiset(a[1..])[p] == multiset(b[1..])[p] {
      assert multiset(a)[p] == multiset{a[0]}[p] + multiset(a[1..])[p];
      assert multiset(b)[p] == multiset{a[0]}[p] + multiset(b[1..])[p];
    }
  }

  /** Sorting the kept pairs by key restores the reference result. */
  lemma RestoreOriginalOrder(xs: seq<FileChangedEvent>, byLength: seq<Indexed>)
    requires multiset(byLength) == multiset(Enumerate(xs))
    ensures Values(OrderBy(KeptPairs(byLength, xs), KeyRank)) == WithoutNestedDeletes(xs)
  {
    var en := Enumerate(xs);
    var expected := KeptPairs(en, xs);
    var restored := OrderBy(KeptPairs(byLength, xs), KeyRank);
    assert multiset(KeptPairs(byLength, xs)) == multiset(expected) by {
      forall p ensures multiset(KeptPairs(byLength, xs))[p] == multiset(expected)[p] {
        KeptPairsCount(byLength, xs, p);
        KeptPairsCount(en, xs, p);
      }
    }
    KeptValues(xs, |xs|);
    KeptInOriginalOrder(xs, |xs|);
    assert en[..|xs|] == en && xs[..|xs|] == xs;
    SortedByKeyUnique(restored, expected);
  }

  // ---------------------------------------------------------------------------
  // The normaliser object
  // ---------------------------------------------------------------------------

  /**
   * One normaliser owns one repository; `Normalize` merges a batch into it and
   * returns the repository's events without nested deletions.
   */
  class EventNormalizer {
    const eventRepo: FileEventRepository

    constructor ()
      ensures fresh(eventRepo)
      ensures eventRepo.Valid() && eventRepo.entries == []
    {
      eventRepo := new FileEventRepository();
    }

    method Normalize(events: seq<FileChangedEvent>) returns (r: seq<FileChangedEvent>)
      requires eventRepo.Valid()
      modifies eventRepo
      ensures eventRepo.Valid()
      ensures eventRepo.entries == Merged(old(eventRepo.entries), events)
      ensures r == WithoutNestedDeletes(eventRepo.entries)
    {
      NormalizeDuplicates(events);
      r := FilterDeleted(eventRepo.Events());
    }

    /** The merge loop over the batch, in order. */
    method NormalizeDuplicates(events: seq<FileChangedEvent>)
      requires eventRepo.Valid()
      modifies eventRepo
      ensures eventRepo.Valid()
      ensures eventRepo.entries == Merged(old(eventRepo.entries), events)
    {
      for i := 0 to |events|
        invariant eventRepo.Valid()
        invariant eventRepo.entries == Merged(old(eventRepo.entries), events[..i])
      {
        assert events[..i + 1][..i] == events[..i];
        MergeOne(events[i]);
      }
      assert events[..|events|] == events;
    }

    /**
     * The body of the merge loop for one event. The `switch` is written out as
     * the chain of its cases in source order, so a case whose guard fails
     * falls to the next one.
     */
    method MergeOne(newEvent: FileChangedEvent)
      requires eventRepo.Valid()
      modifies eventRepo
      ensures eventRepo.Valid()
      ensures eventRepo.entries == Step(old(eventRepo.entries), newEvent)
    {
      ghost var before := eventRepo.entries;
      var oldEvent := eventRepo.Find(Some(newEvent.fullPath));
      var renameFromEvent := None;
      if newEvent.changeType == RENAMED {
        renameFromEvent := eventRepo.Find(newEvent.oldFullPath);
      }
      assert renameFromEvent == RenameSource(before, newEvent);
      ghost var rule := SelectRule(newEvent, oldEvent, renameFromEvent);
      assert Step(before, newEvent) == Apply(rule, before, newEvent, oldEvent, renameFromEvent);
      ApplyCases(rule, before, newEvent, oldEvent, renameFromEvent);
      if newEvent.changeType == CHANGED && KindIs(oldEvent, CREATED) {
        // CREATED followed by CHANGED stays CREATED
        assert rule == CreatedThenChanged;
      } else if newEvent.changeType == DELETED && KindIs(oldEvent, CREATED) {
        assert rule == CreatedThenDeleted;
        eventRepo.Remove(oldEvent.value);
      } else if newEvent.changeType == CREATED && KindIs(oldEvent, DELETED) {
        assert rule == DeletedThenCreated;
        eventRepo.AddOrUpdate(oldEvent.value.(changeType := CHANGED));
      } else if newEvent.changeType == RENAMED && KindIs(oldEvent, DELETED) && KindIs(renameFromEvent, CREATED) {
        assert rule == RenameOntoDeletedFromCreated;
        var renamed := newEvent.(changeType := CHANGED, oldFullPath := None);
        ReplaceRenamed(renamed, renameFromEvent.value);
      } else if newEvent.changeType == RENAMED && KindIs(renameFromEvent, CREATED) {
        assert rule == RenameFromCreated;
        var renamed := newEvent.(changeType := CREATED, oldFullPath := None);
        ReplaceRenamed(renamed, renameFromEvent.value);
      } else if newEvent.changeType == RENAMED && KindIs(renameFromEvent, RENAMED) {
        assert rule == RenameOfRenamed;
        var renamed := newEvent.(oldFullPath := renameFromEvent.value.oldFullPath);
        ReplaceRenamed(renamed, renameFromEvent.value);
      } else if newEvent.changeType == LOG {
        // LOG is not a file-system change
        assert rule == IgnoreLog;
      } else {
        assert rule == Default;
        eventRepo.AddOrUpdate(newEvent);
      }
    }

    /** A rename case: the event is stored under its new path and the entry it was renamed from removed. */
    method ReplaceRenamed(renamed: FileChangedEvent, source: FileChangedEvent)
      requires eventRepo.Valid()
      modifies eventRepo
      ensures eventRepo.Valid()
      ensures eventRepo.entries == Without(Upsert(old(eventRepo.entries), renamed), source.fullPath)
    {
      eventRepo.AddOrUpdate(renamed);
      eventRepo.Remove(source);
    }
  }
}
