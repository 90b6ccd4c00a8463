/**
 * The path-keyed event repository of one normalisation pass
 * (`EventNormalizer.FileEventRepository`). The dictionary is modelled as an
 * insertion-ordered sequence whose entries have pairwise distinct full paths:
 * a new key is appended, an existing key is rewritten where it stands.
 */
module Repository {
  import opened FileEvents

  /** Position of the entry for `path` in `es`, or -1 when `path` is not a key. */
  function PathIndex(es: seq<FileChangedEvent>, path: string): (r: int)
    ensures -1 <= r < |es|
    ensures r >= 0 ==> es[r].fullPath == path
    ensures r >= 0 ==> forall j :: 0 <= j < r ==> es[j].fullPath != path
    ensures r < 0 <==> forall j :: 0 <= j < |es| ==> es[j].fullPath != path
  {
    if es == [] then -1
    else if es[0].fullPath == path then 0
    else
      var k := PathIndex(es[1..], path);
      if k < 0 then -1 else k + 1
  }

  /** `TryGetValue`: the entry stored under `path`, if any. */
  function Lookup(es: seq<FileChangedEvent>, path: string): (r: Option<FileChangedEvent>)
    ensures r.Some? ==> r.value in es && r.value.fullPath == path
    ensures r.None? <==> forall j :: 0 <= j < |es| ==> es[j].fullPath != path
  {
    var i := PathIndex(es, path);
    if i >= 0 then Some(es[i]) else None
  }

  /**
   * `AddOrUpdate`: an entry already stored under `e.fullPath` takes the kind and
   * the old path of `e` and keeps its position; otherwise `e` is appended.
   */
  function Upsert(es: seq<FileChangedEvent>, e: FileChangedEvent): (r: seq<FileChangedEvent>)
    ensures UniquePaths(es) ==> UniquePaths(r)
    ensures Lookup(r, e.fullPath) == Some(e)
    ensures forall p :: p != e.fullPath ==> Lookup(r, p) == Lookup(es, p)
    ensures forall j :: 0 <= j < |r| ==> r[j] == e || r[j] in es
  {
    var i := PathIndex(es, e.fullPath);
    if i >= 0 then
      var r := es[i := es[i].(changeType := e.changeType, oldFullPath := e.oldFullPath)];
      assert r[i] == e;
      assert forall p :: PathIndex(r, p) == PathIndex(es, p) by {
        forall p ensures PathIndex(r, p) == PathIndex(es, p) {
          PathIndexDeterminedByPaths(r, es, p);
        }
      }
      r
    else
      var r := es + [e];
      PathIndexOfAppend(es, e, e.fullPath);
      assert r[|es|] == e;
      assert forall p :: p != e.fullPath ==> PathIndex(r, p) == PathIndex(es, p) by {
        forall p | p != e.fullPath ensures PathIndex(r, p) == PathIndex(es, p) {
          PathIndexOfAppend(es, e, p);
        }
      }
      r
  }

  /** `Remove`: the entries of `es` without the one stored under `path`. */
  function Without(es: seq<FileChangedEvent>, path: string): (r: seq<FileChangedEvent>)
    ensures forall j :: 0 <= j < |r| ==> r[j] in es && r[j].fullPath != path
    ensures IsSubsequence(r, es)
    decreases |es|
  {
    if es == [] then []
    else
      var init, last := es[..|es| - 1], es[|es| - 1];
      var rest := Without(init, path);
      if last.fullPath == path then
        SubsequenceOfLonger(rest, init, last);
        assert init + [last] == es;
        rest
      else
        var r := rest + [last];
        assert r[..|r| - 1] == rest;
        r
  }

  lemma {:induction false} LookupWithout(es: seq<FileChangedEvent>, path: string, p: string)
    ensures Lookup(Without(es, path), p) == if p == path then None else Lookup(es, p)
    decreases |es|
  {
    if es != [] {
      var init, last := es[..|es| - 1], es[|es| - 1];
      assert init + [last] == es;
      LookupWithout(init, path, p);
      LookupOfAppend(init, last, p);
      if last.fullPath != path {
        LookupOfAppend(Without(init, path), last, p);
      }
    }
  }

  lemma {:induction false} UniqueWithout(es: seq<FileChangedEvent>, path: string)
    requires UniquePaths(es)
    ensures UniquePaths(Without(es, path))
    decreases |es|
  {
    if es != [] {
      var init, last := es[..|es| - 1], es[|es| - 1];
      assert init + [last] == es;
      UniqueWithout(init, path);
      var rest := Without(init, path);
      if last.fullPath != path {
        forall j | 0 <= j < |rest| ensures rest[j].fullPath != last.fullPath {
          var k :| 0 <= k < |init| && init[k] == rest[j];
        }
      }
    }
  }

  /** Two sequences with the same paths position by position have the same index function. */
  lemma {:induction false} PathIndexDeterminedByPaths(a: seq<FileChangedEvent>, b: seq<FileChangedEvent>, p: string)
    requires |a| == |b|
    requires forall j :: 0 <= j < |a| ==> a[j].fullPath == b[j].fullPath
    ensures PathIndex(a, p) == PathIndex(b, p)
  {
    if a != [] {
      PathIndexDeterminedByPaths(a[1..], b[1..], p);
    }
  }

  /** Appending an entry with another path does not move the index of `p`. */
  lemma PathIndexOfAppend(es: seq<FileChangedEvent>, e: FileChangedEvent, p: string)
    ensures PathIndex(es + [e], p) ==
      (if PathIndex(es, p) >= 0 then PathIndex(es, p) else if e.fullPath == p then |es| else -1)
  {
    var r := es + [e];
    var i, k := PathIndex(r, p), PathIndex(es, p);
    if k >= 0 {
      assert r[k] == es[k];
    } else if e.fullPath == p {
      assert r[|es|] == e;
    }
  }

  lemma LookupOfAppend(es: seq<FileChangedEvent>, e: FileChangedEvent, p: string)
    ensures Lookup(es + [e], p) ==
      (if Lookup(es, p).Some? then Lookup(es, p) else if e.fullPath == p then Some(e) else None)
  {
    PathIndexOfAppend(es, e, p);
    var r := es + [e];
    if PathIndex(es, p) >= 0 {
      assert r[PathIndex(es, p)] == es[PathIndex(es, p)];
    }
  }

  lemma {:induction false} SubsequenceOfLonger<T>(a: seq<T>, b: seq<T>, x: T)
    requires IsSubsequence(a, b)
    ensures IsSubsequence(a, b + [x])
    decreases |b|, 1
  {
    var c := b + [x];
    assert c[..|c| - 1] == b;
    if a != [] && a[|a| - 1] == x {
      SubsequenceDropLast(a, b);
    }
  }

  lemma {:induction false} SubsequenceDropLast<T>(a: seq<T>, b: seq<T>)
    requires a != [] && IsSubsequence(a, b)
    ensures IsSubsequence(a[..|a| - 1], b)
    decreases |b|, 0
  {
    var a' := a[..|a| - 1];
    if a' != [] {
      if a[|a| - 1] == b[|b| - 1] {
        SubsequenceOfLonger(a', b[..|b| - 1], b[|b| - 1]);
        assert b[..|b| - 1] + [b[|b| - 1]] == b;
      } else {
        SubsequenceDropLast(a, b[..|b| - 1]);
        SubsequenceOfLonger(a', b[..|b| - 1], b[|b| - 1]);
        assert b[..|b| - 1] + [b[|b| - 1]] == b;
      }
    }
  }

  /** With distinct paths, the entry stored under a path is the one at its position. */
  lemma LookupAt(es: seq<FileChangedEvent>, i: int)
    requires UniquePaths(es) && 0 <= i < |es|
    ensures PathIndex(es, es[i].fullPath) == i
    ensures Lookup(es, es[i].fullPath) == Some(es[i])
  {
  }

  /** Updating an existing key rewrites that entry where it stands. */
  lemma UpsertExistingKeepsPosition(es: seq<FileChangedEvent>, e: FileChangedEvent, i: int)
    requires UniquePaths(es) && 0 <= i < |es| && es[i].fullPath == e.fullPath
    ensures Upsert(es, e) == es[i := e]
  {
    LookupAt(es, i);
  }

  /** Adding a new key appends it after every existing entry. */
  lemma UpsertNewAppends(es: seq<FileChangedEvent>, e: FileChangedEvent)
    requires Lookup(es, e.fullPath) == None
    ensures Upsert(es, e) == es + [e]
  {
  }

  /**
   * The repository object. Its dictionary is the field `entries`, which the
   * methods reassign.
   */
  class FileEventRepository {
    var entries: seq<FileChangedEvent>

    ghost predicate Valid()
      reads this
    {
      UniquePaths(entries)
    }

    constructor ()
      ensures Valid() && entries == []
    {
      entries := [];
    }

    method AddOrUpdate(newEvent: FileChangedEvent)
      requires Valid()
      modifies this
      ensures Valid()
      ensures entries == Upsert(old(entries), newEvent)
    {
      entries := Upsert(entries, newEvent);
    }

    method Remove(ev: FileChangedEvent)
      requires Valid()
      modifies this
      ensures Valid()
      ensures entries == Without(old(entries), ev.fullPath)
    {
      UniqueWithout(entries, ev.fullPath);
      entries := Without(entries, ev.fullPath);
    }

    /** A null path is looked up as the empty string. */
    method Find(path: Option<string>) returns (r: Option<FileChangedEvent>)
      ensures r.Some? ==> r.value in entries && r.value.fullPath == path.GetOr("")
      ensures r.None? <==> forall j :: 0 <= j < |entries| ==> entries[j].fullPath != path.GetOr("")
      ensures r == Lookup(entries, path.GetOr(""))
    {
      r := Lookup(entries, path.GetOr(""));
    }

    /** The stored events in insertion order. */
    function Events(): (r: seq<FileChangedEvent>)
      requires Valid()
      reads this
      ensures UniquePaths(r)
    {
      entries
    }
  }
}
