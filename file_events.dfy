/**
 * The event record that flows through the pipeline: one raw notification from a
 * file-system watcher, and, after normalisation, one semantic event.
 */
module FileEvents {

  datatype Option<+T> = None | Some(value: T) {
    function GetOr(default: T): T {
      match this
      case Some(v) => v
      case None => default
    }
  }

  /** The kinds of change a watcher reports; LOG is not a file-system change. */
  datatype ChangeType = CREATED | CHANGED | DELETED | RENAMED | LOG

  /** A change to `fullPath`; `oldFullPath` is the path before a rename (null elsewhere). */
  datatype FileChangedEvent = FileChangedEvent(
    changeType: ChangeType,
    fullPath: string,
    oldFullPath: Option<string>)

  /** `o?.ChangeType == kind` in the source: false when there is no event. */
  predicate KindIs(o: Option<FileChangedEvent>, kind: ChangeType) {
    o.Some? && o.value.changeType == kind
  }

  /** No two events of `es` share a full path. */
  predicate UniquePaths(es: seq<FileChangedEvent>) {
    forall i, j :: 0 <= i < j < |es| ==> es[i].fullPath != es[j].fullPath
  }

  /** No event of `es` is a LOG event. */
  predicate NoLog(es: seq<FileChangedEvent>) {
    forall i :: 0 <= i < |es| ==> es[i].changeType != LOG
  }

  /** `a` is `b` with some elements left out, the rest in the same order. */
  predicate IsSubsequence<T(==)>(a: seq<T>, b: seq<T>)
    decreases |b|
  {
    if a == [] then true
    else if b == [] then false
    else if a[|a| - 1] == b[|b| - 1] then IsSubsequence(a[..|a| - 1], b[..|b| - 1])
    else IsSubsequence(a, b[..|b| - 1])
  }
}
