/** Range resolution: the commits from a configured start revision up to a
    configured end revision (or HEAD), oldest first. */
module RangeResolution {
  import opened Wrappers
  import opened Git
  import opened Definitions

  datatype Error = RevisionNotFound(revision: string)

  /** The walk stops after the commit whose sha is the start sha. With no start
      sha (Python's None) no commit is ever equal to it. */
  predicate IsStop(c: Commit, stop: Option<string>): (r: bool)
    ensures stop.None? ==> !r
    ensures r ==> stop.value == c.sha
  {
    stop == Some(c.sha)
  }

  /** The commits the walk appends: everything up to and including the first
      stop commit, or the whole walk when there is none. */
  function CollectThrough(walk: seq<Commit>, stop: Option<string>): (r: seq<Commit>)
    ensures |r| <= |walk| && r == walk[..|r|]
    ensures walk != [] ==> r != []
  {
    if walk == [] then []
    else if IsStop(walk[0], stop) then [walk[0]]
    else [walk[0]] + CollectThrough(walk[1..], stop)
  }

  /** An independent description of the collected list: a prefix of the walk in
      which no commit but the last is a stop commit, and which is either the
      whole walk or ends at a stop commit. */
  ghost predicate IsStopPrefix(walk: seq<Commit>, stop: Option<string>, p: seq<Commit>)
  {
    && |p| <= |walk|
    && p == walk[..|p|]
    && (forall j :: 0 <= j < |p| - 1 ==> !IsStop(p[j], stop))
    && (|p| == |walk| || (|p| > 0 && IsStop(p[|p| - 1], stop)))
  }

  lemma {:induction false} CollectThroughIsStopPrefix(walk: seq<Commit>, stop: Option<string>)
    ensures IsStopPrefix(walk, stop, CollectThrough(walk, stop))
  {
    if walk != [] && !IsStop(walk[0], stop) {
      CollectThroughIsStopPrefix(walk[1..], stop);
    }
  }

  /** There is only one such prefix: the shortest one ending at a stop commit,
      or the whole walk. */
  lemma {:induction false} StopPrefixUnique(walk: seq<Commit>, stop: Option<string>, p: seq<Commit>)
    requires IsStopPrefix(walk, stop, p)
    ensures p == CollectThrough(walk, stop)
  {
    if walk == [] {
    } else if IsStop(walk[0], stop) {
      assert p[0] == walk[0];
      assert |p| == 1;
    } else {
      assert p != [] && p[0] == walk[0];
      var q := p[1..];
      assert q == walk[1..][..|q|];
      assert forall j :: 0 <= j < |q| - 1 ==> q[j] == p[j + 1];
      assert IsStopPrefix(walk[1..], stop, q);
      StopPrefixUnique(walk[1..], stop, q);
      assert p == [walk[0]] + q;
    }
  }

  /** The collected list is exactly the unique stop prefix of the walk. */
  lemma CollectThroughCharacterized(walk: seq<Commit>, stop: Option<string>, p: seq<Commit>)
    ensures p == CollectThrough(walk, stop) <==> IsStopPrefix(walk, stop, p)
  {
    CollectThroughIsStopPrefix(walk, stop);
    if IsStopPrefix(walk, stop, p) {
      StopPrefixUnique(walk, stop, p);
    }
  }

  /** A walk that reaches a stop commit at index k (and not before) is cut just
      after it. */
  lemma CollectThroughFound(walk: seq<Commit>, stop: Option<string>, k: nat)
    requires k < |walk| && IsStop(walk[k], stop)
    requires forall j :: 0 <= j < k ==> !IsStop(walk[j], stop)
    ensures CollectThrough(walk, stop) == walk[..k + 1]
  {
    StopPrefixUnique(walk, stop, walk[..k + 1]);
  }

  /** A walk that never reaches a stop commit is collected whole. */
  lemma CollectThroughNotFound(walk: seq<Commit>, stop: Option<string>)
    requires forall j :: 0 <= j < |walk| ==> !IsStop(walk[j], stop)
    ensures CollectThrough(walk, stop) == walk
  {
    assert walk[..|walk|] == walk;
    StopPrefixUnique(walk, stop, walk);
  }

  lemma CollectThroughStep(walk: seq<Commit>, stop: Option<string>, i: nat)
    requires i < |walk|
    ensures CollectThrough(walk[i..], stop) ==
      if IsStop(walk[i], stop) then [walk[i]] else [walk[i]] + CollectThrough(walk[i + 1..], stop)
  {
    assert walk[i..][1..] == walk[i + 1..];
  }

  /** `list.reverse()`. */
  function Reverse<T>(s: seq<T>): (r: seq<T>)
    ensures |r| == |s|
    ensures forall i :: 0 <= i < |s| ==> r[i] == s[|s| - 1 - i]
  {
    if s == [] then [] else Reverse(s[1..]) + [s[0]]
  }

  lemma ReverseReverse<T>(s: seq<T>)
    ensures Reverse(Reverse(s)) == s
  {
  }

  /** `repository.commit(rev)` for an optional revision: an absent revision
      stays absent, one that names no commit is an error. */
  function ResolveRevision(repo: Repository, rev: Option<string>): (r: Result<Option<Commit>, Error>)
    ensures r.Failure? <==> rev.Some? && repo.resolve(rev.value).None?
    ensures r.Failure? ==> r.error == RevisionNotFound(rev.value)
    ensures r.Success? ==> (r.value.Some? <==> rev.Some?)
    ensures r.Success? && rev.Some? ==> repo.resolve(rev.value) == r.value
  {
    match rev
    case None => Success(None)
    case Some(name) =>
      match repo.resolve(name)
      case None => Failure(RevisionNotFound(name))
      case Some(c) => Success(Some(c))
  }

  function ShaOf(c: Option<Commit>): Option<string>
  {
    if c.Some? then Some(c.value.sha) else None
  }

  /** The newest-first walk from the resolved end commit, or from HEAD. */
  function Walk(repo: Repository, endCommit: Option<Commit>): (r: seq<Commit>)
    ensures endCommit.None? ==> r == repo.iterCommits(None)
    ensures endCommit.Some? ==> r == repo.iterCommits(Some(endCommit.value.sha))
  {
    repo.iterCommits(ShaOf(endCommit))
  }

  /** Whether an optional revision is given but does not resolve. */
  predicate Unresolved(repo: Repository, rev: Option<string>)
  {
    rev.Some? && repo.resolve(rev.value).None?
  }

  /** What `commits_between_start_and_end` returns, or the error it raises. The
      start revision is resolved before the end revision, so its failure is the
      one reported when both fail. */
  function Range(repo: Repository, start: Option<string>, end: Option<string>): (r: Result<seq<Commit>, Error>)
    ensures r.Failure? <==> Unresolved(repo, start) || Unresolved(repo, end)
    ensures Unresolved(repo, start) ==> r == Failure(RevisionNotFound(start.value))
    ensures !Unresolved(repo, start) && Unresolved(repo, end) ==> r == Failure(RevisionNotFound(end.value))
    ensures r.Success? ==> |r.value| <= |Walk(repo, ResolveRevision(repo, end).value)|
  {
    match ResolveRevision(repo, start)
    case Failure(e) => Failure(e)
    case Success(startCommit) =>
      match ResolveRevision(repo, end)
      case Failure(e) => Failure(e)
      case Success(endCommit) =>
        Success(Reverse(CollectThrough(Walk(repo, endCommit), ShaOf(startCommit))))
  }

  /** `repository.commit(rev)` for a bound that may be missing: the source's
      two identical blocks for the start and the end bound, written once. Kept
      as a method so that `CommitsBetweenStartAndEnd` stays a short proof over
      the results of two calls. */
  method ResolveBound(repo: Repository, rev: Option<string>) returns (r: Result<Option<Commit>, Error>)
    ensures r == ResolveRevision(repo, rev)
  {
    if rev.None? {
      return Success(None);
    }
    var found := repo.resolve(rev.value);
    if found.None? {
      return Failure(RevisionNotFound(rev.value));
    }
    r := Success(found);
  }

  /** The walk with its early exit: append each commit, and stop right after
      appending the one whose sha is the start sha. */
  method WalkThroughStart(walk: seq<Commit>, startSha: Option<string>) returns (relevant: seq<Commit>)
    ensures relevant == CollectThrough(walk, startSha)
  {
    relevant := [];
    var i := 0;
    while i < |walk|
      invariant 0 <= i <= |walk|
      invariant relevant + CollectThrough(walk[i..], startSha) == CollectThrough(walk, startSha)
    {
      var c := walk[i];
      CollectThroughStep(walk, startSha, i);
      relevant := relevant + [c];
      i := i + 1;
      if Some(c.sha) == startSha {
        assert relevant == CollectThrough(walk, startSha);
        break;
      }
    }
    assert relevant == CollectThrough(walk, startSha);
  }

  /** `commits_between_start_and_end`: resolve the start bound, then the end
      bound, walk newest-first from the end (or HEAD) through the start commit,
      then reverse. */
  method CommitsBetweenStartAndEnd(repo: Repository, definition: RepositoryDefinition)
    returns (r: Result<seq<Commit>, Error>)
    ensures r == Range(repo, definition.start, definition.end)
  {
    var startCommit := ResolveBound(repo, definition.start);
    if startCommit.Failure? {
      return Failure(startCommit.error);
    }
    var startSha := ShaOf(startCommit.value);

    var endCommit := ResolveBound(repo, definition.end);
    if endCommit.Failure? {
      return Failure(endCommit.error);
    }
    var endSha := ShaOf(endCommit.value);

    var relevant := WalkThroughStart(repo.iterCommits(endSha), startSha);
    relevant := Reverse(relevant);
    r := Success(relevant);
  }

  /** Reversing the result gives back the collected list: the unique stop
      prefix of the walk from the end commit (or HEAD). */
  lemma RangeIsReversedStopPrefix(repo: Repository, start: Option<string>, end: Option<string>)
    requires Range(repo, start, end).Success?
    ensures IsStopPrefix(Walk(repo, ResolveRevision(repo, end).value),
                         ShaOf(ResolveRevision(repo, start).value),
                         Reverse(Range(repo, start, end).value))
  {
    var walk := Walk(repo, ResolveRevision(repo, end).value);
    var stop := ShaOf(ResolveRevision(repo, start).value);
    ReverseReverse(CollectThrough(walk, stop));
    CollectThroughIsStopPrefix(walk, stop);
  }

  /** The result is oldest first: its i-th commit is the walk's commit at
      distance i from the cut, and its last commit is the first one walked,
      the end commit or HEAD. */
  lemma RangeOldestFirst(repo: Repository, start: Option<string>, end: Option<string>)
    requires Range(repo, start, end).Success?
    ensures var cs := Range(repo, start, end).value;
            var walk := Walk(repo, ResolveRevision(repo, end).value);
            && |cs| <= |walk|
            && (forall i :: 0 <= i < |cs| ==> cs[i] == walk[|cs| - 1 - i])
            && (walk != [] ==> cs != [] && cs[|cs| - 1] == walk[0])
  {
  }

  /** With no start revision nothing stops the walk: every commit reachable
      from the end commit (or HEAD) is returned. */
  lemma RangeWithoutStart(repo: Repository, end: Option<string>)
    requires !Unresolved(repo, end)
    ensures Range(repo, None, end) == Success(Reverse(Walk(repo, ResolveRevision(repo, end).value)))
  {
    CollectThroughNotFound(Walk(repo, ResolveRevision(repo, end).value), None);
  }

  /** When the walk reaches the start commit (first at index k) the result is
      the walk up to it, reversed: the start commit comes first and nothing
      older than it appears. */
  lemma RangeStartReached(repo: Repository, start: string, end: Option<string>, k: nat)
    requires repo.resolve(start).Some? && !Unresolved(repo, end)
    requires var walk := Walk(repo, ResolveRevision(repo, end).value);
             && k < |walk| && walk[k].sha == repo.resolve(start).value.sha
             && forall j :: 0 <= j < k ==> walk[j].sha != repo.resolve(start).value.sha
    ensures var walk := Walk(repo, ResolveRevision(repo, end).value);
            var cs := Range(repo, Some(start), end).value;
            && Range(repo, Some(start), end).Success?
            && cs == Reverse(walk[..k + 1])
            && |cs| == k + 1
            && cs[0] == walk[k]
            && cs[0].sha == repo.resolve(start).value.sha
  {
    var walk := Walk(repo, ResolveRevision(repo, end).value);
    CollectThroughFound(walk, Some(repo.resolve(start).value.sha), k);
  }

  /** When the start commit is never reached (it is not an ancestor of the end
      commit) the walk is not cut: the whole reachable history is returned and
      no error is raised. */
  lemma RangeStartNotReached(repo: Repository, start: string, end: Option<string>)
    requires repo.resolve(start).Some? && !Unresolved(repo, end)
    requires var walk := Walk(repo, ResolveRevision(repo, end).value);
             forall j :: 0 <= j < |walk| ==> walk[j].sha != repo.resolve(start).value.sha
    ensures Range(repo, Some(start), end) == Success(Reverse(Walk(repo, ResolveRevision(repo, end).value)))
  {
    CollectThroughNotFound(Walk(repo, ResolveRevision(repo, end).value), Some(repo.resolve(start).value.sha));
  }

  /** When the walk from a resolved end commit starts at that commit, it is the
      last commit of the result. */
  lemma RangeEndsAtEnd(repo: Repository, start: Option<string>, end: string)
    requires !Unresolved(repo, start) && repo.resolve(end).Some?
    requires var e := repo.resolve(end).value;
             var walk := repo.iterCommits(Some(e.sha));
             walk != [] && walk[0] == e
    ensures var cs := Range(repo, start, Some(end)).value;
            && Range(repo, start, Some(end)).Success?
            && cs != [] && cs[|cs| - 1] == repo.resolve(end).value
  {
    RangeOldestFirst(repo, start, Some(end));
  }
}
