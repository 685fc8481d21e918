/** The repository handle the core consumes. Git itself is not modelled: a
    repository is only a partial revision lookup and a newest-first walk of the
    commits reachable from a commit (or from HEAD). */
module Git {
  import opened Wrappers

  /** A commit as the core sees it: its full hexadecimal sha and its message. */
  datatype Commit = Commit(sha: string, message: string)

  /** `resolve(rev)` is `repository.commit(rev)`: None when the revision does
      not name a commit (GitPython then raises).
      `iterCommits(from)` is `repository.iter_commits(from)`: the finite
      newest-first walk starting at the commit with sha `from`, or at HEAD when
      `from` is None. */
  datatype Repository = Repository(
    resolve: string -> Option<Commit>,
    iterCommits: Option<string> -> seq<Commit>)

  /** The source's default abbreviation length. */
  const ShortShaLength: int := 10

  /** `s[:n]` in Python: a negative bound counts from the end and a bound past
      the end is clamped. */
  function PrefixSlice<T>(s: seq<T>, n: int): (r: seq<T>)
    ensures r <= s
    ensures n >= 0 ==> |r| == if n <= |s| then n else |s|
    ensures n < 0 ==> |r| == if |s| + n >= 0 then |s| + n else 0
  {
    if n >= |s| then s
    else if n >= 0 then s[..n]
    else if |s| + n >= 0 then s[..|s| + n]
    else []
  }

  /** The abbreviated sha shown next to each commit. */
  function ShortSha(c: Commit, length: int := ShortShaLength): (r: string)
    ensures r <= c.sha
    ensures length >= 0 ==> |r| == if length <= |c.sha| then length else |c.sha|
  {
    PrefixSlice(c.sha, length)
  }
}
