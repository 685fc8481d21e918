# git-issue-diff, modelled in Dafny

`generate-diff.py` reads a configuration listing repositories, and for every
active one clones it, works out the commits between a configured start and
end revision, and prints the issue-tracker keys (for example `PROJ-123`)
that the messages of those commits mention. This project models the part of
that script with real semantics and proves properties of it:

- **Range resolution** (`commits_between_start_and_end`): both optional
  bounds are resolved through the repository (start first, then end); an
  unknown revision is an error that propagates. The commits are walked
  newest-first from the end commit, or from HEAD when there is no end; each
  is appended and the walk stops right after the commit whose sha is the
  start sha. The list is then reversed, so the result is oldest-first.
- **Issue-key extraction** (the loops in `execute`): the messages of the
  range are collected in order, and every `re.findall` match of every message
  is added to a set.
- **Configuration and driver**: `RepositoryDefinition.__init__` with its
  optional `diff` object, the skip of inactive definitions, and `short_sha`.

Git and Python's regular expressions are not modelled. A repository is a
datatype `Git.Repository` with two function fields: a partial revision
lookup `resolve` (`repository.commit`) and a finite newest-first walk
`iterCommits` (`repository.iter_commits`, where None means HEAD). `re.findall`
is a function parameter of type `KeyExtraction.FindAll`, and cloning is a
function parameter of type `Execution.Clone`.

Modules: `Wrappers` (Option, Result), `Git` (commits, the repository handle,
`short_sha`), `Definitions` (the configuration record), `RangeResolution`,
`KeyExtraction`, `Execution` (the `execute` loop), and `Scenarios` (a linear
five-commit repository and the ranges resolved in it).

Each loop of the source is a `while` loop in a method proved against a
specification function: `RangeResolution.WalkThroughStart` against
`CollectThrough`, `KeyExtraction.ExtractIssueKeys` against `IssueKeys`,
`Execution.Execute` against `Run`. The lemmas then state the properties of
those functions.

Three behaviours of the code are kept as they are and stated explicitly:

- The start commit is included in the range. The walk stops after appending
  it, so it is the first element of the result.
- A start revision that resolves but is never reached (it is not an
  ancestor of the end) does not fail and does not give an empty list. The
  walk is not cut, and the whole history reachable from the end is returned.
  `RangeResolution.RangeStartNotReached` states this behaviour.
- A revision that does not resolve raises, and nothing in `execute` catches
  it. The whole run stops at the first such definition: `Execution.Run` is
  then that error, with no reports.

## Model

| member | source | states |
|---|---|---|
| `Git.PrefixSlice` | generate-diff.py:88 | Python's `s[:n]`: the result is a prefix of `s` of length min(n, len(s)) for a non-negative n, and max(0, len(s) + n) for a negative n |
| `Git.ShortSha` | generate-diff.py:87-88 | the short sha is a prefix of the commit's sha, of length min(length, len(sha)); the default length is 10 |
| `Definitions.FromData` | generate-diff.py:15-23 | name, url and active are copied; without a diff object start and end are None; with one, each bound is the value at its key and None when the key is missing |
| `Definitions.ToData` | generate-diff.py:21-23 | a configuration entry carrying a definition's bounds has a diff object exactly when one of the bounds is present |
| `Definitions.FromDataToData` | generate-diff.py:15-23 | building a definition from the entry made of a definition gives that definition back |
| `Definitions.FromDataReadsOnlyBounds` | generate-diff.py:21-23 | only the `start` and `end` keys of the diff object affect the definition |
| `RangeResolution.IsStop` | generate-diff.py:56-77 | the stop test `commit.hexsha == start_commit_hexsha`: with no start sha no commit stops the walk, and a stop commit has exactly the start sha |
| `RangeResolution.CollectThrough` | generate-diff.py:74-78 | the appended commits form a prefix of the walk, no longer than it, and non-empty when the walk is non-empty |
| `RangeResolution.CollectThroughIsStopPrefix` | generate-diff.py:74-78 | the appended list is a prefix of the walk in which no commit before the last has the start sha, and which is the whole walk or ends at the start commit |
| `RangeResolution.StopPrefixUnique` | generate-diff.py:74-78 | any prefix with that description is the appended list, so it is the shortest prefix ending at the start commit |
| `RangeResolution.CollectThroughCharacterized` | generate-diff.py:74-78 | a list is the appended list if and only if it is such a prefix |
| `RangeResolution.CollectThroughFound` | generate-diff.py:76-78 | when the first commit with the start sha is at index k, the appended list is the walk's first k+1 commits |
| `RangeResolution.CollectThroughNotFound` | generate-diff.py:75-78 | when no commit has the start sha the whole walk is appended |
| `RangeResolution.Reverse` | generate-diff.py:79 | the reversed list has the same length and its i-th element is the original's element at `n-1-i` |
| `RangeResolution.ReverseReverse` | generate-diff.py:79 | reversing twice gives the original list |
| `RangeResolution.ResolveRevision` | generate-diff.py:56-59 | an absent revision stays absent; a present one that names no commit fails with `RevisionNotFound` naming it; otherwise it is the commit the repository returns |
| `RangeResolution.ResolveBound` | generate-diff.py:57-59 | the lookup of one bound returns exactly `ResolveRevision` |
| `RangeResolution.Walk` | generate-diff.py:64-75 | the walk starts from the resolved end commit's sha, or from HEAD when no end is given |
| `RangeResolution.Range` | generate-diff.py:55-84 | the range fails exactly when a given start or end does not resolve, reporting the start when it fails and else the end; a successful range is no longer than the walk |
| `RangeResolution.WalkThroughStart` | generate-diff.py:74-78 | the loop with its early exit appends exactly `CollectThrough` of the walk |
| `RangeResolution.CommitsBetweenStartAndEnd` | generate-diff.py:55-84 | the method returns exactly `Range` for the definition's bounds, error cases included |
| `RangeResolution.RangeIsReversedStopPrefix` | generate-diff.py:74-79 | reversing a successful range gives the unique stop prefix of the walk from the end commit or HEAD |
| `RangeResolution.RangeOldestFirst` | generate-diff.py:75-79 | the range is no longer than the walk, its i-th commit is the walk's commit at index len(range)-1-i, and its last commit is the first one walked |
| `RangeResolution.RangeWithoutStart` | generate-diff.py:56-77 | with no start revision every commit reachable from the end (or HEAD) is returned, oldest first |
| `RangeResolution.RangeStartReached` | generate-diff.py:74-79 | when the walk reaches the start commit at index k, the range is the reversed first k+1 commits of the walk; the start commit comes first and nothing older appears |
| `RangeResolution.RangeStartNotReached` | generate-diff.py:74-79 | when the start commit is never reached the range is the whole reversed walk, without error |
| `RangeResolution.RangeEndsAtEnd` | generate-diff.py:64-79 | when the walk from the resolved end commit starts at it, the end commit is the last commit of the range |
| `KeyExtraction.Messages` | generate-diff.py:37-39 | the messages list has one entry per commit, in the same order |
| `KeyExtraction.CollectMessages` | generate-diff.py:37-39 | the loop builds the commits' messages in order |
| `KeyExtraction.IssueKeys` | generate-diff.py:41-44 | the key set contains every match of every message; the exact membership, order and duplicate independence and emptiness are carried by the IssueKeys lemmas below |
| `KeyExtraction.IssueKeysMembership` | generate-diff.py:41-44 | a key is in the key set if and only if it is among the matches of some message |
| `KeyExtraction.IssueKeysIgnoreOrderAndDuplicates` | generate-diff.py:41-44 | two message lists with the same messages give the same key set, whatever the order and duplicates |
| `KeyExtraction.IssueKeysPermutation` | generate-diff.py:41-44 | permuting the messages does not change the key set |
| `KeyExtraction.IssueKeysEmpty` | generate-diff.py:41-44 | with no messages, or no matches in any message, the key set is empty |
| `KeyExtraction.IssueKeysAppend` | generate-diff.py:41-44 | the key set of two runs of messages is the union of their key sets |
| `KeyExtraction.ExtractIssueKeys` | generate-diff.py:41-44 | the nested loop builds exactly `IssueKeys`: the set of keys matched in some message |
| `Execution.ReportFor` | generate-diff.py:35-44 | a definition's report fails exactly when its range fails; otherwise it carries the definition's name, its range, and as issue keys exactly the keys matched in some message of the range |
| `Execution.Run` | generate-diff.py:26-44 | a successful run has as many reports as there are active definitions; the contents of the reports and the failure cases are carried by RunReports, RunFailure and RunSkipsInactive |
| `Execution.Execute` | generate-diff.py:26-44 | the loop over the definitions returns exactly `Run` of the configuration |
| `Execution.ActiveOnly` | generate-diff.py:27-29 | the kept definitions are exactly the active ones of the configuration: every kept one is active and from the configuration, and every active one is kept |
| `Execution.ActiveOnlyAppend` | generate-diff.py:27-29 | the filter preserves configuration order: filtering a concatenation is concatenating the filtered parts |
| `Execution.RunSkipsInactive` | generate-diff.py:27-29 | inactive definitions have no effect: the run equals the run over the active ones only |
| `Execution.RunReports` | generate-diff.py:26-44 | a successful run has one report per active definition, in configuration order, each that definition's report |
| `Execution.RunFailure` | generate-diff.py:27-38 | the run fails if and only if some active definition's range fails, and then with the error of the first one |
| `Scenarios.StartAndEnd` | generate-diff.py:55-84 | in a line c1..c5, start c2 and end c5 give `[c2, c3, c4, c5]` |
| `Scenarios.NoStart` | generate-diff.py:56-79 | no start and end c3 give `[c1, c2, c3]` |
| `Scenarios.NoEnd` | generate-diff.py:64-75 | no end walks from HEAD, the same as naming the tip c5 |
| `Scenarios.StartNotAncestor` | generate-diff.py:74-79 | start c4 with end c2 returns the whole history up to c2, `[c1, c2]` |
| `Scenarios.UnknownRevision` | generate-diff.py:57-66 | an unknown start or end fails naming it, the start taking precedence |
| `Scenarios.KeysOfStartAndEnd` | generate-diff.py:37-44 | with matches ABC-1 in c2 and ABC-2 in c4, the range c2..c5 yields the keys {ABC-1, ABC-2} |
| `Scenarios.KeysWithoutStart` | generate-diff.py:37-44 | the range c1..c3 yields only {ABC-1} |

## Left out

- `clone` (generate-diff.py:50-52): the shell `git clone` and the `Repo` construction are process and network I/O; `Execution.Execute` takes the resulting handle as a function parameter.
- All console output (generate-diff.py:31-33, 46-47, 60-62, 68-72, 81-82). `short_sha` is modelled although it only feeds that output. `Execution.Report` holds the repository name, the commit list and the issue keys printed for a repository (lines 32, 82, 47); the resolved start and end lines printed at lines 60 and 68 (revision, short sha and message of each bound) are not part of it, nor are the reports printed before a failing repository.
- The working directory, argument parsing, uuid, `mkdir`, `shutil.rmtree` in the try/finally and the JSON loading (generate-diff.py:91-115): filesystem and command-line plumbing.
- GitPython's `repository.commit` and `iter_commits` are abstract: the model does not relate the walks from different commits to one history graph, and exceptions other than an unknown revision are not modelled.
- The walk is a finite sequence, not a lazy iterator: that the source never reads past the start commit is not observable in the model.
- `re.findall` is an abstract function from pattern and message to the list of matches; Python's regular-expression engine, and its returning of groups for patterns with groups, are not modelled.
- The configuration is typed: `str()` and `bool()` coercions and the `KeyError` of a missing `name`, `url`, `active`, `repositories` or `issueKeyPattern` field are not modelled (the source reads `issueKeyPattern` only inside the inner loop at line 43, so there a missing pattern fails only once a range with a message is scanned; `Execution.Configuration` always carries one), and a bound in the diff object is either a string or null.
