/** The driver loop: for every active repository definition, resolve its
    commit range and collect the issue keys of the range's messages. */
module Execution {
  import opened Wrappers
  import opened Git
  import opened Definitions
  import opened RangeResolution
  import opened KeyExtraction

  /** The parts of the configuration file the core reads. */
  datatype Configuration = Configuration(issueKeyPattern: string, repositories: seq<DefinitionData>)

  /** What one processed repository contributes to the printed summary. */
  datatype Report = Report(name: string, commits: seq<Commit>, issueKeys: set<string>)

  /** `clone`: the working copy obtained for a definition. Cloning is not
      modelled; the handle it yields is given. */
  type Clone = RepositoryDefinition -> Repository

  /** The report for one active definition, or the error its range raises. */
  function ReportFor(clone: Clone, findAll: FindAll, pattern: string, d: RepositoryDefinition)
    : (r: Result<Report, Error>)
    ensures r.Failure? <==> Range(clone(d), d.start, d.end).Failure?
    ensures r.Success? ==> r.value.name == d.name && r.value.commits == Range(clone(d), d.start, d.end).value
    ensures r.Success? ==> r.value.issueKeys == IssueKeys(findAll, pattern, Messages(r.value.commits))
    ensures r.Success? ==> forall k :: k in r.value.issueKeys <==>
              exists i :: 0 <= i < |r.value.commits| && k in findAll(pattern, r.value.commits[i].message)
  {
    match Range(clone(d), d.start, d.end)
    case Failure(e) => Failure(e)
    case Success(cs) =>
      var keys := IssueKeys(findAll, pattern, Messages(cs));
      assert forall k :: k in keys <==> exists i :: 0 <= i < |cs| && k in findAll(pattern, cs[i].message) by {
        forall k ensures k in keys <==> exists i :: 0 <= i < |cs| && k in findAll(pattern, cs[i].message) {
          IssueKeysMembership(findAll, pattern, Messages(cs), k);
        }
      }
      Success(Report(d.name, cs, keys))
  }

  /** The result of `execute`: one report per active definition in order, or
      the first error raised, which ends the whole run. */
  function Run(clone: Clone, findAll: FindAll, pattern: string, entries: seq<DefinitionData>)
    : (r: Result<seq<Report>, Error>)
    ensures r.Success? ==> |r.value| == |ActiveOnly(entries)|
  {
    if entries == [] then Success([])
    else
      var d := FromData(entries[0]);
      if !d.active then Run(clone, findAll, pattern, entries[1..])
      else
        match ReportFor(clone, findAll, pattern, d)
        case Failure(e) => Failure(e)
        case Success(report) =>
          match Run(clone, findAll, pattern, entries[1..])
          case Failure(e) => Failure(e)
          case Success(reports) => Success([report] + reports)
  }

  /** The reports already produced, followed by those of the rest of the run. */
  function Prepend(done: seq<Report>, rest: Result<seq<Report>, Error>): Result<seq<Report>, Error>
  {
    match rest
    case Failure(e) => Failure(e)
    case Success(reports) => Success(done + reports)
  }

  lemma PrependStep(done: seq<Report>, report: Report, rest: Result<seq<Report>, Error>)
    ensures Prepend(done, Prepend([report], rest)) == Prepend(done + [report], rest)
  {
    if rest.Success? {
      assert done + ([report] + rest.value) == (done + [report]) + rest.value;
    }
  }

  /** `execute`: definitions that are not active are skipped; each active one
      is cloned, its range resolved, its messages collected and scanned. */
  method Execute(clone: Clone, findAll: FindAll, configuration: Configuration)
    returns (r: Result<seq<Report>, Error>)
    ensures r == Run(clone, findAll, configuration.issueKeyPattern, configuration.repositories)
  {
    var entries := configuration.repositories;
    var pattern := configuration.issueKeyPattern;
    var reports: seq<Report> := [];
    var i := 0;
    assert entries[i..] == entries;
    ghost var whole := Run(clone, findAll, pattern, entries);
    assert whole.Success? ==> [] + whole.value == whole.value;
    while i < |entries|
      invariant 0 <= i <= |entries|
      invariant Run(clone, findAll, pattern, entries) ==
                Prepend(reports, Run(clone, findAll, pattern, entries[i..]))
    {
      var definition := FromData(entries[i]);
      assert entries[i..][0] == entries[i] && entries[i..][1..] == entries[i + 1..];
      if !definition.active {
        i := i + 1;
        continue;
      }
      var repository := clone(definition);
      var commits := CommitsBetweenStartAndEnd(repository, definition);
      if commits.Failure? {
        assert Run(clone, findAll, pattern, entries[i..]) == Failure(commits.error);
        return Failure(commits.error);
      }
      var messages := CollectMessages(commits.value);
      assert messages == Messages(commits.value);
      var keys := ExtractIssueKeys(findAll, pattern, messages);
      var report := Report(definition.name, commits.value, keys);
      assert ReportFor(clone, findAll, pattern, definition) == Success(report);
      PrependStep(reports, report, Run(clone, findAll, pattern, entries[i + 1..]));
      reports := reports + [report];
      i := i + 1;
    }
    assert entries[i..] == [] && reports + [] == reports;
    r := Success(reports);
  }

  function ActiveOnly(entries: seq<DefinitionData>): (r: seq<DefinitionData>)
    ensures |r| <= |entries|
    ensures forall i :: 0 <= i < |r| ==> r[i].active && r[i] in entries
    ensures forall e :: e in entries && e.active ==> e in r
  {
    if entries == [] then []
    else if entries[0].active then [entries[0]] + ActiveOnly(entries[1..])
    else ActiveOnly(entries[1..])
  }

  /** The filter keeps the configuration's order: filtering two runs of
      entries one after the other is filtering their concatenation. */
  lemma {:induction false} ActiveOnlyAppend(a: seq<DefinitionData>, b: seq<DefinitionData>)
    ensures ActiveOnly(a + b) == ActiveOnly(a) + ActiveOnly(b)
  {
    if a == [] {
      assert a + b == b;
    } else {
      assert (a + b)[0] == a[0] && (a + b)[1..] == a[1..] + b;
      ActiveOnlyAppend(a[1..], b);
    }
  }

  /** Inactive definitions have no effect on the run at all. */
  lemma {:induction false} RunSkipsInactive(clone: Clone, findAll: FindAll, pattern: string, entries: seq<DefinitionData>)
    ensures Run(clone, findAll, pattern, entries) == Run(clone, findAll, pattern, ActiveOnly(entries))
  {
    if entries != [] {
      RunSkipsInactive(clone, findAll, pattern, entries[1..]);
      if entries[0].active {
        assert ActiveOnly(entries)[1..] == ActiveOnly(entries[1..]);
      }
    }
  }

  /** A successful run has exactly one report per active definition, in
      configuration order, each with that definition's range and keys. */
  lemma {:induction false} RunReports(clone: Clone, findAll: FindAll, pattern: string, entries: seq<DefinitionData>)
    requires Run(clone, findAll, pattern, entries).Success?
    ensures var reports := Run(clone, findAll, pattern, entries).value;
            var active := ActiveOnly(entries);
            && |reports| == |active|
            && forall i :: 0 <= i < |active| ==>
                 ReportFor(clone, findAll, pattern, FromData(active[i])) == Success(reports[i])
  {
    if entries != [] {
      RunReports(clone, findAll, pattern, entries[1..]);
    }
  }

  /** A definition whose range cannot be resolved. */
  predicate Fails(clone: Clone, entry: DefinitionData)
  {
    var d := FromData(entry);
    d.active && Range(clone(d), d.start, d.end).Failure?
  }

  /** The run fails exactly when some active definition fails, and then with
      the error of the first such definition. */
  lemma {:induction false} RunFailure(clone: Clone, findAll: FindAll, pattern: string, entries: seq<DefinitionData>)
    ensures Run(clone, findAll, pattern, entries).Failure? <==>
            exists i :: 0 <= i < |entries| && Fails(clone, entries[i])
    ensures forall i :: 0 <= i < |entries| && Fails(clone, entries[i]) &&
                        (forall j :: 0 <= j < i ==> !Fails(clone, entries[j])) ==>
              var d := FromData(entries[i]);
              Run(clone, findAll, pattern, entries) == Failure(Range(clone(d), d.start, d.end).error)
  {
    if entries != [] {
      var rest := entries[1..];
      RunFailure(clone, findAll, pattern, rest);
      forall i | 1 <= i < |entries| ensures entries[i] == rest[i - 1] { }
      if exists i :: 0 <= i < |rest| && Fails(clone, rest[i]) {
        var i :| 0 <= i < |rest| && Fails(clone, rest[i]);
        assert Fails(clone, entries[i + 1]);
      }
      forall i | 0 <= i < |entries| && Fails(clone, entries[i]) &&
                 (forall j :: 0 <= j < i ==> !Fails(clone, entries[j]))
        ensures var d := FromData(entries[i]);
                Run(clone, findAll, pattern, entries) == Failure(Range(clone(d), d.start, d.end).error)
      {
        if i > 0 {
          assert !Fails(clone, entries[0]);
          assert forall j :: 0 <= j < i - 1 ==> !Fails(clone, rest[j]) by {
            forall j | 0 <= j < i - 1 ensures !Fails(clone, rest[j]) {
              assert rest[j] == entries[j + 1];
            }
          }
        }
      }
    }
  }
}
