/** A repository with five commits on one line, c1 (oldest) to c5 (HEAD), and
    the ranges the resolver produces for it. */
module Scenarios {
  import opened Wrappers
  import opened Git
  import opened RangeResolution
  import opened KeyExtraction

  const C1 := Commit("c1", "first")
  const C2 := Commit("c2", "ABC-1 second")
  const C3 := Commit("c3", "third")
  const C4 := Commit("c4", "ABC-2 fourth")
  const C5 := Commit("c5", "fifth")

  /** The walk from a commit of the line: it and its ancestors, newest first. */
  function LinearWalk(from: Option<string>): seq<Commit>
  {
    match from
    case None => [C5, C4, C3, C2, C1]
    case Some(sha) =>
      if sha == "c5" then [C5, C4, C3, C2, C1]
      else if sha == "c4" then [C4, C3, C2, C1]
      else if sha == "c3" then [C3, C2, C1]
      else if sha == "c2" then [C2, C1]
      else if sha == "c1" then [C1]
      else []
  }

  function LinearResolve(rev: string): Option<Commit>
  {
    if rev == "c1" then Some(C1)
    else if rev == "c2" then Some(C2)
    else if rev == "c3" then Some(C3)
    else if rev == "c4" then Some(C4)
    else if rev == "c5" then Some(C5)
    else None
  }

  const Linear := Repository(LinearResolve, LinearWalk)

  lemma ReverseOfFour(a: Commit, b: Commit, c: Commit, d: Commit)
    ensures Reverse([a, b, c, d]) == [d, c, b, a]
  {
    var r := Reverse([a, b, c, d]);
    assert r[0] == d && r[1] == c && r[2] == b && r[3] == a;
  }

  lemma StartAndEnd()
    ensures Range(Linear, Some("c2"), Some("c5")) == Success([C2, C3, C4, C5])
  {
    RangeStartReached(Linear, "c2", Some("c5"), 3);
    assert [C5, C4, C3, C2, C1][..4] == [C5, C4, C3, C2];
    ReverseOfFour(C5, C4, C3, C2);
  }

  lemma NoStart()
    ensures Range(Linear, None, Some("c3")) == Success([C1, C2, C3])
  {
    assert ResolveRevision(Linear, Some("c3")) == Success(Some(C3));
    assert Walk(Linear, Some(C3)) == [C3, C2, C1];
    RangeWithoutStart(Linear, Some("c3"));
    var r := Reverse([C3, C2, C1]);
    assert r[0] == C1 && r[1] == C2 && r[2] == C3;
    assert r == [C1, C2, C3];
  }

  /** An absent end walks from HEAD, here the same as naming c5. */
  lemma NoEnd()
    ensures Range(Linear, Some("c2"), None) == Range(Linear, Some("c2"), Some("c5"))
  {
  }

  /** A start that is not an ancestor of the end: the whole history up to the
      end is returned. */
  lemma StartNotAncestor()
    ensures Range(Linear, Some("c4"), Some("c2")) == Success([C1, C2])
  {
    assert ResolveRevision(Linear, Some("c2")) == Success(Some(C2));
    assert Walk(Linear, Some(C2)) == [C2, C1];
    RangeStartNotReached(Linear, "c4", Some("c2"));
    var r := Reverse([C2, C1]);
    assert r[0] == C1 && r[1] == C2;
    assert r == [C1, C2];
  }

  lemma UnknownRevision()
    ensures Range(Linear, Some("nope"), Some("c5")) == Failure(RevisionNotFound("nope"))
    ensures Range(Linear, Some("c2"), Some("nope")) == Failure(RevisionNotFound("nope"))
    ensures Range(Linear, Some("nope"), Some("gone")) == Failure(RevisionNotFound("nope"))
  {
  }

  const IssuePattern := "[A-Z]+-\\d+"

  /** A stand-in for `re.findall` with the pattern `[A-Z]+-\d+` on this
      history's messages: the key at the head of a message, if any. */
  function FindKeys(pattern: string, message: string): seq<string>
  {
    if message == C2.message then ["ABC-1"]
    else if message == C4.message then ["ABC-2"]
    else []
  }

  /** The keys of c2..c5 are those of c2 and c4. */
  lemma KeysOfStartAndEnd()
    ensures Range(Linear, Some("c2"), Some("c5")).Success?
    ensures IssueKeys(FindKeys, IssuePattern, Messages(Range(Linear, Some("c2"), Some("c5")).value))
            == {"ABC-1", "ABC-2"}
  {
    StartAndEnd();
    var ms := Messages([C2, C3, C4, C5]);
    assert ms == [C2.message, C3.message, C4.message, C5.message];
    forall k ensures k in IssueKeys(FindKeys, IssuePattern, ms) <==> k in {"ABC-1", "ABC-2"} {
      IssueKeysMembership(FindKeys, IssuePattern, ms, k);
      if k == "ABC-1" { assert k in FindKeys(IssuePattern, ms[0]); }
      if k == "ABC-2" { assert k in FindKeys(IssuePattern, ms[2]); }
    }
  }

  /** A range that stops before c4 does not see its key. */
  lemma KeysWithoutStart()
    ensures Range(Linear, None, Some("c3")).Success?
    ensures IssueKeys(FindKeys, IssuePattern, Messages(Range(Linear, None, Some("c3")).value)) == {"ABC-1"}
  {
    NoStart();
    var ms := Messages([C1, C2, C3]);
    assert ms == [C1.message, C2.message, C3.message];
    forall k ensures k in IssueKeys(FindKeys, IssuePattern, ms) <==> k == "ABC-1" {
      IssueKeysMembership(FindKeys, IssuePattern, ms, k);
      if k == "ABC-1" { assert k in FindKeys(IssuePattern, ms[1]); }
    }
  }
}
