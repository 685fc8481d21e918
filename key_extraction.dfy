/** Issue-key extraction: every match of the configured pattern in the
    messages of the resolved range, collected into a set. */
module KeyExtraction {
  import opened Git

  /** `re.findall(pattern, message)`: the matches of `pattern` in `message`, in
      order. Python's regular-expression engine is not modelled. */
  type FindAll = (string, string) -> seq<string>

  /** The messages of the commits, in the same order. */
  function Messages(commits: seq<Commit>): (ms: seq<string>)
    ensures |ms| == |commits|
    ensures forall i :: 0 <= i < |commits| ==> ms[i] == commits[i].message
  {
    if commits == [] then [] else [commits[0].message] + Messages(commits[1..])
  }

  function Elements(s: seq<string>): set<string>
  {
    set x | x in s
  }

  /** The key set after the messages have been scanned one after another. */
  function IssueKeys(findAll: FindAll, pattern: string, messages: seq<string>): (r: set<string>)
    ensures forall i :: 0 <= i < |messages| ==> Elements(findAll(pattern, messages[i])) <= r
  {
    if messages == [] then {}
    else IssueKeys(findAll, pattern, messages[..|messages| - 1])
         + Elements(findAll(pattern, messages[|messages| - 1]))
  }

  /** A key is in the set exactly when some message has it among its matches. */
  lemma {:induction false} IssueKeysMembership(findAll: FindAll, pattern: string, messages: seq<string>, k: string)
    ensures k in IssueKeys(findAll, pattern, messages) <==>
            exists i :: 0 <= i < |messages| && k in findAll(pattern, messages[i])
  {
    if messages != [] {
      var n := |messages| - 1;
      var front := messages[..n];
      IssueKeysMembership(findAll, pattern, front, k);
      if k in IssueKeys(findAll, pattern, messages) {
        if k !in IssueKeys(findAll, pattern, front) {
          assert k in findAll(pattern, messages[n]);
        } else {
          var i :| 0 <= i < |front| && k in findAll(pattern, front[i]);
          assert messages[i] == front[i];
        }
      }
      if exists i :: 0 <= i < |messages| && k in findAll(pattern, messages[i]) {
        var i :| 0 <= i < |messages| && k in findAll(pattern, messages[i]);
        if i < n {
          assert front[i] == messages[i];
        }
      }
    }
  }

  /** The set depends only on which messages occur: not on their order and not
      on how often each occurs. */
  lemma IssueKeysIgnoreOrderAndDuplicates(findAll: FindAll, pattern: string, a: seq<string>, b: seq<string>)
    requires forall m :: m in a <==> m in b
    ensures IssueKeys(findAll, pattern, a) == IssueKeys(findAll, pattern, b)
  {
    forall k | k in IssueKeys(findAll, pattern, a)
      ensures k in IssueKeys(findAll, pattern, b)
    {
      IssueKeysMembership(findAll, pattern, a, k);
      var i :| 0 <= i < |a| && k in findAll(pattern, a[i]);
      assert a[i] in b;
      var j :| 0 <= j < |b| && b[j] == a[i];
      IssueKeysMembership(findAll, pattern, b, k);
    }
    forall k | k in IssueKeys(findAll, pattern, b)
      ensures k in IssueKeys(findAll, pattern, a)
    {
      IssueKeysMembership(findAll, pattern, b, k);
      var j :| 0 <= j < |b| && k in findAll(pattern, b[j]);
      assert b[j] in a;
      var i :| 0 <= i < |a| && a[i] == b[j];
      IssueKeysMembership(findAll, pattern, a, k);
    }
  }

  /** In particular, permuting the messages does not change the set. */
  lemma IssueKeysPermutation(findAll: FindAll, pattern: string, a: seq<string>, b: seq<string>)
    requires multiset(a) == multiset(b)
    ensures IssueKeys(findAll, pattern, a) == IssueKeys(findAll, pattern, b)
  {
    forall m ensures m in a <==> m in b {
      assert m in a <==> m in multiset(a);
      assert m in b <==> m in multiset(b);
    }
    IssueKeysIgnoreOrderAndDuplicates(findAll, pattern, a, b);
  }

  /** No messages, or no matches in any of them, give the empty set. */
  lemma IssueKeysEmpty(findAll: FindAll, pattern: string, messages: seq<string>)
    requires forall i :: 0 <= i < |messages| ==> findAll(pattern, messages[i]) == []
    ensures IssueKeys(findAll, pattern, messages) == {}
  {
    forall k | k in IssueKeys(findAll, pattern, messages) ensures false {
      IssueKeysMembership(findAll, pattern, messages, k);
    }
  }

  /** Scanning two runs of messages gives the union of their sets. */
  lemma IssueKeysAppend(findAll: FindAll, pattern: string, a: seq<string>, b: seq<string>)
    ensures IssueKeys(findAll, pattern, a + b) ==
            IssueKeys(findAll, pattern, a) + IssueKeys(findAll, pattern, b)
  {
    forall k ensures k in IssueKeys(findAll, pattern, a + b) <==>
                     k in IssueKeys(findAll, pattern, a) + IssueKeys(findAll, pattern, b)
    {
      IssueKeysMembership(findAll, pattern, a + b, k);
      IssueKeysMembership(findAll, pattern, a, k);
      IssueKeysMembership(findAll, pattern, b, k);
      if exists i :: 0 <= i < |a + b| && k in findAll(pattern, (a + b)[i]) {
        var i :| 0 <= i < |a + b| && k in findAll(pattern, (a + b)[i]);
        if i >= |a| {
          assert (a + b)[i] == b[i - |a|];
        }
      }
      if exists i :: 0 <= i < |a| && k in findAll(pattern, a[i]) {
        var i :| 0 <= i < |a| && k in findAll(pattern, a[i]);
        assert (a + b)[i] == a[i];
      }
      if exists j :: 0 <= j < |b| && k in findAll(pattern, b[j]) {
        var j :| 0 <= j < |b| && k in findAll(pattern, b[j]);
        assert (a + b)[|a| + j] == b[j];
      }
    }
  }

  /** The loop that fills `relevant_messages`. */
  method CollectMessages(commits: seq<Commit>) returns (messages: seq<string>)
    ensures |messages| == |commits|
    ensures forall i :: 0 <= i < |commits| ==> messages[i] == commits[i].message
  {
    messages := [];
    var i := 0;
    while i < |commits|
      invariant 0 <= i <= |commits|
      invariant |messages| == i
      invariant forall j :: 0 <= j < i ==> messages[j] == commits[j].message
    {
      messages := messages + [commits[i].message];
      i := i + 1;
    }
  }

  /** The nested loop that adds every match of every message to `issue_keys`. */
  method ExtractIssueKeys(findAll: FindAll, pattern: string, messages: seq<string>)
    returns (keys: set<string>)
    ensures keys == IssueKeys(findAll, pattern, messages)
    ensures forall k :: k in keys <==> exists i :: 0 <= i < |messages| && k in findAll(pattern, messages[i])
  {
    keys := {};
    var i := 0;
    while i < |messages|
      invariant 0 <= i <= |messages|
      invariant keys == IssueKeys(findAll, pattern, messages[..i])
    {
      var found := findAll(pattern, messages[i]);
      var j := 0;
      while j < |found|
        invariant 0 <= j <= |found|
        invariant keys == IssueKeys(findAll, pattern, messages[..i]) + Elements(found[..j])
      {
        keys := keys + {found[j]};
        assert found[..j + 1] == found[..j] + [found[j]];
        j := j + 1;
      }
      assert found[..j] == found;
      assert messages[..i + 1][..i] == messages[..i];
      i := i + 1;
    }
    assert messages[..i] == messages;
    forall k ensures k in keys <==> exists i :: 0 <= i < |messages| && k in findAll(pattern, messages[i]) {
      IssueKeysMembership(findAll, pattern, messages, k);
    }
  }
}
