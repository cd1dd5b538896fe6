/** The test-case list of the judge panel (app.js, `addTestCase` and
    `deleteTestCase`): cases are appended with a numeric id and removed by id. */
module TestCases {
  import opened Strings

  datatype TestCase = TestCase(id: nat, name: string, input: string, expected: string, actual: string, status: string)

  /** The case `addTestCase` appends for id `id`. */
  function NewCase(id: nat): TestCase {
    TestCase(id, "Test " + NatToString(id), "", "", "", "pending")
  }

  /** `testCases.filter(tc => tc.id !== id)`. */
  function Without(cases: seq<TestCase>, id: nat): (r: seq<TestCase>)
    ensures |r| <= |cases|
    ensures forall c :: c in r <==> c in cases && c.id != id
  {
    if cases == [] then []
    else
      var last := cases[|cases| - 1];
      Without(cases[..|cases| - 1], id) + (if last.id != id then [last] else [])
  }

  /** The id `addTestCase` gives the new case, as written: one more than the number of cases. */
  function NextIdAsWritten(cases: seq<TestCase>): nat {
    |cases| + 1
  }

  class TestCaseList {
    var testCases: seq<TestCase>

    constructor ()
      ensures testCases == []
    {
      testCases := [];
    }

    method AddTestCase()
      modifies this
      ensures testCases == old(testCases) + [NewCase(NextIdAsWritten(old(testCases)))]
    {
      var id := |testCases| + 1;
      testCases := testCases + [TestCase(id, "Test " + NatToString(id), "", "", "", "pending")];
    }

    method DeleteTestCase(id: nat)
      modifies this
      ensures testCases == Without(old(testCases), id)
      ensures forall c :: c in testCases <==> c in old(testCases) && c.id != id
      ensures DistinctIds(old(testCases)) ==> DistinctIds(testCases)
    {
      if DistinctIds(testCases) {
        WithoutKeepsDistinct(testCases, id);
      }
      testCases := Without(testCases, id);
    }

    /** Corrected addition: the new case takes one more than the largest id present,
        so ids stay distinct however additions and deletions interleave. */
    method AddTestCaseCorrected()
      requires DistinctIds(testCases)
      modifies this
      ensures testCases == old(testCases) + [NewCase(NextId(old(testCases)))]
      ensures DistinctIds(testCases)
    {
      NextIdKeepsDistinct(testCases);
      testCases := testCases + [NewCase(NextId(testCases))];
    }
  }

  predicate DistinctIds(cases: seq<TestCase>) {
    forall i, j :: 0 <= i < j < |cases| ==> cases[i].id != cases[j].id
  }

  /** Ids `1, 2, …, n` in order: the list after `n` additions and no deletion. */
  predicate Numbered(cases: seq<TestCase>) {
    forall i :: 0 <= i < |cases| ==> cases[i].id == i + 1
  }

  /** Deleting an id that no case carries changes nothing. */
  lemma {:induction false} WithoutAbsent(cases: seq<TestCase>, id: nat)
    requires forall c :: c in cases ==> c.id != id
    ensures Without(cases, id) == cases
  {
    if cases != [] {
      WithoutAbsent(cases[..|cases| - 1], id);
      assert cases[..|cases| - 1] + [cases[|cases| - 1]] == cases;
    }
  }

  /** Deleting twice is deleting once. */
  lemma WithoutIdempotent(cases: seq<TestCase>, id: nat)
    ensures Without(Without(cases, id), id) == Without(cases, id)
  {
    WithoutAbsent(Without(cases, id), id);
  }

  /** In a numbered list, deleting id `k` removes exactly one case. */
  lemma {:induction false} WithoutNumbered(cases: seq<TestCase>, k: nat)
    requires Numbered(cases) && 1 <= k <= |cases|
    ensures |Without(cases, k)| == |cases| - 1
  {
    var front := cases[..|cases| - 1];
    if k == |cases| {
      forall c | c in front
        ensures c.id != k
      {
        var i :| 0 <= i < |front| && front[i] == c;
        assert cases[i] == c;
      }
      WithoutAbsent(front, k);
    } else {
      WithoutNumbered(front, k);
    }
  }

  /** As written: in cases `1, 2, 3`, deleting case 1 and adding one gives the new
      case id 3, which the old third case still carries; two cases now share an id,
      and deleting either deletes both. */
  lemma IdCollision(cases: seq<TestCase>, k: nat)
    requires Numbered(cases) && 1 <= k < |cases|
    ensures var after := Without(cases, k);
      !DistinctIds(after + [NewCase(NextIdAsWritten(after))])
  {
    var after := Without(cases, k);
    WithoutNumbered(cases, k);
    var last := cases[|cases| - 1];
    assert last in after;
    var i :| 0 <= i < |after| && after[i] == last;
    var grown := after + [NewCase(NextIdAsWritten(after))];
    assert grown[i].id == grown[|after|].id;
  }

  /** Corrected: one more than the largest id present. */
  function NextId(cases: seq<TestCase>): (r: nat)
    ensures forall c :: c in cases ==> c.id < r
    ensures r >= 1
  {
    if cases == [] then 1
    else
      var rest := NextId(cases[..|cases| - 1]);
      var last := cases[|cases| - 1];
      assert cases == cases[..|cases| - 1] + [last];
      if last.id + 1 > rest then last.id + 1 else rest
  }

  /** Corrected: the new id is fresh, so additions and deletions in any order keep
      ids distinct; on a list never deleted from it agrees with the id as written. */
  lemma NextIdKeepsDistinct(cases: seq<TestCase>)
    requires DistinctIds(cases)
    ensures DistinctIds(cases + [NewCase(NextId(cases))])
  {
    var grown := cases + [NewCase(NextId(cases))];
    forall i, j | 0 <= i < j < |grown|
      ensures grown[i].id != grown[j].id
    {
      if j == |cases| {
        assert grown[i] in cases;
      }
    }
  }

  lemma {:induction false} NextIdNumbered(cases: seq<TestCase>)
    requires Numbered(cases)
    ensures NextId(cases) == NextIdAsWritten(cases)
  {
    if cases != [] {
      NextIdNumbered(cases[..|cases| - 1]);
    }
  }

  /** Deleting keeps ids distinct. */
  lemma {:induction false} WithoutKeepsDistinct(cases: seq<TestCase>, id: nat)
    requires DistinctIds(cases)
    ensures DistinctIds(Without(cases, id))
  {
    if cases != [] {
      var front := cases[..|cases| - 1];
      var last := cases[|cases| - 1];
      WithoutKeepsDistinct(front, id);
      var r := Without(front, id);
      if last.id != id {
        var grown := r + [last];
        forall i, j | 0 <= i < j < |grown|
          ensures grown[i].id != grown[j].id
        {
          if j == |r| {
            assert grown[i] in front;
            var m :| 0 <= m < |front| && front[m] == grown[i];
            assert cases[m] == grown[i];
          }
        }
      }
    }
  }
}
