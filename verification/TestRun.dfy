/** Test run bookkeeping (smoke.py, run_tests and report). */
module TestRun {

  datatype Test = Test(path: string, usedb: bool)

  // What can happen to one test. Only the third and the fifth are recorded as losers.
  datatype Outcome =
    | Passes
    | PassesThenRaises     // passes, but waiting for replication raises
    | Fails(status: int)
    | FailsUnrestarted     // fails, and looking for mongod or restarting it raises; in a run
                           // that was told not to start mongod, every failure is one of these
    | ServerFails          // mongod is gone after the test
    | Raises               // any other exception

  predicate Wins(o: Outcome) {
    o.Passes? || o.PassesThenRaises?
  }

  predicate RecordsLoss(o: Outcome) {
    o.Fails? || o.ServerFails?
  }

  // The status of a server failure.
  const NO_SERVER: int := -1

  function Status(o: Outcome): int {
    if o.Fails? then o.status else NO_SERVER
  }

  // The run does not go on after this outcome.
  predicate Stops(o: Outcome, continueOnFailure: bool) {
    !o.Passes? && (o.Fails? ==> !continueOnFailure)
  }

  // ---- A run, declaratively ----

  // How many tests are attempted: up to and including the first that stops the run.
  function Attempted(outcomes: seq<Outcome>, continueOnFailure: bool): (k: nat)
    ensures k <= |outcomes|
    ensures forall i :: 0 <= i < k - 1 ==> !Stops(outcomes[i], continueOnFailure)
    ensures k < |outcomes| ==> k > 0 && Stops(outcomes[k - 1], continueOnFailure)
  {
    if outcomes == [] then 0
    else if Stops(outcomes[0], continueOnFailure) then 1
    else 1 + Attempted(outcomes[1..], continueOnFailure)
  }

  // The tests among the first k that won, and the others, in order.
  function Won(tests: seq<Test>, outcomes: seq<Outcome>, k: nat): seq<Test>
    requires k <= |tests| == |outcomes|
  {
    if k == 0 then []
    else if Wins(outcomes[k - 1]) then Won(tests, outcomes, k - 1) + [tests[k - 1]]
    else Won(tests, outcomes, k - 1)
  }

  function Lost(tests: seq<Test>, outcomes: seq<Outcome>, k: nat): seq<Test>
    requires k <= |tests| == |outcomes|
  {
    if k == 0 then []
    else if Wins(outcomes[k - 1]) then Lost(tests, outcomes, k - 1)
    else Lost(tests, outcomes, k - 1) + [tests[k - 1]]
  }

  function Recorded(tests: seq<Test>, outcomes: seq<Outcome>, k: nat): map<string, int>
    requires k <= |tests| == |outcomes|
  {
    if k == 0 then map[]
    else if RecordsLoss(outcomes[k - 1]) then
      Recorded(tests, outcomes, k - 1)[tests[k - 1].path := Status(outcomes[k - 1])]
    else Recorded(tests, outcomes, k - 1)
  }

  // The two lists split the attempted tests.
  lemma {:induction false} SplitsAttempted(tests: seq<Test>, outcomes: seq<Outcome>, k: nat)
    requires k <= |tests| == |outcomes|
    ensures multiset(Won(tests, outcomes, k) + Lost(tests, outcomes, k)) == multiset(tests[..k])
  {
    hide Won, Lost, Wins, Recorded, RecordsLoss;
    if k == 0 {
      NothingRun(tests, outcomes);
    } else {
      SplitsAttempted(tests, outcomes, k - 1);
      OneMore(tests, outcomes, k - 1);
      assert tests[..k] == tests[..k - 1] + [tests[k - 1]];
    }
  }

  lemma {:induction false} CountAttempted(tests: seq<Test>, outcomes: seq<Outcome>, k: nat)
    requires k <= |tests| == |outcomes|
    ensures |Won(tests, outcomes, k)| + |Lost(tests, outcomes, k)| == k
  {
    if k > 0 {
      CountAttempted(tests, outcomes, k - 1);
    }
  }

  lemma {:induction false} InLost(tests: seq<Test>, outcomes: seq<Outcome>, k: nat, t: Test)
    requires k <= |tests| == |outcomes|
    ensures t in Lost(tests, outcomes, k) <==> exists i :: 0 <= i < k && tests[i] == t && !Wins(outcomes[i])
  {
    if k > 0 {
      InLost(tests, outcomes, k - 1, t);
    }
  }

  predicate DistinctPaths(tests: seq<Test>) {
    forall i, j :: 0 <= i < j < |tests| ==> tests[i].path != tests[j].path
  }

  // Losses that an exception kept from being recorded.
  function Unrecorded(outcomes: seq<Outcome>, k: nat): nat
    requires k <= |outcomes|
  {
    if k == 0 then 0
    else Unrecorded(outcomes, k - 1) + if !Wins(outcomes[k - 1]) && !RecordsLoss(outcomes[k - 1]) then 1 else 0
  }

  lemma {:induction false} RecordedKeys(tests: seq<Test>, outcomes: seq<Outcome>, k: nat)
    requires k <= |tests| == |outcomes|
    ensures forall p :: p in Recorded(tests, outcomes, k) ==> exists i :: 0 <= i < k && tests[i].path == p
  {
    if k > 0 {
      RecordedKeys(tests, outcomes, k - 1);
    }
  }

  lemma {:induction false} CountRecorded(tests: seq<Test>, outcomes: seq<Outcome>, k: nat)
    requires k <= |tests| == |outcomes| && DistinctPaths(tests)
    ensures |Recorded(tests, outcomes, k)| + Unrecorded(outcomes, k) == |Lost(tests, outcomes, k)|
  {
    if k > 0 {
      CountRecorded(tests, outcomes, k - 1);
      RecordedKeys(tests, outcomes, k - 1);
      assert tests[k - 1].path !in Recorded(tests, outcomes, k - 1);
    }
  }

  // An outcome outside both lists stops the run, so only the last can be one.
  lemma {:induction false} UnrecordedIsLast(outcomes: seq<Outcome>, continueOnFailure: bool, k: nat)
    requires k <= Attempted(outcomes, continueOnFailure)
    ensures Unrecorded(outcomes, k) ==
            if k > 0 && !Wins(outcomes[k - 1]) && !RecordsLoss(outcomes[k - 1]) then 1 else 0
  {
    if k > 0 {
      UnrecordedIsLast(outcomes, continueOnFailure, k - 1);
    }
  }

  function NumMissed(tests: seq<Test>, winners: seq<Test>, losers: map<string, int>): int {
    |tests| - (|winners| + |losers|)
  }

  // The report's count of tests that did not get run is right exactly if the run
  // was not cut short by an exception in the middle of a test; else it is one too many.
  lemma MissedIff(tests: seq<Test>, outcomes: seq<Outcome>, continueOnFailure: bool)
    requires |tests| == |outcomes| && DistinctPaths(tests)
    ensures var k := Attempted(outcomes, continueOnFailure);
            var missed := NumMissed(tests, Won(tests, outcomes, k), Recorded(tests, outcomes, k));
            var cut := k > 0 && (outcomes[k - 1].Raises? || outcomes[k - 1].FailsUnrestarted?);
            missed == |tests| - k + if cut then 1 else 0
  {
    var k := Attempted(outcomes, continueOnFailure);
    CountAttempted(tests, outcomes, k);
    CountRecorded(tests, outcomes, k);
    UnrecordedIsLast(outcomes, continueOnFailure, k);
  }

  // ---- What decides a run, by the kinds of outcome ----

  predicate IsRaising(o: Outcome) {
    match o
    case PassesThenRaises => true
    case FailsUnrestarted => true
    case Raises => true
    case _ => false
  }

  // All attempted tests but the last let the run go on, and the last one only if
  // it is the last test; the exit tells what kind of outcome ended the run.
  lemma ExitIff(outcomes: seq<Outcome>, continueOnFailure: bool)
    ensures var k := Attempted(outcomes, continueOnFailure);
            var exit := ExitOf(outcomes, k, continueOnFailure);
            && (forall i :: 0 <= i && i + 1 < k ==> outcomes[i].Passes? || (outcomes[i].Fails? && continueOnFailure))
            && (exit == Code(2) <==> exists i :: 0 <= i < k && outcomes[i].ServerFails?)
            && (exit == Code(1) <==> !continueOnFailure && exists i :: 0 <= i < k && outcomes[i].Fails?)
            && (exit == Exception <==> exists i :: 0 <= i < k && IsRaising(outcomes[i]))
            && (exit == Code(0) <==>
                && k == |outcomes|
                && forall i :: 0 <= i < k ==> outcomes[i].Passes? || (outcomes[i].Fails? && continueOnFailure))
  {
    hide Attempted;
    var k := Attempted(outcomes, continueOnFailure);
    assert forall i :: 0 <= i && i + 1 < k ==> outcomes[i].Passes? || (outcomes[i].Fails? && continueOnFailure);
  }

  // Winners and fails are in the order of the tests: test i follows those before it.
  lemma {:induction false} SplitInOrder(tests: seq<Test>, outcomes: seq<Outcome>, k: nat, i: nat)
    requires i < k <= |tests| == |outcomes|
    ensures outcomes[i].Passes? || outcomes[i].PassesThenRaises? ==>
              Won(tests, outcomes, i) + [tests[i]] <= Won(tests, outcomes, k)
    ensures !outcomes[i].Passes? && !outcomes[i].PassesThenRaises? ==>
              Lost(tests, outcomes, i) + [tests[i]] <= Lost(tests, outcomes, k)
    decreases k
  {
    if i < k - 1 {
      SplitInOrder(tests, outcomes, k - 1, i);
    }
  }

  // The losers are the paths of the failed tests, each with the status of its
  // last failure, and -1 for a server failure.
  lemma {:induction false} LoserIff(tests: seq<Test>, outcomes: seq<Outcome>, k: nat, path: string)
    requires k <= |tests| == |outcomes|
    ensures path in Recorded(tests, outcomes, k) <==> exists i :: LastLoss(tests, outcomes, k, path, i)
    ensures forall i :: LastLoss(tests, outcomes, k, path, i) ==>
              path in Recorded(tests, outcomes, k) &&
              Recorded(tests, outcomes, k)[path] == if outcomes[i].Fails? then outcomes[i].status else -1
  {
    if k > 0 {
      var m := k - 1;
      LoserIff(tests, outcomes, m, path);
      LastLossStep(tests, outcomes, k, path);
      if tests[m].path == path && (outcomes[m].Fails? || outcomes[m].ServerFails?) {
        assert LastLoss(tests, outcomes, k, path, m);
      } else if i :| LastLoss(tests, outcomes, m, path, i) {
        assert LastLoss(tests, outcomes, k, path, i);
      }
    }
  }

  ghost predicate LastLoss(tests: seq<Test>, outcomes: seq<Outcome>, k: nat, path: string, i: int)
    requires k <= |tests| == |outcomes|
  {
    && 0 <= i < k && tests[i].path == path && (outcomes[i].Fails? || outcomes[i].ServerFails?)
    && forall j :: i < j < k && tests[j].path == path ==> !outcomes[j].Fails? && !outcomes[j].ServerFails?
  }

  lemma LastLossStep(tests: seq<Test>, outcomes: seq<Outcome>, k: nat, path: string)
    requires 0 < k <= |tests| == |outcomes|
    ensures var here := tests[k - 1].path == path && (outcomes[k - 1].Fails? || outcomes[k - 1].ServerFails?);
            forall i :: LastLoss(tests, outcomes, k, path, i) <==>
                        if here then i == k - 1 else LastLoss(tests, outcomes, k - 1, path, i)
  {
  }

  // Outcomes of a run that has no mongod of its own.
  predicate WithoutServer(outcomes: seq<Outcome>) {
    forall i :: 0 <= i < |outcomes| ==> outcomes[i].Passes? || outcomes[i].FailsUnrestarted? || outcomes[i].Raises?
  }

  lemma {:induction false} NoneRecorded(tests: seq<Test>, outcomes: seq<Outcome>, k: nat)
    requires k <= |tests| == |outcomes| && WithoutServer(outcomes)
    ensures Recorded(tests, outcomes, k) == map[]
  {
    if k > 0 {
      NoneRecorded(tests, outcomes, k - 1);
    }
  }

  lemma {:induction false} AllWon(tests: seq<Test>, outcomes: seq<Outcome>, k: nat)
    requires k <= |tests| == |outcomes| && forall i :: 0 <= i < k ==> outcomes[i].Passes?
    ensures Won(tests, outcomes, k) == tests[..k]
  {
    if k > 0 {
      AllWon(tests, outcomes, k - 1);
    }
  }

  // Such a run records no loser and stops at the first test f that does not pass
  // (f == |tests| if all do), whether or not it is to continue on failure; the
  // report then counts that test among those that did not get run.
  lemma MissedWithoutServer(tests: seq<Test>, outcomes: seq<Outcome>, continueOnFailure: bool, f: nat)
    requires f <= |tests| == |outcomes| && WithoutServer(outcomes)
    requires (forall i :: 0 <= i < f ==> outcomes[i].Passes?) && (f < |outcomes| ==> !outcomes[f].Passes?)
    ensures var k := Attempted(outcomes, continueOnFailure);
            && k == (if f < |tests| then f + 1 else f)
            && Won(tests, outcomes, k) == tests[..f] && Recorded(tests, outcomes, k) == map[]
            && NumMissed(tests, Won(tests, outcomes, k), Recorded(tests, outcomes, k)) == |tests| - f
            && ExitOf(outcomes, k, continueOnFailure) == if f < |tests| then Exception else Code(0)
  {
    hide Attempted, Recorded;
    var k := Attempted(outcomes, continueOnFailure);
    assert k > 0 ==> outcomes[k - 1].Passes? || Stops(outcomes[k - 1], continueOnFailure);
    assert f + 1 < k ==> !Stops(outcomes[f], continueOnFailure);
    AllWon(tests, outcomes, f);
    NoneRecorded(tests, outcomes, k);
  }

  // ---- The run as smoke.py does it ----

  datatype Exit = Code(code: int) | Exception

  class Bookkeeping {
    var winners: seq<Test>
    var fails: seq<Test>
    var losers: map<string, int>

    constructor ()
      ensures winners == [] && fails == [] && losers == map[]
    {
      winners, fails, losers := [], [], map[];
    }

    method RunTests(tests: seq<Test>, outcomes: seq<Outcome>, continueOnFailure: bool) returns (exit: Exit)
      requires |tests| == |outcomes|
      modifies this
      ensures var k := Attempted(outcomes, continueOnFailure);
              && winners == old(winners) + Won(tests, outcomes, k)
              && fails == old(fails) + Lost(tests, outcomes, k)
              && losers == old(losers) + Recorded(tests, outcomes, k)
              && exit == ExitOf(outcomes, k, continueOnFailure)
    {
      hide Attempted, Won, Lost, Recorded, Status;
      NothingRun(tests, outcomes);
      for i := 0 to |tests|
        invariant i <= Attempted(outcomes, continueOnFailure)
        invariant forall j :: 0 <= j < i ==> !Stops(outcomes[j], continueOnFailure)
        invariant winners == old(winners) + Won(tests, outcomes, i)
        invariant fails == old(fails) + Lost(tests, outcomes, i)
        invariant losers == old(losers) + Recorded(tests, outcomes, i)
      {
        var o := outcomes[i];
        AttemptsNext(outcomes, continueOnFailure, i);
        OneMore(tests, outcomes, i);
        fails := fails + [tests[i]];
        if Wins(o) {
          fails := fails[..|fails| - 1];
          winners := winners + [tests[i]];
          if o.PassesThenRaises? {
            return Exception;
          }
        } else if o.Raises? || o.FailsUnrestarted? {
          return Exception;
        } else {
          losers := losers[tests[i].path := Status(o)];
          if o.ServerFails? {
            return Code(2);
          } else if !continueOnFailure {
            return Code(1);
          }
        }
      }
      exit := Code(0);
    }
  }

  function ExitOf(outcomes: seq<Outcome>, k: nat, continueOnFailure: bool): Exit
    requires k <= |outcomes|
  {
    if k == 0 || !Stops(outcomes[k - 1], continueOnFailure) then Code(0)
    else if outcomes[k - 1].ServerFails? then Code(2)
    else if outcomes[k - 1].Fails? then Code(1)
    else Exception
  }

  lemma NothingRun(tests: seq<Test>, outcomes: seq<Outcome>)
    requires |tests| == |outcomes|
    ensures Won(tests, outcomes, 0) == [] && Lost(tests, outcomes, 0) == [] && Recorded(tests, outcomes, 0) == map[]
  {
  }

  lemma OneMore(tests: seq<Test>, outcomes: seq<Outcome>, i: nat)
    requires i < |tests| == |outcomes|
    ensures var t, o := tests[i], outcomes[i];
            var won, lost, recorded := Won(tests, outcomes, i), Lost(tests, outcomes, i), Recorded(tests, outcomes, i);
            && Won(tests, outcomes, i + 1) == (if Wins(o) then won + [t] else won)
            && Lost(tests, outcomes, i + 1) == (if Wins(o) then lost else lost + [t])
            && Recorded(tests, outcomes, i + 1) == (if RecordsLoss(o) then recorded[t.path := Status(o)] else recorded)
  {
  }

  lemma AttemptsNext(outcomes: seq<Outcome>, continueOnFailure: bool, i: nat)
    requires i < |outcomes| && forall j :: 0 <= j < i ==> !Stops(outcomes[j], continueOnFailure)
    ensures i < Attempted(outcomes, continueOnFailure)
    ensures Stops(outcomes[i], continueOnFailure) ==> Attempted(outcomes, continueOnFailure) == i + 1
  {
    assert i < Attempted(outcomes, continueOnFailure) - 1 ==> !Stops(outcomes[i], continueOnFailure);
  }
}
