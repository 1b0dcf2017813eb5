/** The list of failed tests kept between runs (smoke.py, add_to_failfile,
    run_old_fails and clear_failfile). */
module FailFile {
  import opened Collections
  import opened TestRun

  // A test together with the options it failed under.
  datatype Entry = Entry(test: Test, options: nat)

  datatype Saved =
    | Missing
    | Unreadable
    | Saved(version: Option<string>, entries: seq<Entry>)

  function Entries(file: Saved): seq<Entry> {
    if file.Saved? then file.entries else []
  }

  // ---- Adding ----

  function Added(entries: seq<Entry>, tests: seq<Test>, options: nat): seq<Entry> {
    if tests == [] then entries
    else
      var e := Entry(tests[|tests| - 1], options);
      var before := Added(entries, tests[..|tests| - 1], options);
      if e in before then before else before + [e]
  }

  lemma {:induction false} AddedMembers(entries: seq<Entry>, tests: seq<Test>, options: nat, e: Entry)
    ensures e in Added(entries, tests, options) <==> e in entries || (e.options == options && e.test in tests)
  {
    if tests != [] {
      AddedMembers(entries, tests[..|tests| - 1], options, e);
      assert tests == tests[..|tests| - 1] + [tests[|tests| - 1]];
    }
  }

  // Tests are added one after the other, each at the end unless it is there already.
  lemma {:induction false} AddedInOrder(entries: seq<Entry>, a: seq<Test>, t: Test, b: seq<Test>, options: nat)
    ensures var before := Added(entries, a, options);
            Added(entries, a + [t] + b, options) ==
            Added(if Entry(t, options) in before then before else before + [Entry(t, options)], b, options)
    decreases |b|
  {
    var all := a + [t] + b;
    if b == [] {
      assert all == a + [t] && all[..|all| - 1] == a;
    } else {
      var b' := b[..|b| - 1];
      assert all[..|all| - 1] == a + [t] + b';
      AddedInOrder(entries, a, t, b', options);
    }
  }

  lemma {:induction false} AddedDistinct(entries: seq<Entry>, tests: seq<Test>, options: nat)
    requires Distinct(entries)
    ensures Distinct(Added(entries, tests, options)) && entries <= Added(entries, tests, options)
  {
    if tests != [] {
      AddedDistinct(entries, tests[..|tests| - 1], options);
    }
  }

  // ---- Removing several indices from a list ----

  // The list without the indices of gone that are below n.
  function Without(s: seq<Entry>, gone: seq<nat>, n: nat): seq<Entry>
    requires n <= |s|
  {
    if n == 0 then []
    else if n - 1 in gone then Without(s, gone, n - 1)
    else Without(s, gone, n - 1) + [s[n - 1]]
  }

  predicate Ascending(s: seq<nat>) {
    forall i, j :: 0 <= i < j < |s| ==> s[i] < s[j]
  }

  lemma {:induction false} WithoutNone(s: seq<Entry>, gone: seq<nat>, n: nat)
    requires n <= |s| && forall i :: 0 <= i < n ==> i !in gone
    ensures Without(s, gone, n) == s[..n]
  {
    if n > 0 {
      WithoutNone(s, gone, n - 1);
    }
  }

  // Popping one more index, shifted left by the number already popped.
  lemma {:induction false} WithoutOneMore(s: seq<Entry>, gone: seq<nat>, i: nat, n: nat)
    requires i < n <= |s| && forall j :: 0 <= j < |gone| ==> gone[j] < i
    requires |gone| <= i && Ascending(gone)
    ensures |Without(s, gone, n)| == n - |gone|
    ensures var k := i - |gone|;
            Without(s, gone + [i], n) == Without(s, gone, n)[..k] + Without(s, gone, n)[k + 1..]
    decreases n
  {
    if n == i + 1 {
      WithoutSame(s, gone, i);
      WithoutLength(s, gone, i);
    } else {
      WithoutOneMore(s, gone, i, n - 1);
    }
  }

  // An index not below n makes no difference.
  lemma {:induction false} WithoutSame(s: seq<Entry>, gone: seq<nat>, n: nat)
    requires n <= |s|
    ensures forall i :: i >= n ==> Without(s, gone + [i], n) == Without(s, gone, n)
  {
    if n > 0 {
      WithoutSame(s, gone, n - 1);
    }
  }

  lemma {:induction false} WithoutLength(s: seq<Entry>, gone: seq<nat>, n: nat)
    requires n <= |s| && Ascending(gone) && forall j :: 0 <= j < |gone| ==> gone[j] < n
    ensures |gone| <= n && |Without(s, gone, n)| == n - |gone|
  {
    hide Ascending;
    AscendingCount(gone, n);
    if n > 0 {
      AscendingLast(gone, n);
      if n - 1 in gone {
        var m := |gone| - 1;
        WithoutSame(s, gone[..m], n - 1);
        WithoutLength(s, gone[..m], n - 1);
      } else {
        WithoutLength(s, gone, n - 1);
      }
    }
  }

  // Among ascending numbers below n, only the last can be n - 1.
  lemma AscendingLast(s: seq<nat>, n: nat)
    requires n > 0 && Ascending(s) && forall j :: 0 <= j < |s| ==> s[j] < n
    ensures n - 1 !in s ==> forall j :: 0 <= j < |s| ==> s[j] < n - 1
    ensures n - 1 in s ==> var m := |s| - 1;
              s == s[..m] + [n - 1] && Ascending(s[..m]) && forall j :: 0 <= j < m ==> s[..m][j] < n - 1
  {
    if n - 1 in s {
      var m := |s| - 1;
      assert s[m] == n - 1;
      assert s == s[..m] + [s[m]];
    }
  }

  // The loop of run_old_fails: pop(i - offset) for the offset-th index i.
  method RemovePassed(s: seq<Entry>, passed: seq<nat>) returns (r: seq<Entry>)
    requires Ascending(passed) && forall j :: 0 <= j < |passed| ==> passed[j] < |s|
    ensures r == Without(s, passed, |s|)
  {
    r := s;
    WithoutNone(s, [], |s|);
    for offset := 0 to |passed|
      invariant r == Without(s, passed[..offset], |s|)
    {
      var i := passed[offset];
      AscendingBound(passed, offset);
      WithoutOneMore(s, passed[..offset], i, |s|);
      assert passed[..offset + 1] == passed[..offset] + [i];
      r := r[..i - offset] + r[i - offset + 1..];
    }
    assert passed[..|passed|] == passed;
  }

  lemma AscendingCount(s: seq<nat>, n: nat)
    requires Ascending(s) && forall j :: 0 <= j < |s| ==> s[j] < n
    ensures |s| <= n
  {
    if s != [] {
      AscendingBound(s, |s| - 1);
    }
  }

  lemma {:induction false} AscendingBound(s: seq<nat>, i: nat)
    requires Ascending(s) && i < |s|
    ensures i <= s[i] && Ascending(s[..i]) && forall j :: 0 <= j < i ==> s[..i][j] < s[i]
  {
    if i > 0 {
      AscendingBound(s, i - 1);
    }
  }

  lemma {:induction false} WithoutMembers(s: seq<Entry>, gone: seq<nat>, n: nat, e: Entry)
    requires n <= |s|
    ensures e in Without(s, gone, n) <==> exists i :: 0 <= i < n && s[i] == e && i !in gone
  {
    if n > 0 {
      WithoutMembers(s, gone, n - 1, e);
    }
  }

  lemma {:induction false} WithoutDistinct(s: seq<Entry>, gone: seq<nat>, n: nat)
    requires n <= |s| && Distinct(s)
    ensures Distinct(Without(s, gone, n))
  {
    if n > 0 {
      WithoutDistinct(s, gone, n - 1);
      WithoutMembers(s, gone, n - 1, s[n - 1]);
    }
  }

  // ---- Running the old failures again ----

  datatype Rerun =
    | PathGone               // the test no longer exists: counted as passed
    | NotRunnable            // neither a js file nor the test binary: left alone
    | Ran(outcome: Outcome)  // run_tests on this test alone

  predicate Clears(r: Rerun) {
    r.PathGone? || (r.Ran? && r.outcome.Passes?)
  }

  // An exception ends the loop.
  predicate Aborts(r: Rerun) {
    r.Ran? && (r.outcome.PassesThenRaises? || r.outcome.FailsUnrestarted? || r.outcome.Raises?)
  }

  // A rerun clears its test exactly if the run of it returns and adds a winner,
  // and aborts exactly if the run raises.
  lemma RerunMeaning(t: Test, o: Outcome, continueOnFailure: bool)
    ensures var k := Attempted([o], continueOnFailure);
            var exit := ExitOf([o], k, continueOnFailure);
            && (Clears(Ran(o)) <==> exit != Exception && Won([t], [o], k) != [])
            && (Aborts(Ran(o)) <==> exit == Exception)
  {
    assert [o][1..] == [];
    assert Attempted([o], continueOnFailure) == 1;
    assert Won([t], [o], 0) == [];
  }

  // How many of n entries are tried before an exception.
  function Tried(reruns: nat -> Rerun, n: nat): (k: nat)
    ensures k <= n && (forall i :: 0 <= i < k ==> !Aborts(reruns(i))) && (k < n ==> Aborts(reruns(k)))
  {
    if n == 0 then 0
    else if Tried(reruns, n - 1) < n - 1 || Aborts(reruns(n - 1)) then Tried(reruns, n - 1)
    else n
  }

  function Cleared(reruns: nat -> Rerun, k: nat): seq<nat> {
    if k == 0 then []
    else if Clears(reruns(k - 1)) then Cleared(reruns, k - 1) + [k - 1]
    else Cleared(reruns, k - 1)
  }

  lemma {:induction false} ClearedIndices(reruns: nat -> Rerun, k: nat)
    ensures Ascending(Cleared(reruns, k)) && (forall j :: 0 <= j < |Cleared(reruns, k)| ==> Cleared(reruns, k)[j] < k)
    ensures forall i: nat :: i in Cleared(reruns, k) <==> i < k && Clears(reruns(i))
  {
    if k > 0 {
      ClearedIndices(reruns, k - 1);
    }
  }

  // ---- The file over any sequence of runs ----

  datatype Event =
    | Normal(version: string, fails: seq<Test>, options: nat)
    | OldFails(version: string, reruns: nat -> Rerun)
    | Reset

  function Remaining(entries: seq<Entry>, reruns: nat -> Rerun): seq<Entry> {
    Without(entries, Cleared(reruns, Tried(reruns, |entries|)), |entries|)
  }

  function Apply(file: Saved, event: Event): Saved {
    match event
    case Normal(version, fails, options) => Saved(Some(version), Added(Entries(file), fails, options))
    case OldFails(version, reruns) =>
      if !file.Saved? || file.version != Some(version) then Missing
      else
        var rest := Remaining(file.entries, reruns);
        if rest == [] then Missing else Saved(Some(version), rest)
    case Reset => Missing
  }

  function Run(file: Saved, events: seq<Event>): Saved {
    if events == [] then file else Apply(Run(file, events[..|events| - 1]), events[|events| - 1])
  }

  ghost predicate Adds(event: Event, e: Entry) {
    event.Normal? && event.options == e.options && e.test in event.fails
  }

  // The event takes e off the list: a reset, a file of another version, or a
  // rerun that passed it or found its path gone before any exception.
  ghost predicate Discharges(file: Saved, event: Event, e: Entry) {
    match event
    case Normal(_, _, _) => false
    case Reset => true
    case OldFails(version, reruns) =>
      !file.Saved? || file.version != Some(version) || ClearedIn(file.entries, reruns, e)
  }

  // A rerun of e before any exception found it passing or its path gone.
  ghost predicate ClearedIn(entries: seq<Entry>, reruns: nat -> Rerun, e: Entry) {
    exists i :: 0 <= i < Tried(reruns, |entries|) && entries[i] == e && Clears(reruns(i))
  }

  lemma RemainingMembers(entries: seq<Entry>, reruns: nat -> Rerun, e: Entry)
    requires Distinct(entries)
    ensures Distinct(Remaining(entries, reruns))
    ensures e in Remaining(entries, reruns) <==>
            e in entries && !ClearedIn(entries, reruns, e)
  {
    hide Without, Cleared, Tried, Clears;
    var k := Tried(reruns, |entries|);
    var gone := Cleared(reruns, k);
    ClearedIndices(reruns, k);
    WithoutDistinct(entries, gone, |entries|);
    WithoutMembers(entries, gone, |entries|, e);
    if e in entries {
      var i :| 0 <= i < |entries| && entries[i] == e;
      forall j | 0 <= j < |entries| && entries[j] == e ensures j == i {
      }
    }
  }

  // Before an exception, an entry stays if its rerun did not pass; one whose path
  // is gone does not stay, and one that cannot be run does.
  lemma RemainsIff(entries: seq<Entry>, reruns: nat -> Rerun, i: nat)
    requires Distinct(entries) && i < |entries|
    ensures entries[i] in Remaining(entries, reruns) <==>
            || (exists j :: 0 <= j <= i && reruns(j).Ran? && IsRaising(reruns(j).outcome))
            || match reruns(i) {
                 case PathGone => false
                 case NotRunnable => true
                 case Ran(o) => !o.Passes?
               }
  {
    hide Remaining, Tried;
    RemainingMembers(entries, reruns, entries[i]);
    var k := Tried(reruns, |entries|);
    assert forall j :: 0 <= j < |entries| && entries[j] == entries[i] ==> j == i;
    assert ClearedIn(entries, reruns, entries[i]) <==> i < k && Clears(reruns(i));
    if k <= i {
      assert Aborts(reruns(k));
    }
  }

  // After one event.
  lemma ApplyMembers(file: Saved, event: Event, e: Entry)
    requires Distinct(Entries(file))
    ensures Distinct(Entries(Apply(file, event)))
    ensures e in Entries(Apply(file, event)) <==>
            Adds(event, e) || (e in Entries(file) && !Discharges(file, event, e))
  {
    match event
    case Normal(_, fails, options) =>
      AddedDistinct(Entries(file), fails, options);
      AddedMembers(Entries(file), fails, options, e);
    case OldFails(version, reruns) =>
      if file.Saved? {
        RemainingMembers(file.entries, reruns, e);
      }
    case Reset =>
  }

  // e survives the events from k on.
  ghost predicate Survives(file: Saved, events: seq<Event>, k: nat, e: Entry) {
    forall j :: k <= j < |events| ==> !Discharges(Run(file, events[..j]), events[j], e)
  }

  // Some event added e, or it was there at first, and nothing has discharged it since.
  ghost predicate Outstanding(file: Saved, events: seq<Event>, e: Entry) {
    || (e in Entries(file) && Survives(file, events, 0, e))
    || exists k :: 0 <= k < |events| && Adds(events[k], e) && Survives(file, events, k + 1, e)
  }

  lemma SurvivesLast(file: Saved, events: seq<Event>, k: nat, e: Entry)
    requires k < |events|
    ensures var n := |events| - 1;
            Survives(file, events, k, e) <==>
            Survives(file, events[..n], k, e) && !Discharges(Run(file, events[..n]), events[n], e)
  {
    hide Run, Discharges;
    var n := |events| - 1;
    forall j | k <= j < n ensures events[..n][..j] == events[..j] && events[..n][j] == events[j] {
    }
  }

  // The last event decides, or leaves it to the ones before.
  lemma OutstandingLast(file: Saved, events: seq<Event>, e: Entry)
    requires events != []
    ensures var n := |events| - 1;
            Outstanding(file, events, e) <==>
            || Adds(events[n], e)
            || (Outstanding(file, events[..n], e) && !Discharges(Run(file, events[..n]), events[n], e))
  {
    hide Survives, Discharges, Adds, Entries, Run;
    var n := |events| - 1;
    SurvivesNothing(file, events, e);
    SurvivesLast(file, events, 0, e);
    if Outstanding(file, events[..n], e) && !(e in Entries(file) && Survives(file, events[..n], 0, e)) {
      var k :| 0 <= k < n && Adds(events[..n][k], e) && Survives(file, events[..n], k + 1, e);
      SurvivesLast(file, events, k + 1, e);
      assert Adds(events[k], e);
    }
    if Outstanding(file, events, e) && !Adds(events[n], e) && !(e in Entries(file) && Survives(file, events, 0, e)) {
      var k :| 0 <= k <= n && Adds(events[k], e) && Survives(file, events, k + 1, e);
      SurvivesLast(file, events, k + 1, e);
      assert Adds(events[..n][k], e);
    }
  }

  lemma SurvivesNothing(file: Saved, events: seq<Event>, e: Entry)
    ensures Survives(file, events, |events|, e)
  {
  }

  // An entry is on the list exactly if it is outstanding, and never twice.
  lemma {:induction false} PresentIff(file: Saved, events: seq<Event>, e: Entry)
    requires Distinct(Entries(file))
    ensures Distinct(Entries(Run(file, events)))
    ensures e in Entries(Run(file, events)) <==> Outstanding(file, events, e)
  {
    if events == [] {
      return;
    }
    var n := |events| - 1;
    PresentIff(file, events[..n], e);
    ApplyMembers(Run(file, events[..n]), events[n], e);
    OutstandingLast(file, events, e);
    hide Outstanding, Discharges, Adds, Entries, Apply, Distinct;
  }

  // ---- Runs under one version ----

  // The event, if it has a version, has this one.
  predicate IsUnder(event: Event, version: string) {
    match event
    case Normal(v, _, _) => v == version
    case OldFails(v, _) => v == version
    case Reset => true
  }

  predicate AllUnder(events: seq<Event>, version: string) {
    forall i :: 0 <= i < |events| ==> IsUnder(events[i], version)
  }

  // A rerun under the version of a normal run finds what that run left, whatever
  // file there was before: it drops the entries it clears and no others.
  lemma RerunAfterRun(file: Saved, version: string, fails: seq<Test>, options: nat, reruns: nat -> Rerun, e: Entry)
    requires Distinct(Entries(file))
    ensures var between := Apply(file, Normal(version, fails, options));
            e in Entries(Apply(between, OldFails(version, reruns))) <==>
            && (e in Entries(file) || (e.options == options && e.test in fails))
            && !ClearedIn(Entries(between), reruns, e)
  {
    hide ClearedIn, Added, Remaining;
    var between := Apply(file, Normal(version, fails, options));
    AddedDistinct(Entries(file), fails, options);
    AddedMembers(Entries(file), fails, options, e);
    RemainingMembers(Entries(between), reruns, e);
  }

  // So does a second rerun under the version of a first one.
  lemma RerunAfterRerun(file: Saved, version: string, first: nat -> Rerun, second: nat -> Rerun, e: Entry)
    requires Distinct(Entries(file))
    ensures var between := Apply(file, OldFails(version, first));
            e in Entries(Apply(between, OldFails(version, second))) <==>
            e in Entries(between) && !ClearedIn(Entries(between), second, e)
  {
    hide ClearedIn, Remaining;
    var between := Apply(file, OldFails(version, first));
    ApplyMembers(file, OldFails(version, first), e);
    RemainingMembers(Entries(between), second, e);
  }

  // Under one version only a reset or a clearing rerun takes e off the list.
  ghost predicate Drops(file: Saved, event: Event, e: Entry) {
    event.Reset? || (event.OldFails? && ClearedIn(Entries(file), event.reruns, e))
  }

  predicate IsCurrent(file: Saved, version: string) {
    file.Saved? ==> file.version == Some(version)
  }

  // The first event brings the file under the version.
  lemma {:induction false} CurrentAfter(file: Saved, events: seq<Event>, version: string)
    requires AllUnder(events, version) && (events == [] ==> IsCurrent(file, version))
    ensures IsCurrent(Run(file, events), version)
  {
    if events != [] {
      assert IsUnder(events[|events| - 1], version);
    }
  }

  lemma DropsOrStays(file: Saved, event: Event, version: string, e: Entry)
    requires Distinct(Entries(file)) && IsCurrent(file, version) && IsUnder(event, version)
    ensures Distinct(Entries(Apply(file, event)))
    ensures e in Entries(Apply(file, event)) <==> Adds(event, e) || (e in Entries(file) && !Drops(file, event, e))
  {
    hide ClearedIn;
    ApplyMembers(file, event, e);
  }

  // Added by event k, and not dropped since.
  ghost predicate Standing(file: Saved, events: seq<Event>, e: Entry, k: nat) {
    && 0 < k <= |events| && Adds(events[k - 1], e)
    && forall j :: k <= j < |events| ==> !Drops(Run(file, events[..j]), events[j], e)
  }

  lemma StandingLast(file: Saved, events: seq<Event>, e: Entry, k: nat)
    requires events != []
    ensures var n := |events| - 1;
            Standing(file, events, e, k) <==>
            if k == n + 1 then Adds(events[n], e)
            else Standing(file, events[..n], e, k) && !Drops(Run(file, events[..n]), events[n], e)
  {
    hide Run, Drops, Adds;
    var n := |events| - 1;
    forall j | 0 <= j < n ensures events[..n][..j] == events[..j] && events[..n][j] == events[j] {
    }
  }

  // From no file, under one version: an entry is on the list exactly if some run
  // added it and since then there was neither a reset nor a rerun that cleared it.
  lemma {:induction false} StandsUntilDropped(events: seq<Event>, version: string, e: Entry)
    requires AllUnder(events, version)
    ensures Distinct(Entries(Run(Missing, events)))
    ensures e in Entries(Run(Missing, events)) <==> exists k: nat :: Standing(Missing, events, e, k)
  {
    if events == [] {
      return;
    }
    hide Standing, Drops, Adds, Entries, Apply, Distinct, IsCurrent;
    var n := |events| - 1;
    NoFile(version);
    StandsUntilDropped(events[..n], version, e);
    CurrentAfter(Missing, events[..n], version);
    assert IsUnder(events[n], version);
    DropsOrStays(Run(Missing, events[..n]), events[n], version, e);
    forall k: nat ensures Standing(Missing, events, e, k) <==>
                          if k == n + 1 then Adds(events[n], e)
                          else Standing(Missing, events[..n], e, k) && !Drops(Run(Missing, events[..n]), events[n], e) {
      StandingLast(Missing, events, e, k);
    }
    NotYetStanding(Missing, events[..n], e);
    assert Adds(events[n], e) ==> Standing(Missing, events, e, n + 1);
  }

  lemma NoFile(version: string)
    ensures IsCurrent(Missing, version)
  {
  }

  lemma NotYetStanding(file: Saved, events: seq<Event>, e: Entry)
    ensures !Standing(file, events, e, |events| + 1)
  {
  }

  // ---- The file as smoke.py keeps it ----

  class Store {
    var file: Saved

    constructor ()
      ensures file == Missing
    {
      file := Missing;
    }

    method ClearFailfile()
      modifies this
      ensures file == Apply(old(file), Reset)
    {
      file := Missing;
    }

    method AddToFailfile(version: string, tests: seq<Test>, options: nat)
      modifies this
      ensures file == Apply(old(file), Normal(version, tests, options))
    {
      var entries := Entries(file);
      for i := 0 to |tests|
        invariant entries == Added(Entries(old(file)), tests[..i], options)
      {
        assert tests[..i + 1][..i] == tests[..i];
        if Entry(tests[i], options) !in entries {
          entries := entries + [Entry(tests[i], options)];
        }
      }
      assert tests[..|tests|] == tests;
      file := Saved(Some(version), entries);
    }

    method RunOldFails(version: string, reruns: nat -> Rerun)
      modifies this
      ensures file == Apply(old(file), OldFails(version, reruns))
    {
      if !file.Saved? || file.version != Some(version) {
        ClearFailfile();
        return;
      }
      var entries, passed, i := file.entries, [], 0;
      while i < |entries| && !Aborts(reruns(i))
        invariant i <= Tried(reruns, |entries|) && passed == Cleared(reruns, i)
      {
        if Clears(reruns(i)) {
          passed := passed + [i];
        }
        i := i + 1;
      }
      ClearedIndices(reruns, i);
      var rest := RemovePassed(entries, passed);
      if rest != [] {
        file := Saved(Some(version), rest);
      } else {
        ClearFailfile();
      }
    }
  }

  // What the two files have to do with each other: after a normal run every test
  // that was attempted and did not pass, whatever stopped the run, is on the list.
  lemma FailuresAreKept(file: Saved, version: string, options: nat, tests: seq<Test>, outcomes: seq<Outcome>,
                        continueOnFailure: bool, i: nat)
    requires |tests| == |outcomes| && i < Attempted(outcomes, continueOnFailure) && !Wins(outcomes[i])
    ensures var fails := Lost(tests, outcomes, Attempted(outcomes, continueOnFailure));
            Entry(tests[i], options) in Entries(Apply(file, Normal(version, fails, options)))
  {
    var k := Attempted(outcomes, continueOnFailure);
    InLost(tests, outcomes, k, tests[i]);
    AddedMembers(Entries(file), Lost(tests, outcomes, k), options, Entry(tests[i], options));
  }
}
