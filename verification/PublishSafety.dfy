/** What a publish guarantees: at every step, at its end, over many publishes,
    and after one that was cut short. */
module PublishSafety {
  import opened Collections
  import Decimal
  import opened FileNames
  import opened Publisher

  // ---- Every prefix of a run ----

  predicate Renamed(phase: Phase) {
    match phase
    case RenameOld(_, _) => true
    case Finished(_, _, _) => true
    case Raised(where) => Renamed(where)
    case _ => false
  }

  // The old link has been made.
  predicate OldLinked(phase: Phase) {
    match phase
    case RenameNew(_, _, keep) => keep
    case RenameOld(_, _) => true
    case Finished(_, _, keep) => keep
    case Raised(where) => OldLinked(where)
    case _ => false
  }

  // dst is absent or leads somewhere.
  predicate Settled(dst: string, fs: Names) {
    dst in fs ==> Exists(fs, dst)
  }

  // One of the names a publish gives to the previous generation leads to it.
  predicate PreviousNamed(dst: string, fs0: Names, fs: Names) {
    Resolve(fs, OldTemporary(dst)) == Resolve(fs0, dst) || Resolve(fs, OldName(dst)) == Resolve(fs0, dst)
  }

  // dst leads where it leads through dst.old.
  predicate ThroughOld(dst: string, fs: Names) {
    OldName(dst) in Trail(fs, dst, LINK_LIMIT)
  }

  ghost predicate Safe(job: Job, fs0: Names, c: Config) {
    var dst, old0, fs := job.dst, OldName(job.dst), c.fs;
    && (forall x :: x in fs0 && x != dst && x != old0 ==> x in fs && fs[x] == fs0[x])
    && (!Renamed(c.phase) ==> Resolve(fs, dst) == Resolve(fs0, dst))
    && (Renamed(c.phase) ==> Resolve(fs, dst).Some? &&
                             var d := Resolve(fs, dst).value; d !in fs0 && d in fs && fs[d] == Dir(job.src))
    && (OldLinked(c.phase) ==> dst in fs0 && fs0[dst].Link? &&
                               exists x :: x in {OldTemporary(dst), old0} && x in fs && fs[x] == fs0[dst])
    && (OldLinked(c.phase) ==> (PreviousNamed(dst, fs0, fs) <==> !(c.phase.Finished? && ThroughOld(dst, fs0))))
  }

  // Before the rename nothing is changed or removed, only added.
  lemma BeforeRename(job: Job, fs0: Names, phase: Phase, fs: Names)
    requires IsJob(job) && At(job, fs0, phase, fs) && !Renamed(phase)
    ensures forall x :: x in fs0 ==> x in fs && fs[x] == fs0[x]
    ensures job.dst in fs ==> job.dst in fs0
  {
    match phase
    case MakeDir(_) =>
    case Copy(dname, _) => NamesApart(job, fs0, dname, "");
    case LinkNew(dname, _) => NamesApart(job, fs0, dname, "");
    case Inspect(dname, tmp) => NamesApart(job, fs0, dname, tmp);
    case LinkOld(dname, tmp) => NamesApart(job, fs0, dname, tmp);
    case RenameNew(dname, tmp, _) => NamesApart(job, fs0, dname, tmp);
    case Raised(where) => BeforeRename(job, fs0, where, fs);
  }

  lemma PlacedByRename(job: Job, fs0: Names, phase: Phase, fs: Names, dname: string)
    requires IsJob(job) && At(job, fs0, phase, fs)
    requires (phase.RenameOld? || phase.Finished?) && dname == phase.dname
    ensures dname !in fs0 && job.dst in fs && fs[job.dst] == Link(dname) && dname in fs && fs[dname] == Dir(job.src)
    ensures forall x :: x in fs0 && x != job.dst && x != OldName(job.dst) ==> x in fs && fs[x] == fs0[x]
  {
    hide Exists, IsNewLink;
    NamesApart(job, fs0, dname, "");
    hide IsJob, IsNewDir;
  }

  lemma AfterRename(job: Job, fs0: Names, phase: Phase, fs: Names, dname: string)
    requires IsJob(job) && At(job, fs0, phase, fs)
    requires (phase.RenameOld? || phase.Finished?) && dname == phase.dname
    ensures Resolve(fs, job.dst) == Some(dname) && dname !in fs0 && dname in fs && fs[dname] == Dir(job.src)
    ensures forall x :: x in fs0 && x != job.dst && x != OldName(job.dst) ==> x in fs && fs[x] == fs0[x]
  {
    hide IsJob, Exists, Resolve, IsNewLink;
    PlacedByRename(job, fs0, phase, fs, dname);
    LinkToDir(fs, job.dst, dname);
    hide At;
  }

  lemma OldHasName(job: Job, fs0: Names, phase: Phase, fs: Names)
    requires IsJob(job) && At(job, fs0, phase, fs) && OldLinked(phase)
    ensures job.dst in fs0 && fs0[job.dst].Link?
    ensures exists x :: x in {OldTemporary(job.dst), OldName(job.dst)} && x in fs && fs[x] == fs0[job.dst]
  {
    match phase
    case RenameNew(_, _, _) => assert fs[OldTemporary(job.dst)] == fs0[job.dst];
    case RenameOld(_, _) => assert fs[OldTemporary(job.dst)] == fs0[job.dst];
    case Finished(_, _, _) => assert fs[OldName(job.dst)] == fs0[job.dst];
    case Raised(where) => OldHasName(job, fs0, where, fs);
  }

  lemma LinkCopied(fs: Names, fs': Names, n: string, x: string)
    requires n in fs && fs[n].Link? && Exists(fs, n) && x in fs' && fs'[x] == fs[n]
    requires forall y :: y in fs ==> y in fs' && fs'[y] == fs[y]
    ensures Resolve(fs', x) == Resolve(fs, n)
  {
    ChaseGrows(fs, fs', fs[n].target, LINK_LIMIT - 1);
  }

  lemma NamedBeforeEnd(job: Job, fs0: Names, phase: Phase, fs: Names)
    requires IsJob(job) && At(job, fs0, phase, fs) && OldLinked(phase) && Settled(job.dst, fs0)
    requires phase.RenameNew? || phase.RenameOld?
    ensures Resolve(fs, OldTemporary(job.dst)) == Resolve(fs0, job.dst)
  {
    hide Chase, Trail, IsJob;
    NamesApart(job, fs0, phase.dname, phase.tmp);
    if phase.RenameNew? {
      LinkCopied(fs0, fs, job.dst, OldTemporary(job.dst));
    } else {
      LiveTrailExists(fs0, job.dst, LINK_LIMIT);
      OldNamesPrevious(fs0, fs, job.dst, OldTemporary(job.dst));
    }
  }

  lemma NamedAtEnd(job: Job, fs0: Names, phase: Phase, fs: Names)
    requires IsJob(job) && At(job, fs0, phase, fs) && OldLinked(phase) && Settled(job.dst, fs0)
    requires phase.Finished?
    ensures OldTemporary(job.dst) !in fs
    ensures Resolve(fs, OldName(job.dst)) == Resolve(fs0, job.dst) <==> !ThroughOld(job.dst, fs0)
  {
    hide Chase, Trail, IsJob;
    NamesApart(job, fs0, phase.dname, phase.tmp);
    OldNamesPrevious(fs0, fs, job.dst, OldName(job.dst));
  }

  // From the old link on, one of the two old names leads to the previous
  // generation, unless dst led there through dst.old, which the last rename replaced.
  lemma PreviousNamedIff(job: Job, fs0: Names, phase: Phase, fs: Names)
    requires IsJob(job) && At(job, fs0, phase, fs) && OldLinked(phase) && Settled(job.dst, fs0)
    ensures PreviousNamed(job.dst, fs0, fs) <==> !(phase.Finished? && ThroughOld(job.dst, fs0))
  {
    hide Trail, IsJob, IsNewDir, IsNewLink;
    OldHasName(job, fs0, phase, fs);
    match phase
    case RenameNew(_, _, _) => NamedBeforeEnd(job, fs0, phase, fs);
    case RenameOld(_, _) => NamedBeforeEnd(job, fs0, phase, fs);
    case Finished(_, _, _) => NamedAtEnd(job, fs0, phase, fs);
    case Raised(where) => PreviousNamedIff(job, fs0, where, fs);
  }

  // Whenever a run stops, by itself or not, dst still leads to the previous
  // generation or already to the whole new one, nothing else was overwritten,
  // and the previous generation has a name once the old link is made, except at
  // the end of a run that found dst leading there through dst.old.
  lemma EveryPrefixIsSafe(job: Job, fs0: Names, n: nat)
    requires IsJob(job) && Settled(job.dst, fs0)
    ensures Safe(job, fs0, Run(job, fs0, n))
  {
    var c := Run(job, fs0, n);
    RunIsAt(job, fs0, n);
    if Renamed(c.phase) {
      var phase := if c.phase.Raised? then c.phase.where else c.phase;
      assert At(job, fs0, phase, c.fs) && Renamed(phase);
      assert (phase.RenameOld? || phase.Finished?);
      AfterRename(job, fs0, phase, c.fs, phase.dname);
    } else {
      BeforeRename(job, fs0, c.phase, c.fs);
      if Exists(fs0, job.dst) {
        ChaseGrows(fs0, c.fs, job.dst, LINK_LIMIT);
      }
    }
    if OldLinked(c.phase) {
      OldHasName(job, fs0, c.phase, c.fs);
      PreviousNamedIff(job, fs0, c.phase, c.fs);
    }
  }

  // A dangling dst is not safe: if its trail ends at the name the run makes, dst
  // leads to the new directory while that is still being filled; and only then.
  lemma DanglingSeesPartialCopy(job: Job, fs0: Names, n: nat)
    requires IsJob(job) && Run(job, fs0, n).phase.Copy?
    ensures var c := Run(job, fs0, n);
            Resolve(c.fs, job.dst) == Resolve(fs0, job.dst) <==>
            MissingEnd(fs0, job.dst, LINK_LIMIT) != Some(c.phase.dname)
  {
    var c := Run(job, fs0, n);
    RunIsAt(job, fs0, n);
    ChaseAfterNew(fs0, c.phase.dname, c.fs[c.phase.dname], job.dst, LINK_LIMIT);
  }

  // dst leads where it led at first, or to the whole new generation.
  ghost predicate Whole(job: Job, fs0: Names, fs: Names) {
    var d := Resolve(fs, job.dst);
    d == Resolve(fs0, job.dst) || (d.Some? && d.value !in fs0 && d.value in fs && fs[d.value] == Dir(job.src))
  }

  // From any state at all: it does, except for a dangling dst during the copy.
  lemma WholeUnlessDangling(job: Job, fs0: Names, n: nat)
    requires IsJob(job)
    ensures var c := Run(job, fs0, n);
            Whole(job, fs0, c.fs) <==>
            !(c.phase.Copy? && MissingEnd(fs0, job.dst, LINK_LIMIT) == Some(c.phase.dname) &&
              c.fs[c.phase.dname] != Dir(job.src))
  {
    var c := Run(job, fs0, n);
    RunIsAt(job, fs0, n);
    if c.phase.Copy? {
      DanglingSeesPartialCopy(job, fs0, n);
      ChaseAfterNew(fs0, c.phase.dname, c.fs[c.phase.dname], job.dst, LINK_LIMIT);
    } else {
      WholeOutsideCopy(job, fs0, c.phase, c.fs);
    }
  }

  lemma WholeOutsideCopy(job: Job, fs0: Names, phase: Phase, fs: Names)
    requires IsJob(job) && At(job, fs0, phase, fs) && !phase.Copy?
    ensures Whole(job, fs0, fs)
  {
    match phase
    case MakeDir(_) =>
    case LinkNew(dname, _) => ChaseAfterNew(fs0, dname, Dir(job.src), job.dst, LINK_LIMIT);
    case Inspect(dname, tmp) => WholeWithLink(job, fs0, dname, tmp);
    case LinkOld(dname, tmp) => WholeWithLink(job, fs0, dname, tmp);
    case RenameNew(dname, tmp, keep) =>
      WholeWithLink(job, fs0, dname, tmp);
      if keep {
        NamesApart(job, fs0, dname, tmp);
        ChaseGrows(WithLink(job, fs0, dname, tmp), fs, job.dst, LINK_LIMIT);
      }
    case RenameOld(dname, _) => AfterRename(job, fs0, phase, fs, dname);
    case Finished(dname, _, _) => AfterRename(job, fs0, phase, fs, dname);
    case Raised(where) => WholeOutsideCopy(job, fs0, where, fs);
  }

  lemma WholeWithLink(job: Job, fs0: Names, dname: string, tmp: string)
    requires IsJob(job) && IsNewDir(job, fs0, dname) && IsNewLink(job, fs0, tmp)
    ensures Whole(job, fs0, WithLink(job, fs0, dname, tmp))
  {
    NamesApart(job, fs0, dname, tmp);
    ChaseAfterNew(fs0, dname, Dir(job.src), job.dst, LINK_LIMIT);
    ChaseAfterNew(WithDir(job, fs0, dname), tmp, Link(dname), job.dst, LINK_LIMIT);
    hide Chase, MissingEnd;
  }

  lemma CopyTargetStays(job: Job, fs0: Names, i: nat, j: nat, c: Config)
    requires FirstFree(job, fs0, i, j) && At(job, fs0, c.phase, c.fs)
    requires c.phase.Copy? ==> c.phase.dname == Dated(job.dst, job.clock(i), i)
    ensures var p := Step(job, c).phase; p.Copy? ==> p.dname == Dated(job.dst, job.clock(i), i)
  {
    hide Exists, CanRename, Rename, Named, Dated, Temporary;
  }

  // The copy goes to the first free name.
  lemma {:induction false} CopiesToFirst(job: Job, fs0: Names, i: nat, j: nat, n: nat)
    requires IsJob(job) && FirstFree(job, fs0, i, j)
    ensures var p := Run(job, fs0, n).phase; p.Copy? ==> p.dname == Dated(job.dst, job.clock(i), i)
  {
    hide Step, At, FirstFree, IsJob, Dated;
    if n > 0 {
      CopiesToFirst(job, fs0, i, j, n - 1);
      RunIsAt(job, fs0, n - 1);
      CopyTargetStays(job, fs0, i, j, Run(job, fs0, n - 1));
    }
  }

  // What a caller can check: dst is whole at every step exactly if it does not
  // dangle at the first free directory name, or there is nothing to copy.
  lemma WholeIff(job: Job, fs0: Names, i: nat, j: nat)
    requires IsJob(job) && FirstFree(job, fs0, i, j)
    ensures (forall n: nat :: Whole(job, fs0, Run(job, fs0, n).fs)) <==>
            !(MissingEnd(fs0, job.dst, LINK_LIMIT) == Some(Dated(job.dst, job.clock(i), i)) && job.src != map[])
  {
    var dname := Dated(job.dst, job.clock(i), i);
    if MissingEnd(fs0, job.dst, LINK_LIMIT) == Some(dname) && job.src != map[] {
      TriesDirs(job, fs0, i);
      assert Run(job, fs0, i + 1) == Config(Copy(dname, 0), fs0[dname := Dir(map[])]);
      WholeUnlessDangling(job, fs0, i + 1);
    } else {
      forall n: nat ensures Whole(job, fs0, Run(job, fs0, n).fs) {
        WholeUnlessDangling(job, fs0, n);
        CopiesToFirst(job, fs0, i, j, n);
        RunIsAt(job, fs0, n);
      }
    }
  }

  // So it goes with a dst that points at the name today's first publish will use.
  lemma DanglingExample(job: Job)
    requires IsJob(job)
    ensures var dname := Dated(job.dst, job.clock(0), 0);
            var c := Run(job, map[job.dst := Link(dname)], 1);
            Resolve(c.fs, job.dst) == Some(dname) && dname in c.fs && c.fs[dname] == Dir(map[]) && c.phase.Copy?
  {
    var dname := Dated(job.dst, job.clock(0), 0);
    var fs0 := map[job.dst := Link(dname)];
    NamesDistinct(job.dst, job.clock(0), 0, 0);
    assert Run(job, fs0, 1) == Step(job, Run(job, fs0, 0));
    LinkToDir(Run(job, fs0, 1).fs, job.dst, dname);
  }

  // ---- Termination ----

  predicate Final(phase: Phase) {
    phase.Finished? || phase.Raised?
  }

  // In the third loop, with the one name it tries already taken.
  predicate Caught(dst: string, c: Config) {
    c.phase.LinkOld? && dst in c.fs && c.fs[dst].Link? && OldTemporary(dst) in c.fs
  }

  ghost predicate NeverCaught(job: Job, fs0: Names) {
    forall n: nat :: !Caught(job.dst, Run(job, fs0, n))
  }

  lemma {:induction false} Pigeonhole(f: nat -> string, keys: set<string>, n: nat)
    requires forall i :: 0 <= i < n ==> f(i) in keys
    requires forall i, j :: 0 <= i < j < n ==> f(i) != f(j)
    ensures n <= |keys|
  {
    if n > 0 {
      Pigeonhole(f, keys - {f(n - 1)}, n - 1);
    }
  }

  // The first two loops try at most one name more than there are names.
  lemma CountersBounded(job: Job, fs0: Names, phase: Phase, fs: Names)
    requires IsJob(job) && At(job, fs0, phase, fs)
    ensures phase.MakeDir? || phase.LinkNew? ==> phase.i <= |fs0|
  {
    if phase.MakeDir? {
      var f := (i: nat) => Dated(job.dst, job.clock(i), i);
      forall i, j | 0 <= i < j < phase.i ensures f(i) != f(j) {
        DatedInjective(job.dst, job.clock(i), i, job.clock(j), j);
      }
      Pigeonhole(f, fs0.Keys, phase.i);
    } else if phase.LinkNew? {
      var f := (i: nat) => Temporary(job.dst, i);
      forall i, j | 0 <= i < j < phase.i ensures f(i) != f(j) {
        TemporaryInjective(job.dst, i, j);
      }
      Pigeonhole(f, fs0.Keys, phase.i);
    }
  }

  function Rank(phase: Phase): nat {
    match phase
    case MakeDir(_) => 7
    case Copy(_, _) => 6
    case LinkNew(_, _) => 5
    case Inspect(_, _) => 4
    case LinkOld(_, _) => 3
    case RenameNew(_, _, _) => 2
    case RenameOld(_, _) => 1
    case _ => 0
  }

  function Left(job: Job, fs0: Names, phase: Phase): int {
    match phase
    case MakeDir(i) => |fs0| + 1 - i
    case Copy(_, k) => |job.order| - k
    case LinkNew(_, i) => |fs0| + 1 - i
    case _ => 0
  }

  lemma StepDescends(job: Job, fs0: Names, c: Config)
    requires IsJob(job) && At(job, fs0, c.phase, c.fs) && !Final(c.phase) && !Caught(job.dst, c)
    ensures Left(job, fs0, c.phase) >= 0
    ensures var p := Step(job, c).phase;
            Rank(p) < Rank(c.phase) || (Rank(p) == Rank(c.phase) && Left(job, fs0, p) < Left(job, fs0, c.phase))
  {
    hide Exists, CanRename, Rename, WithLink, WithDir, Dated, Temporary, Named, IsNewLink, IsNewDir, CopiedUpTo;
    CountersBounded(job, fs0, c.phase, c.fs);
  }

  lemma {:induction false} ReachesEnd(job: Job, fs0: Names, n: nat) returns (m: nat)
    requires IsJob(job) && NeverCaught(job, fs0)
    ensures Final(Run(job, fs0, m).phase)
    decreases Rank(Run(job, fs0, n).phase), Left(job, fs0, Run(job, fs0, n).phase)
  {
    var c := Run(job, fs0, n);
    if Final(c.phase) {
      return n;
    }
    RunIsAt(job, fs0, n);
    StepDescends(job, fs0, c);
    assert Run(job, fs0, n + 1) == Step(job, c);
    m := ReachesEnd(job, fs0, n + 1);
  }

  lemma {:induction false} CaughtForever(job: Job, fs0: Names, n: nat, m: nat)
    requires Caught(job.dst, Run(job, fs0, n)) && n <= m
    ensures Run(job, fs0, m) == Run(job, fs0, n)
    decreases m
  {
    if n < m {
      CaughtForever(job, fs0, n, m - 1);
    }
  }

  lemma {:induction false} FinalStays(job: Job, fs0: Names, n: nat, m: nat)
    requires Final(Run(job, fs0, n).phase) && n <= m
    ensures Run(job, fs0, m) == Run(job, fs0, n)
    decreases m
  {
    if n < m {
      FinalStays(job, fs0, n, m - 1);
    }
  }

  // A publish ends exactly when it is never caught in the third loop.
  lemma TerminatesIff(job: Job, fs0: Names)
    requires IsJob(job)
    ensures (exists n: nat :: Final(Run(job, fs0, n).phase)) <==> NeverCaught(job, fs0)
  {
    if NeverCaught(job, fs0) {
      var m := ReachesEnd(job, fs0, 0);
    }
    if n: nat :| Final(Run(job, fs0, n).phase) {
      forall m: nat ensures !Caught(job.dst, Run(job, fs0, m)) {
        if Caught(job.dst, Run(job, fs0, m)) {
          if n <= m {
            FinalStays(job, fs0, n, m);
          } else {
            CaughtForever(job, fs0, m, n);
          }
        }
      }
    }
  }

  // dst is a live link and the name the third loop tries is taken.
  predicate Blocked(dst: string, fs: Names) {
    dst in fs && fs[dst].Link? && Exists(fs, dst) && OldTemporary(dst) in fs
  }

  // Before the rename a blocked state stays blocked.
  lemma StillBlocked(job: Job, fs0: Names, c: Config)
    requires IsJob(job) && Blocked(job.dst, fs0) && At(job, fs0, c.phase, c.fs) && !Renamed(c.phase)
    ensures Blocked(job.dst, c.fs)
  {
    BeforeRename(job, fs0, c.phase, c.fs);
    ChaseGrows(fs0, c.fs, job.dst, LINK_LIMIT);
    hide At, Chase, IsJob;
  }

  lemma BlockedStep(job: Job, c: Config)
    requires IsJob(job) && Blocked(job.dst, c.fs) && Rank(c.phase) >= 3
    requires c.phase.Copy? ==> c.phase.dname in c.fs && c.fs[c.phase.dname].Dir?
    ensures Rank(Step(job, c).phase) >= 3
  {
    hide Resolve, Dated, Temporary;
    if c.phase.Copy? && c.phase.k < |job.order| {
      assert job.order[c.phase.k] in job.order;
    }
  }

  // From a blocked state dst is never renamed, and wherever the run is cut the
  // state is still blocked.
  lemma {:induction false} BlockedRun(job: Job, fs0: Names, n: nat)
    requires IsJob(job) && Blocked(job.dst, fs0)
    ensures var Config(p, fs) := Run(job, fs0, n); !Renamed(p) && !Final(p) && Rank(p) >= 3 && Blocked(job.dst, fs)
  {
    hide Step, IsJob, Blocked;
    if n > 0 {
      BlockedRun(job, fs0, n - 1);
      var c := Run(job, fs0, n - 1);
      RunIsAt(job, fs0, n - 1);
      BlockedStep(job, c);
      RunIsAt(job, fs0, n);
      StillBlocked(job, fs0, Run(job, fs0, n));
    }
  }

  // What a caller can check: with dst absent or live, a publish ends unless blocked.
  lemma EndsUnlessBlocked(job: Job, fs0: Names)
    requires IsJob(job) && Settled(job.dst, fs0)
    ensures NeverCaught(job, fs0) <==> !Blocked(job.dst, fs0)
  {
    TerminatesIff(job, fs0);
    if Blocked(job.dst, fs0) {
      forall n: nat ensures !Final(Run(job, fs0, n).phase) {
        BlockedRun(job, fs0, n);
      }
    } else {
      forall n: nat ensures !Caught(job.dst, Run(job, fs0, n)) {
        var c := Run(job, fs0, n);
        RunIsAt(job, fs0, n);
        if Caught(job.dst, c) {
          BeforeRename(job, fs0, c.phase, c.fs);
          NamesApart(job, fs0, c.phase.dname, c.phase.tmp);
        }
      }
    }
  }

  // The first free name of each of the first two loops.
  ghost predicate FirstFree(job: Job, fs0: Names, i: nat, j: nat) {
    && Dated(job.dst, job.clock(i), i) !in fs0 && (forall k: nat :: k < i ==> Dated(job.dst, job.clock(k), k) in fs0)
    && Temporary(job.dst, j) !in fs0 && (forall k: nat :: k < j ==> Temporary(job.dst, k) in fs0)
  }

  lemma {:induction false} FreeDir(job: Job, fs0: Names, i: nat) returns (r: nat)
    requires IsJob(job) && forall k: nat :: k < i ==> Dated(job.dst, job.clock(k), k) in fs0
    ensures Dated(job.dst, job.clock(r), r) !in fs0 && forall k: nat :: k < r ==> Dated(job.dst, job.clock(k), k) in fs0
    decreases |fs0| + 1 - i
  {
    CountersBounded(job, fs0, MakeDir(i), fs0);
    if Dated(job.dst, job.clock(i), i) !in fs0 {
      return i;
    }
    r := FreeDir(job, fs0, i + 1);
  }

  lemma {:induction false} FreeLink(job: Job, fs0: Names, dname: string, i: nat) returns (r: nat)
    requires IsJob(job) && IsNewDir(job, fs0, dname) && forall k: nat :: k < i ==> Temporary(job.dst, k) in fs0
    ensures Temporary(job.dst, r) !in fs0 && forall k: nat :: k < r ==> Temporary(job.dst, k) in fs0
    decreases |fs0| + 1 - i
  {
    CountersBounded(job, fs0, LinkNew(dname, i), WithDir(job, fs0, dname));
    if Temporary(job.dst, i) !in fs0 {
      return i;
    }
    r := FreeLink(job, fs0, dname, i + 1);
  }

  // There always are such names, among the first |fs0| + 1.
  lemma SomeFree(job: Job, fs0: Names) returns (i: nat, j: nat)
    requires IsJob(job)
    ensures FirstFree(job, fs0, i, j) && i <= |fs0| && j <= |fs0|
  {
    i := FreeDir(job, fs0, 0);
    var dname := Dated(job.dst, job.clock(i), i);
    j := FreeLink(job, fs0, dname, 0);
    CountersBounded(job, fs0, MakeDir(i), fs0);
    CountersBounded(job, fs0, LinkNew(dname, j), WithDir(job, fs0, dname));
  }

  // dst is a link that leads somewhere once the new directory and the link to it
  // are there, and the name the third loop tries is taken.
  predicate Jammed(job: Job, fs0: Names, i: nat, j: nat) {
    && job.dst in fs0 && fs0[job.dst].Link? && OldTemporary(job.dst) in fs0
    && Exists(WithLink(job, fs0, Dated(job.dst, job.clock(i), i), Temporary(job.dst, j)), job.dst)
  }

  lemma {:induction false} TriesDirs(job: Job, fs0: Names, i: nat)
    requires forall k: nat :: k < i ==> Dated(job.dst, job.clock(k), k) in fs0
    ensures Run(job, fs0, i) == Config(MakeDir(i), fs0)
  {
    if i > 0 {
      TriesDirs(job, fs0, i - 1);
    }
  }

  lemma {:induction false} CopiesAll(job: Job, fs0: Names, n: nat, dname: string, k: nat) returns (m: nat)
    requires IsJob(job) && k <= |job.order|
    requires Run(job, fs0, n).phase == Copy(dname, k)
    ensures Run(job, fs0, m).phase == LinkNew(dname, 0)
    decreases |job.order| - k
  {
    CopyTarget(job, fs0, n);
    assert Run(job, fs0, n + 1) == Step(job, Run(job, fs0, n));
    if k == |job.order| {
      return n + 1;
    }
    m := CopiesAll(job, fs0, n + 1, dname, k + 1);
  }

  lemma {:induction false} TriesLinks(job: Job, fs0: Names, n: nat, dname: string, i: nat, j: nat) returns (m: nat)
    requires IsJob(job) && Run(job, fs0, n).phase == LinkNew(dname, i) && i <= j
    requires Temporary(job.dst, j) !in fs0 && forall k: nat :: k < j ==> Temporary(job.dst, k) in fs0
    ensures Run(job, fs0, m) ==
            Config(Inspect(dname, Temporary(job.dst, j)), WithLink(job, fs0, dname, Temporary(job.dst, j)))
    decreases j - i
  {
    RunIsAt(job, fs0, n);
    assert Run(job, fs0, n + 1) == Step(job, Run(job, fs0, n));
    if i == j {
      assert IsNewLink(job, fs0, Temporary(job.dst, j));
      NamesApart(job, fs0, dname, Temporary(job.dst, j));
      return n + 1;
    }
    m := TriesLinks(job, fs0, n + 1, dname, i + 1, j);
  }

  lemma {:induction false} RankFalls(job: Job, fs0: Names, n: nat, m: nat)
    requires n <= m
    ensures Rank(Run(job, fs0, n).phase) >= Rank(Run(job, fs0, m).phase)
    decreases m
  {
    if n < m {
      RankFalls(job, fs0, n, m - 1);
    }
  }

  // What a caller can check, from any state: a publish ends exactly if it is not jammed.
  lemma EndsIff(job: Job, fs0: Names, i: nat, j: nat)
    requires IsJob(job) && FirstFree(job, fs0, i, j)
    ensures (exists n: nat :: Final(Run(job, fs0, n).phase)) <==> !Jammed(job, fs0, i, j)
  {
    var n := ReachesInspect(job, fs0, i, j);
    TerminatesIff(job, fs0);
    CaughtIff(job, fs0, i, j, n);
    hide Run;
  }

  lemma ReachesInspect(job: Job, fs0: Names, i: nat, j: nat) returns (n: nat)
    requires IsJob(job) && FirstFree(job, fs0, i, j)
    ensures var dname, tmp := Dated(job.dst, job.clock(i), i), Temporary(job.dst, j);
            Run(job, fs0, n) == Config(Inspect(dname, tmp), WithLink(job, fs0, dname, tmp))
  {
    var dname := Dated(job.dst, job.clock(i), i);
    TriesDirs(job, fs0, i);
    assert Run(job, fs0, i + 1).phase == Copy(dname, 0);
    n := CopiesAll(job, fs0, i + 1, dname, 0);
    n := TriesLinks(job, fs0, n, dname, 0, j);
  }

  lemma CaughtIff(job: Job, fs0: Names, i: nat, j: nat, n: nat)
    requires IsJob(job) && FirstFree(job, fs0, i, j)
    requires var dname, tmp := Dated(job.dst, job.clock(i), i), Temporary(job.dst, j);
             Run(job, fs0, n) == Config(Inspect(dname, tmp), WithLink(job, fs0, dname, tmp))
    ensures NeverCaught(job, fs0) <==> !Jammed(job, fs0, i, j)
  {
    var dst, dname, tmp := job.dst, Dated(job.dst, job.clock(i), i), Temporary(job.dst, j);
    var fs := WithLink(job, fs0, dname, tmp);
    NamesDistinct(dst, job.clock(i), i, j);
    var c1, c2 := Run(job, fs0, n + 1), Run(job, fs0, n + 2);
    assert c1 == Step(job, Run(job, fs0, n)) && c2 == Step(job, c1);
    assert Caught(dst, c1) <==> Jammed(job, fs0, i, j);
    if !Jammed(job, fs0, i, j) {
      assert Rank(c2.phase) <= 2;
      forall m: nat ensures !Caught(dst, Run(job, fs0, m)) {
        if m <= n {
          RankFalls(job, fs0, m, n);
        } else if m > n + 1 {
          RankFalls(job, fs0, n + 2, m);
        }
      }
    }
  }

  // If there is a previous generation to keep, dst is a link, the name the third
  // loop tries is free, and dst.old is not a directory.
  predicate Unhindered(job: Job, fs0: Names, i: nat, j: nat) {
    Exists(WithLink(job, fs0, Dated(job.dst, job.clock(i), i), Temporary(job.dst, j)), job.dst) ==>
      && job.dst in fs0 && fs0[job.dst].Link? && OldTemporary(job.dst) !in fs0
      && (OldName(job.dst) in fs0 ==> !fs0[OldName(job.dst)].Dir?)
  }

  // How a run goes on from where it looks at dst: with nothing to keep,
  lemma WithoutOld(job: Job, dname: string, tmp: string, fs: Names)
    requires tmp in fs && !Exists(fs, job.dst)
    ensures Iterate(job, Config(Inspect(dname, tmp), fs), 2).phase.Finished?
  {
    var c := Config(Inspect(dname, tmp), fs);
    assert Iterate(job, c, 1) == Step(job, Iterate(job, c, 0));
    assert Iterate(job, c, 2) == Step(job, Iterate(job, c, 1));
  }

  // and with something to keep.
  lemma WithOld(job: Job, dname: string, tmp: string, fs: Names)
    requires tmp in fs && tmp !in {job.dst, OldName(job.dst), OldTemporary(job.dst)} && Exists(fs, job.dst)
    ensures var c, dst := Iterate(job, Config(Inspect(dname, tmp), fs), 4), job.dst;
            if dst in fs && fs[dst].Link? && OldTemporary(dst) !in fs && (OldName(dst) in fs ==> !fs[OldName(dst)].Dir?)
            then c.phase.Finished? else c.phase.Raised? || Caught(dst, c)
  {
    var c := Config(Inspect(dname, tmp), fs);
    NamesDistinct(job.dst, "0000000000", 0, 0);
    hide Exists, Resolve;
    assert Iterate(job, c, 1) == Step(job, Iterate(job, c, 0));
    assert Iterate(job, c, 2) == Step(job, Iterate(job, c, 1));
    assert Iterate(job, c, 3) == Step(job, Iterate(job, c, 2));
    assert Iterate(job, c, 4) == Step(job, Iterate(job, c, 3));
  }

  lemma {:induction false} IterateMore(job: Job, c: Config, n: nat, m: nat)
    ensures Iterate(job, c, n + m) == Iterate(job, Iterate(job, c, n), m)
  {
    hide Step;
    if m > 0 {
      IterateMore(job, c, n, m - 1);
    }
  }

  lemma FromInspect(job: Job, fs0: Names, i: nat, j: nat, n: nat)
    requires IsJob(job) && FirstFree(job, fs0, i, j)
    requires var dname, tmp := Dated(job.dst, job.clock(i), i), Temporary(job.dst, j);
             Run(job, fs0, n) == Config(Inspect(dname, tmp), WithLink(job, fs0, dname, tmp))
    ensures var c := Run(job, fs0, n + 4);
            if Unhindered(job, fs0, i, j) then c.phase.Finished? else c.phase.Raised? || Caught(job.dst, c)
  {
    hide Iterate, Exists, FirstFree;
    var dname, tmp := Dated(job.dst, job.clock(i), i), Temporary(job.dst, j);
    var fs := WithLink(job, fs0, dname, tmp);
    NamesDistinct(job.dst, job.clock(i), i, j);
    IterateMore(job, Config(MakeDir(0), fs0), n, 4);
    IterateMore(job, Config(MakeDir(0), fs0), n, 2);
    if Exists(fs, job.dst) {
      WithOld(job, dname, tmp, fs);
    } else {
      WithoutOld(job, dname, tmp, fs);
      FinalStays(job, fs0, n + 2, n + 4);
    }
  }

  // What a caller can check, from any state: a publish completes exactly if
  // nothing hinders it.
  lemma FinishesIff(job: Job, fs0: Names, i: nat, j: nat)
    requires IsJob(job) && FirstFree(job, fs0, i, j)
    ensures (exists n: nat :: Run(job, fs0, n).phase.Finished?) <==> Unhindered(job, fs0, i, j)
  {
    var n := ReachesInspect(job, fs0, i, j);
    FromInspect(job, fs0, i, j, n);
    if m: nat :| Run(job, fs0, m).phase.Finished? {
      FinalStays(job, fs0, m, if m <= n + 4 then n + 4 else m);
      if m > n + 4 {
        LastsForever(job, fs0, n + 4, m);
      }
    }
    hide Run, Unhindered;
  }

  // An end, by an error or in the third loop, is the end.
  lemma LastsForever(job: Job, fs0: Names, n: nat, m: nat)
    requires n <= m
    ensures Final(Run(job, fs0, n).phase) || Caught(job.dst, Run(job, fs0, n)) ==>
              Run(job, fs0, m) == Run(job, fs0, n)
  {
    if Final(Run(job, fs0, n).phase) {
      FinalStays(job, fs0, n, m);
    } else if Caught(job.dst, Run(job, fs0, n)) {
      CaughtForever(job, fs0, n, m);
    }
  }

  // ---- Completed publishes ----

  // dst is absent or a live link, and the name the third loop tries is free.
  predicate Publishable(dst: string, fs: Names) {
    (dst in fs ==> fs[dst].Link? && Exists(fs, dst)) && OldTemporary(dst) !in fs
  }

  // The last rename would fail.
  predicate OldIsDir(dst: string, fs: Names) {
    OldName(dst) in fs && fs[OldName(dst)].Dir?
  }

  ghost predicate Completes(job: Job, fs: Names, fs': Names, dname: string, tmp: string, keep: bool) {
    exists n: nat :: Run(job, fs, n) == Config(Finished(dname, tmp, keep), fs')
  }

  // From a publishable state a publish completes exactly if it is the first, or
  // dst.old is not a directory.
  lemma PublishableCompletesIff(job: Job, fs: Names)
    requires IsJob(job) && Publishable(job.dst, fs)
    ensures (exists n: nat :: Run(job, fs, n).phase.Finished?) <==> !(job.dst in fs && OldIsDir(job.dst, fs))
  {
    var i, j := SomeFree(job, fs);
    FinishesIff(job, fs, i, j);
    var with := WithLink(job, fs, Dated(job.dst, job.clock(i), i), Temporary(job.dst, j));
    NamesDistinct(job.dst, job.clock(i), i, j);
    if job.dst in fs {
      ChaseGrows(fs, with, job.dst, LINK_LIMIT);
    }
    hide Run, Chase, IsJob;
  }

  // A live link does not lead back to itself.
  lemma LiveAvoidsItself(fs: Names, n: string)
    requires n in fs && fs[n].Link? && Exists(fs, n)
    ensures n !in Trail(fs, fs[n].target, LINK_LIMIT - 1)
  {
    if n in Trail(fs, fs[n].target, LINK_LIMIT - 1) {
      LoopResolvesToNothing(fs, n, LINK_LIMIT);
    }
  }

  lemma {:induction false} StillOnTrail(fs: Names, fs': Names, x: string, n: string, k: nat)
    requires x in Trail(fs, n, k)
    requires forall y :: y in Trail(fs, n, k) && y != x ==> y in fs && y in fs' && fs'[y] == fs[y]
    ensures x in Trail(fs', n, k)
    decreases k
  {
    if n != x {
      StillOnTrail(fs, fs', x, fs[n].target, k - 1);
    }
  }

  // If dst.old becomes what the live link dst was, while dst changes and all else
  // stays, it leads where dst led exactly if dst did not lead through it.
  lemma OldNamesPrevious(fs: Names, fs': Names, dst: string, oldName: string)
    requires dst in fs && fs[dst].Link? && Exists(fs, dst)
    requires oldName != dst && oldName in fs' && fs'[oldName] == fs[dst]
    requires forall y :: y in fs && y != dst && y != oldName ==> y in fs' && fs'[y] == fs[y]
    ensures Resolve(fs', oldName) == Resolve(fs, dst) <==> oldName !in Trail(fs, dst, LINK_LIMIT)
  {
    var target := fs[dst].target;
    LiveTrailExists(fs, target, LINK_LIMIT - 1);
    LiveAvoidsItself(fs, dst);
    assert Trail(fs, dst, LINK_LIMIT) == {dst} + Trail(fs, target, LINK_LIMIT - 1);
    if oldName !in Trail(fs, dst, LINK_LIMIT) {
      ChaseAgree(fs, fs', target, LINK_LIMIT - 1);
    } else {
      StillOnTrail(fs, fs', oldName, target, LINK_LIMIT - 1);
      LoopResolvesToNothing(fs', oldName, LINK_LIMIT);
    }
  }

  // Whether there is a previous generation is not affected by what the run adds first.
  lemma KeepsIfPresent(job: Job, fs: Names, dname: string, tmp: string, keep: bool)
    requires IsJob(job) && Publishable(job.dst, fs) && Named(job, fs, dname, tmp, keep)
    ensures keep <==> job.dst in fs
  {
    hide Chase, Trail, IsJob;
    NamesApart(job, fs, dname, tmp);
    if job.dst in fs {
      ChaseGrows(fs, WithLink(job, fs, dname, tmp), job.dst, LINK_LIMIT);
    }
  }

  lemma LinkToDir(fs: Names, n: string, d: string)
    requires n in fs && fs[n] == Link(d) && d in fs && fs[d].Dir?
    ensures Resolve(fs, n) == Some(d) && Trail(fs, n, LINK_LIMIT) == {n, d}
  {
    assert Chase(fs, d, LINK_LIMIT - 1) == Some(d) && Trail(fs, d, LINK_LIMIT - 1) == {d};
  }

  // A completed publish leaves a state for the next, with dst.old off the way.
  lemma PublishableAgain(job: Job, fs: Names, fs': Names, dname: string, tmp: string, keep: bool)
    requires IsJob(job) && Publishable(job.dst, fs) && At(job, fs, Finished(dname, tmp, keep), fs')
    ensures Publishable(job.dst, fs') && !ThroughOld(job.dst, fs')
  {
    hide Chase, Trail, IsJob, IsNewLink;
    NamesApart(job, fs, dname, tmp);
    assert fs'[job.dst] == Link(dname) && fs'[dname].Dir?;
    LinkToDir(fs', job.dst, dname);
  }

  // One completed publish: dst names the new generation, every other name is as
  // it was, and another publish can follow; in particular dst.old.0 is gone. If
  // there was a previous generation, dst.old names it exactly if dst did not lead
  // there through dst.old.
  lemma CompletedPublish(job: Job, fs: Names, fs': Names, dname: string, tmp: string, keep: bool)
    requires IsJob(job) && Publishable(job.dst, fs) && Completes(job, fs, fs', dname, tmp, keep)
    ensures Publishable(job.dst, fs') && !ThroughOld(job.dst, fs')
    ensures OldIsDir(job.dst, fs') <==> OldIsDir(job.dst, fs)
    ensures dname !in fs && dname in fs' && fs'[dname] == Dir(job.src)
    ensures job.dst in fs' && Resolve(fs', job.dst) == Some(dname)
    ensures dname != job.dst && dname != OldName(job.dst)
    ensures forall x :: x in fs && x != job.dst && x != OldName(job.dst) ==> x in fs' && fs'[x] == fs[x]
    ensures keep <==> job.dst in fs
    ensures keep ==> (Resolve(fs', OldName(job.dst)) == Resolve(fs, job.dst) <==> !ThroughOld(job.dst, fs))
  {
    var n: nat :| Run(job, fs, n) == Config(Finished(dname, tmp, keep), fs');
    RunIsAt(job, fs, n);
    AfterRename(job, fs, Finished(dname, tmp, keep), fs', dname);
    NamesApart(job, fs, dname, tmp);
    KeepsIfPresent(job, fs, dname, tmp, keep);
    PublishableAgain(job, fs, fs', dname, tmp, keep);
    DirStays(job, fs, Finished(dname, tmp, keep), fs');
    if keep {
      OldNamesPrevious(fs, fs', job.dst, OldName(job.dst));
    }
  }

  // From any state, the names a completed publish adds: the dated directory, dst
  // and, if the previous generation was kept, dst.old; none of the others is left.
  lemma NamesAfter(job: Job, fs: Names, fs': Names, dname: string, tmp: string, keep: bool)
    requires IsJob(job) && Completes(job, fs, fs', dname, tmp, keep)
    ensures exists i: nat :: dname == job.dst + "." + job.clock(i) + "." + Decimal.Render(i)
    ensures fs'.Keys == fs.Keys + {job.dst, dname} + (if keep then {job.dst + ".old"} else {})
  {
    var n: nat :| Run(job, fs, n) == Config(Finished(dname, tmp, keep), fs');
    RunIsAt(job, fs, n);
    hide Run, Exists, IsJob;
    var i: nat :| dname == Dated(job.dst, job.clock(i), i);
  }

  // dst leads to a file through dst.old.
  function FileBehindOld(dst: string): Names {
    map[dst := Link(OldName(dst)), OldName(dst) := File]
  }

  lemma FileIsBehindOld(dst: string)
    ensures var fs := FileBehindOld(dst);
            && Publishable(dst, fs) && Resolve(fs, dst) == Some(OldName(dst)) && ThroughOld(dst, fs)
            && !OldIsDir(dst, fs)
  {
    var fs, old0 := FileBehindOld(dst), OldName(dst);
    NamesDistinct(dst, "0000000000", 0, 0);
    assert Chase(fs, old0, LINK_LIMIT - 1) == Some(old0) && old0 in Trail(fs, old0, LINK_LIMIT - 1);
  }

  lemma FileIsGone(job: Job, phase: Phase, fs: Names)
    requires IsJob(job) && At(job, FileBehindOld(job.dst), phase, fs) && phase.Finished?
    ensures phase.keep && forall x :: x in fs ==> !fs[x].File?
  {
    var fs0 := FileBehindOld(job.dst);
    FileIsBehindOld(job.dst);
    KeepsIfPresent(job, fs0, phase.dname, phase.tmp, phase.keep);
    hide Exists, Resolve, Publishable, ThroughOld, IsJob;
  }

  // Then a publish completes, neither old name leads to it, and the file is gone.
  lemma PreviousLost(job: Job)
    requires IsJob(job)
    ensures var dst, fs0 := job.dst, FileBehindOld(job.dst);
            && Settled(dst, fs0) && Resolve(fs0, dst) == Some(OldName(dst)) && fs0[OldName(dst)] == File
            && exists n: nat :: var c := Run(job, fs0, n);
                 c.phase.Finished? && !PreviousNamed(dst, fs0, c.fs) && forall x :: x in c.fs ==> !c.fs[x].File?
  {
    hide At, Run, Resolve, Publishable, ThroughOld, OldIsDir, PreviousNamed;
    var fs0 := FileBehindOld(job.dst);
    FileIsBehindOld(job.dst);
    PublishableCompletesIff(job, fs0);
    var n: nat :| Run(job, fs0, n).phase.Finished?;
    var c := Run(job, fs0, n);
    RunIsAt(job, fs0, n);
    FileIsGone(job, c.phase, c.fs);
    PreviousNamedIff(job, fs0, c.phase, c.fs);
  }

  // A completed publish: what it made and what it left.
  datatype Publication = Publication(job: Job, dname: string, tmp: string, keep: bool, after: Names)

  function Latest(fs0: Names, pubs: seq<Publication>): Names {
    if pubs == [] then fs0 else pubs[|pubs| - 1].after
  }

  ghost predicate IsHistory(dst: string, fs0: Names, pubs: seq<Publication>) {
    pubs != [] ==>
      var earlier, p := pubs[..|pubs| - 1], pubs[|pubs| - 1];
      && IsHistory(dst, fs0, earlier) && IsJob(p.job) && p.job.dst == dst
      && Completes(p.job, Latest(fs0, earlier), p.after, p.dname, p.tmp, p.keep)
  }

  // p's generation is there, whole, under a name no later publish touches.
  predicate Kept(dst: string, p: Publication, fs: Names) {
    p.dname in fs && fs[p.dname] == Dir(p.job.src) && p.dname != dst && p.dname != OldName(dst)
  }

  // Any number of publishes: dst names the newest generation, dst.old the one
  // before it, and every generation is still there. Only after the first does it
  // matter whether dst led through dst.old.
  lemma {:induction false} PublishHistory(dst: string, fs0: Names, pubs: seq<Publication>)
    requires Publishable(dst, fs0) && IsHistory(dst, fs0, pubs)
    ensures var fs, k := Latest(fs0, pubs), |pubs|;
            && Publishable(dst, fs) && (OldIsDir(dst, fs) <==> OldIsDir(dst, fs0))
            && (k >= 1 ==> dst in fs && Resolve(fs, dst) == Some(pubs[k - 1].dname) && !ThroughOld(dst, fs))
            && (k >= 2 ==> Resolve(fs, OldName(dst)) == Some(pubs[k - 2].dname))
            && (k == 1 && dst in fs0 ==> (Resolve(fs, OldName(dst)) == Resolve(fs0, dst) <==> !ThroughOld(dst, fs0)))
            && (forall i :: 0 <= i < k ==> Kept(dst, pubs[i], fs))
    decreases |pubs|
  {
    hide Publishable, OldIsDir, ThroughOld, Resolve, Completes, IsJob;
    if pubs != [] {
      var earlier, p := pubs[..|pubs| - 1], pubs[|pubs| - 1];
      PublishHistory(dst, fs0, earlier);
      var fs := Latest(fs0, earlier);
      CompletedPublish(p.job, fs, p.after, p.dname, p.tmp, p.keep);
      forall i | 0 <= i < |earlier| ensures Kept(dst, pubs[i], p.after) {
        assert Kept(dst, earlier[i], fs);
      }
    }
  }

  // ---- After an interruption ----

  // Between making the old link and renaming it.
  predicate HalfDone(phase: Phase) {
    phase.RenameOld? || (phase.RenameNew? && phase.keep)
  }

  // What a cut leaves: the third loop caught for ever, or a publishable state.
  lemma InterruptedState(job: Job, fs: Names, n: nat)
    requires IsJob(job) && Publishable(job.dst, fs)
    ensures var c := Run(job, fs, n);
            if HalfDone(c.phase) || c.phase.Raised? then Blocked(job.dst, c.fs) else Publishable(job.dst, c.fs)
  {
    var c := Run(job, fs, n);
    RunIsAt(job, fs, n);
    match c.phase
    case RenameOld(_, _) => BetweenRenames(job, fs, c.phase, c.fs);
    case Finished(dname, tmp, keep) => PublishableAgain(job, fs, c.fs, dname, tmp, keep);
    case Raised(where) =>
      RaisedAtEnd(job, fs, where, c.fs);
      BetweenRenames(job, fs, where, c.fs);
    case _ => InterruptedEarly(job, fs, c);
  }

  lemma BetweenRenames(job: Job, fs0: Names, phase: Phase, fs: Names)
    requires IsJob(job) && At(job, fs0, phase, fs) && phase.RenameOld?
    ensures Blocked(job.dst, fs)
  {
    AfterRename(job, fs0, phase, fs, phase.dname);
    NamesApart(job, fs0, phase.dname, phase.tmp);
  }

  // Only the last rename can fail, and only on a directory.
  lemma RaisedAtEnd(job: Job, fs0: Names, where: Phase, fs: Names)
    requires IsJob(job) && Publishable(job.dst, fs0) && At(job, fs0, Raised(where), fs)
    ensures where.RenameOld? && job.dst in fs0 && OldIsDir(job.dst, fs)
  {
    NamesApart(job, fs0, where.dname, where.tmp);
    hide Exists;
  }

  lemma InterruptedEarly(job: Job, fs: Names, c: Config)
    requires IsJob(job) && Publishable(job.dst, fs) && At(job, fs, c.phase, c.fs)
    requires !Renamed(c.phase) && !c.phase.Raised?
    ensures if HalfDone(c.phase) then Blocked(job.dst, c.fs) else Publishable(job.dst, c.fs)
  {
    var dst := job.dst;
    BeforeRename(job, fs, c.phase, c.fs);
    if dst in fs {
      ChaseGrows(fs, c.fs, dst, LINK_LIMIT);
    }
    if !c.phase.MakeDir? {
      NamesApart(job, fs, c.phase.dname, if c.phase.Copy? || c.phase.LinkNew? then "" else c.phase.tmp);
    }
  }

  // A publish neither makes dst.old a directory nor removes one there, and makes
  // dst by its rename alone.
  lemma DirStays(job: Job, fs0: Names, phase: Phase, fs: Names)
    requires IsJob(job) && At(job, fs0, phase, fs)
    ensures OldIsDir(job.dst, fs) <==> OldIsDir(job.dst, fs0)
    ensures job.dst in fs <==> job.dst in fs0 || Renamed(phase)
  {
    if phase.Raised? {
      DirStays(job, fs0, phase.where, fs);
    } else if !phase.MakeDir? {
      NamesApart(job, fs0, phase.dname, if phase.Copy? || phase.LinkNew? then "" else phase.tmp);
    }
    hide Exists;
  }

  // If a publish is cut between making the old link and renaming it, no later one
  // ever ends; if it is cut anywhere else, the next one completes, unless a
  // directory at dst.old is in the way and there is a dst to keep there.
  lemma AfterInterruption(job: Job, fs: Names, n: nat, next: Job)
    requires IsJob(job) && IsJob(next) && next.dst == job.dst && Publishable(job.dst, fs)
    ensures var c := Run(job, fs, n);
            (exists m: nat :: Run(next, c.fs, m).phase.Finished?) <==>
            !HalfDone(c.phase) && !(OldIsDir(job.dst, fs) && (job.dst in fs || Renamed(c.phase)))
  {
    var c := Run(job, fs, n);
    RunIsAt(job, fs, n);
    DirStays(job, fs, c.phase, c.fs);
    InterruptedState(job, fs, n);
    if HalfDone(c.phase) || c.phase.Raised? {
      forall m: nat ensures !Run(next, c.fs, m).phase.Finished? {
        BlockedRun(next, c.fs, m);
      }
      if c.phase.Raised? {
        RaisedAtEnd(job, fs, c.phase.where, c.fs);
      }
    } else {
      PublishableCompletesIff(next, c.fs);
    }
    hide At, Publishable;
  }

  // ---- The publish as the packager runs it ----

  // An attempt that finds its name taken is followed by another within bounds.
  lemma AttemptsLeft(job: Job, fs0: Names, n: nat)
    requires IsJob(job)
    ensures var p, p' := Run(job, fs0, n).phase, Run(job, fs0, n + 1).phase;
            && (p.MakeDir? && p'.MakeDir? ==> p.i < p'.i <= |fs0|)
            && (p.LinkNew? && p'.LinkNew? ==> p.i < p'.i <= |fs0|)
  {
    RunIsAt(job, fs0, n + 1);
    CountersBounded(job, fs0, Run(job, fs0, n + 1).phase, Run(job, fs0, n + 1).fs);
  }

  lemma CopyTarget(job: Job, fs0: Names, n: nat)
    requires IsJob(job) && Run(job, fs0, n).phase.Copy?
    ensures var Config(p, fs) := Run(job, fs0, n);
            p.dname in fs && fs[p.dname].Dir? && forall k :: 0 <= k < |job.order| ==> job.order[k] in job.src
  {
    RunIsAt(job, fs0, n);
  }

  class FileSystem {
    var names: Names

    constructor (initial: Names)
      ensures names == initial
    {
      names := initial;
    }

    method MakeDirectory(n: string) returns (ok: bool)
      modifies this
      ensures ok <==> n !in old(names)
      ensures names == if ok then old(names)[n := Dir(map[])] else old(names)
    {
      ok := n !in names;
      if ok { names := names[n := Dir(map[])]; }
    }

    method CopyInto(n: string, r: string, content: nat)
      requires n in names && names[n].Dir?
      modifies this
      ensures names == old(names)[n := Dir(old(names)[n].entries[r := content])]
    {
      names := names[n := Dir(names[n].entries[r := content])];
    }

    method MakeLink(target: string, n: string) returns (ok: bool)
      modifies this
      ensures ok <==> n !in old(names)
      ensures names == if ok then old(names)[n := Link(target)] else old(names)
    {
      ok := n !in names;
      if ok { names := names[n := Link(target)]; }
    }

    method RenameLink(a: string, b: string) returns (ok: bool)
      modifies this
      ensures ok <==> CanRename(old(names), a, b)
      ensures names == if ok then Rename(old(names), a, b) else old(names)
    {
      ok := CanRename(names, a, b);
      if ok { names := Rename(names, a, b); }
    }

    // The names after the loops of the publish are those of its step by step run.
    method MoveReposIntoPlace(job: Job) returns (outcome: Phase)
      requires IsJob(job) && NeverCaught(job, names)
      modifies this
      ensures Final(outcome)
      ensures exists n: nat :: Run(job, old(names), n) == Config(outcome, names)
    {
      ghost var n: nat := 0;
      var dname := MakeFreshDirectory(job);
      n :| Run(job, old(names), n) == Config(Copy(dname, 0), names);
      for k := 0 to |job.order|
        invariant Run(job, old(names), n) == Config(Copy(dname, k), names)
      {
        CopyTarget(job, old(names), n);
        CopyInto(dname, job.order[k], job.src[job.order[k]]);
        n := n + 1;
      }
      n := n + 1;
      outcome := LinkAndRename(job, dname, old(names), n);
    }

    method MakeFreshDirectory(job: Job) returns (dname: string)
      requires IsJob(job)
      modifies this
      ensures exists n: nat :: Run(job, old(names), n) == Config(Copy(dname, 0), names)
    {
      ghost var n: nat := 0;
      var i := 0;
      while true
        invariant Run(job, old(names), n) == Config(MakeDir(i), names)
        invariant names == old(names)
        decreases |old(names)| - i
      {
        AttemptsLeft(job, old(names), n);
        dname := Dated(job.dst, job.clock(i), i);
        var ok := MakeDirectory(dname);
        n := n + 1;
        if ok {
          return;
        }
        i := i + 1;
      }
    }

    method LinkAndRename(job: Job, dname: string, ghost fs0: Names, ghost start: nat) returns (outcome: Phase)
      requires IsJob(job) && NeverCaught(job, fs0)
      requires Run(job, fs0, start) == Config(LinkNew(dname, 0), names)
      modifies this
      ensures Final(outcome)
      ensures exists n: nat :: Run(job, fs0, n) == Config(outcome, names)
    {
      ghost var n := start;
      var i, tmp := 0, "";
      while true
        invariant Run(job, fs0, n) == Config(LinkNew(dname, i), names)
        decreases |fs0| - i
      {
        AttemptsLeft(job, fs0, n);
        tmp := Temporary(job.dst, i);
        var ok := MakeLink(dname, tmp);
        n := n + 1;
        if ok {
          break;
        }
        i := i + 1;
      }
      if Exists(names, job.dst) {
        outcome := KeepOld(job, dname, tmp, fs0, n + 1);
      } else {
        outcome := RenameBoth(job, dname, tmp, false, fs0, n + 1);
      }
    }

    method KeepOld(job: Job, dname: string, tmp: string, ghost fs0: Names, ghost start: nat) returns (outcome: Phase)
      requires NeverCaught(job, fs0)
      requires Run(job, fs0, start) == Config(LinkOld(dname, tmp), names)
      modifies this
      ensures Final(outcome)
      ensures exists n: nat :: Run(job, fs0, n) == Config(outcome, names)
    {
      var dst, made := job.dst, false;
      ghost var n := start;
      while !made
        invariant Run(job, fs0, n) == Config(if made then RenameNew(dname, tmp, true) else LinkOld(dname, tmp), names)
        decreases !made
      {
        assert !Caught(dst, Run(job, fs0, n));
        assert Run(job, fs0, n + 1) == Step(job, Run(job, fs0, n));
        if dst !in names || !names[dst].Link? {
          return Raised(LinkOld(dname, tmp));
        }
        made := MakeLink(names[dst].target, OldTemporary(dst));
        n := n + 1;
      }
      outcome := RenameBoth(job, dname, tmp, true, fs0, n);
    }

    method RenameBoth(job: Job, dname: string, tmp: string, keep: bool, ghost fs0: Names, ghost start: nat)
      returns (outcome: Phase)
      requires Run(job, fs0, start) == Config(RenameNew(dname, tmp, keep), names)
      modifies this
      ensures Final(outcome)
      ensures exists n: nat :: Run(job, fs0, n) == Config(outcome, names)
    {
      var ok := RenameLink(tmp, job.dst);
      assert Run(job, fs0, start + 1) == Step(job, Run(job, fs0, start));
      if !ok {
        return Raised(RenameNew(dname, tmp, keep));
      }
      if !keep {
        return Finished(dname, tmp, false);
      }
      ok := RenameLink(OldTemporary(job.dst), OldName(job.dst));
      assert Run(job, fs0, start + 2) == Step(job, Run(job, fs0, start + 1));
      outcome := if ok then Finished(dname, tmp, true) else Raised(RenameOld(dname, tmp));
    }
  }
}
