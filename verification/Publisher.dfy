/** Publishing a repository (packager.py, move_repos_into_place), one file system
    operation per step. A run may be cut after any step; any error other than
    "name exists" cuts it. */
module Publisher {
  import opened FileNames

  // clock(i) is the date read at the i-th attempt to make the directory; order
  // is the listing of src.
  datatype Job = Job(dst: string, src: map<string, nat>, order: seq<string>, clock: nat -> string)

  ghost predicate IsJob(job: Job) {
    (forall i :: IsDate(job.clock(i))) && (forall r :: r in job.order <==> r in job.src)
  }

  datatype Phase =
    | MakeDir(i: nat)
    | Copy(dname: string, k: nat)
    | LinkNew(dname: string, i: nat)
    | Inspect(dname: string, tmp: string)
    | LinkOld(dname: string, tmp: string)
    | RenameNew(dname: string, tmp: string, keep: bool)
    | RenameOld(dname: string, tmp: string)
    | Finished(dname: string, tmp: string, keep: bool)
    | Raised(where: Phase)

  datatype Config = Config(phase: Phase, fs: Names)

  // rename() of a symbolic link: replaces the target in one step, unless it is a directory.
  predicate CanRename(fs: Names, a: string, b: string) {
    a in fs && (b in fs ==> !fs[b].Dir?)
  }

  function Rename(fs: Names, a: string, b: string): Names
    requires a in fs
  {
    (fs - {a})[b := fs[a]]
  }

  function Step(job: Job, c: Config): Config {
    var Config(phase, fs) := c;
    var dst := job.dst;
    match phase
    case MakeDir(i) =>
      var dname := Dated(dst, job.clock(i), i);
      if dname in fs then Config(MakeDir(i + 1), fs)
      else Config(Copy(dname, 0), fs[dname := Dir(map[])])
    case Copy(dname, k) =>
      if k >= |job.order| then Config(LinkNew(dname, 0), fs)
      else if dname in fs && fs[dname].Dir? && job.order[k] in job.src then
        var r := job.order[k];
        Config(Copy(dname, k + 1), fs[dname := Dir(fs[dname].entries[r := job.src[r]])])
      else Config(Raised(phase), fs)
    case LinkNew(dname, i) =>
      var tmp := Temporary(dst, i);
      if tmp in fs then Config(LinkNew(dname, i + 1), fs)
      else Config(Inspect(dname, tmp), fs[tmp := Link(dname)])
    case Inspect(dname, tmp) =>
      if Exists(fs, dst) then Config(LinkOld(dname, tmp), fs) else Config(RenameNew(dname, tmp, false), fs)
    case LinkOld(dname, tmp) =>
      if dst !in fs || !fs[dst].Link? then Config(Raised(phase), fs)
      else if OldTemporary(dst) in fs then c
      else Config(RenameNew(dname, tmp, true), fs[OldTemporary(dst) := Link(fs[dst].target)])
    case RenameNew(dname, tmp, keep) =>
      if CanRename(fs, tmp, dst)
      then Config(if keep then RenameOld(dname, tmp) else Finished(dname, tmp, false), Rename(fs, tmp, dst))
      else Config(Raised(phase), fs)
    case RenameOld(dname, tmp) =>
      if CanRename(fs, OldTemporary(dst), OldName(dst))
      then Config(Finished(dname, tmp, true), Rename(fs, OldTemporary(dst), OldName(dst)))
      else Config(Raised(phase), fs)
    case Finished(_, _, _) => c
    case Raised(_) => c
  }

  function Iterate(job: Job, c: Config, n: nat): Config {
    if n == 0 then c else Step(job, Iterate(job, c, n - 1))
  }

  // The state after n steps of a publish started in fs0.
  function Run(job: Job, fs0: Names, n: nat): Config {
    Iterate(job, Config(MakeDir(0), fs0), n)
  }

  // ---- What holds at each step ----

  function WithDir(job: Job, fs0: Names, dname: string): Names {
    fs0[dname := Dir(job.src)]
  }

  function WithLink(job: Job, fs0: Names, dname: string, tmp: string): Names {
    WithDir(job, fs0, dname)[tmp := Link(dname)]
  }

  ghost predicate IsNewDir(job: Job, fs0: Names, dname: string) {
    dname !in fs0 && exists i :: dname == Dated(job.dst, job.clock(i), i)
  }

  ghost predicate IsNewLink(job: Job, fs0: Names, tmp: string) {
    tmp !in fs0 && exists i :: tmp == Temporary(job.dst, i)
  }

  ghost predicate CopiedUpTo(job: Job, entries: map<string, nat>, k: nat)
    requires k <= |job.order|
  {
    && (forall j :: 0 <= j < k ==> job.order[j] in entries)
    && (forall r :: r in entries ==> r in job.src && entries[r] == job.src[r])
  }

  ghost predicate At(job: Job, fs0: Names, phase: Phase, fs: Names) {
    var dst, oldTmp := job.dst, OldTemporary(job.dst);
    match phase
    case MakeDir(i) => fs == fs0 && forall j :: 0 <= j < i ==> Dated(dst, job.clock(j), j) in fs0
    case Copy(dname, k) =>
      && IsNewDir(job, fs0, dname) && k <= |job.order|
      && dname in fs && fs[dname].Dir? && fs == fs0[dname := fs[dname]] && CopiedUpTo(job, fs[dname].entries, k)
    case LinkNew(dname, i) =>
      && IsNewDir(job, fs0, dname) && fs == WithDir(job, fs0, dname)
      && forall j :: 0 <= j < i ==> Temporary(dst, j) in fs0
    case Inspect(dname, tmp) =>
      IsNewDir(job, fs0, dname) && IsNewLink(job, fs0, tmp) && fs == WithLink(job, fs0, dname, tmp)
    case LinkOld(dname, tmp) =>
      IsNewDir(job, fs0, dname) && IsNewLink(job, fs0, tmp) && fs == WithLink(job, fs0, dname, tmp) && Exists(fs, dst)
    case RenameNew(dname, tmp, keep) =>
      && Named(job, fs0, dname, tmp, keep)
      && fs == if keep then WithLink(job, fs0, dname, tmp)[oldTmp := fs0[dst]] else WithLink(job, fs0, dname, tmp)
    case RenameOld(dname, tmp) =>
      && Named(job, fs0, dname, tmp, true)
      && fs == WithDir(job, fs0, dname)[dst := Link(dname)][oldTmp := fs0[dst]]
    case Finished(dname, tmp, keep) =>
      && Named(job, fs0, dname, tmp, keep)
      && if keep then (OldName(dst) in fs0 ==> !fs0[OldName(dst)].Dir?) &&
                      fs == WithDir(job, fs0, dname)[dst := Link(dname)][OldName(dst) := fs0[dst]]
         else fs == WithDir(job, fs0, dname)[dst := Link(dname)]
    case Raised(where) =>
      && At(job, fs0, where, fs)
      && match where
         case LinkOld(_, _) => dst in fs && !fs[dst].Link?
         case RenameOld(_, _) => OldName(dst) in fs && fs[OldName(dst)].Dir?
         case _ => false
  }

  // The names a run has settled on once it has looked at dst; keep tells
  // whether the previous generation is to be kept under a name of its own.
  ghost predicate Named(job: Job, fs0: Names, dname: string, tmp: string, keep: bool) {
    && IsNewDir(job, fs0, dname) && IsNewLink(job, fs0, tmp)
    && (keep <==> Exists(WithLink(job, fs0, dname, tmp), job.dst))
    && (keep ==> job.dst in fs0 && fs0[job.dst].Link? && OldTemporary(job.dst) !in fs0)
  }

  lemma NamesApart(job: Job, fs0: Names, dname: string, tmp: string)
    requires IsJob(job)
    ensures IsNewDir(job, fs0, dname) ==> dname !in {job.dst, OldName(job.dst), OldTemporary(job.dst)}
    ensures IsNewLink(job, fs0, tmp) ==> tmp !in {job.dst, OldName(job.dst), OldTemporary(job.dst)}
    ensures IsNewDir(job, fs0, dname) && IsNewLink(job, fs0, tmp) ==> dname != tmp
    ensures |{job.dst, OldName(job.dst), OldTemporary(job.dst)}| == 3
  {
    NamesDistinct(job.dst, job.clock(0), 0, 0);
    if IsNewLink(job, fs0, tmp) {
      var j :| tmp == Temporary(job.dst, j);
      NamesDistinct(job.dst, job.clock(0), 0, j);
      if IsNewDir(job, fs0, dname) {
        var i :| dname == Dated(job.dst, job.clock(i), i);
        NamesDistinct(job.dst, job.clock(i), i, j);
      }
    }
    if IsNewDir(job, fs0, dname) {
      var i :| dname == Dated(job.dst, job.clock(i), i);
      NamesDistinct(job.dst, job.clock(i), i, 0);
    }
  }

  lemma StepKeepsAt(job: Job, fs0: Names, c: Config)
    requires IsJob(job) && At(job, fs0, c.phase, c.fs)
    ensures var c' := Step(job, c); At(job, fs0, c'.phase, c'.fs)
  {
    match c.phase
    case MakeDir(i) =>
    case Copy(dname, k) => CopyStep(job, fs0, c);
    case LinkNew(dname, i) =>
      if Temporary(job.dst, i) !in c.fs {
        assert IsNewLink(job, fs0, Temporary(job.dst, i));
      } else {
        NamesApart(job, map[], dname, Temporary(job.dst, i));
        assert IsNewLink(job, map[], Temporary(job.dst, i)) && IsNewDir(job, map[], dname);
      }
    case Inspect(dname, tmp) =>
    case LinkOld(dname, tmp) => NamesApart(job, fs0, dname, tmp);
    case RenameNew(dname, tmp, keep) => RenameNewStep(job, fs0, c);
    case RenameOld(_, _) => RenameOldStep(job, fs0, c);
    case Finished(_, _, _) =>
    case Raised(_) =>
  }

  lemma CopyStep(job: Job, fs0: Names, c: Config)
    requires IsJob(job) && c.phase.Copy? && At(job, fs0, c.phase, c.fs)
    ensures var c' := Step(job, c); At(job, fs0, c'.phase, c'.fs)
  {
    var entries := c.fs[c.phase.dname].entries;
    if c.phase.k == |job.order| {
      assert entries == job.src;
    } else {
      assert job.order[c.phase.k] in job.order;
    }
  }

  lemma RenameNewStep(job: Job, fs0: Names, c: Config)
    requires IsJob(job) && c.phase.RenameNew? && At(job, fs0, c.phase, c.fs)
    ensures var c' := Step(job, c); At(job, fs0, c'.phase, c'.fs)
  {
    var RenameNew(dname, tmp, keep) := c.phase;
    var dst := job.dst;
    NamesApart(job, fs0, dname, tmp);
    assert dst in c.fs ==> dst in fs0 && c.fs[dst] == fs0[dst];
    assert CanRename(c.fs, tmp, dst);
    var fs' := Rename(c.fs, tmp, dst);
    var expected := if keep then WithDir(job, fs0, dname)[dst := Link(dname)][OldTemporary(dst) := fs0[dst]]
                    else WithDir(job, fs0, dname)[dst := Link(dname)];
    assert fs' == expected;
  }

  lemma RenameOldStep(job: Job, fs0: Names, c: Config)
    requires IsJob(job) && c.phase.RenameOld? && At(job, fs0, c.phase, c.fs)
    ensures var c' := Step(job, c); At(job, fs0, c'.phase, c'.fs)
  {
    var dname, dst := c.phase.dname, job.dst;
    NamesApart(job, fs0, dname, dname);
    if CanRename(c.fs, OldTemporary(dst), OldName(dst)) {
      assert Rename(c.fs, OldTemporary(dst), OldName(dst)) ==
             WithDir(job, fs0, dname)[dst := Link(dname)][OldName(dst) := fs0[dst]];
    }
  }

  lemma {:induction false} RunIsAt(job: Job, fs0: Names, n: nat)
    requires IsJob(job)
    ensures var c := Run(job, fs0, n); At(job, fs0, c.phase, c.fs)
  {
    if n > 0 {
      RunIsAt(job, fs0, n - 1);
      StepKeepsAt(job, fs0, Run(job, fs0, n - 1));
    }
  }
}
