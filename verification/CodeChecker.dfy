/** The error code pass as errorcodes.py runs it: every zero met makes it scan the
    whole tree again for the greatest code, while the files before the current
    one have been written back and the current one has not. */
module CodeChecker {
  import opened Collections
  import opened Decimal
  import opened ErrorCodes

  datatype Outcome = Checked(ok: bool) | Raised

  predicate BareIn(file: File) {
    file.guarded && exists l :: 0 <= l < |file.lines| && file.lines[l].bare
  }

  predicate HasBare(tree: Tree) {
    exists f :: 0 <= f < |tree| && BareIn(tree[f])
  }

  // A bare assert counts exactly in a file where they are refused.
  lemma BareIff(tree: Tree)
    ensures HasBare(tree) <==>
            exists f, l :: 0 <= f < |tree| && 0 <= l < |tree[f].lines| && tree[f].guarded && tree[f].lines[l].bare
  {
    if f, l :| 0 <= f < |tree| && 0 <= l < |tree[f].lines| && tree[f].guarded && tree[f].lines[l].bare {
      assert BareIn(tree[f]);
    }
  }

  function MaxSeq(s: seq<nat>): nat {
    if s == [] then 0 else Max(MaxSeq(s[..|s| - 1]), s[|s| - 1])
  }

  // ---- Looking for the greatest code ----

  lemma PassStep(sites: seq<Site>, p: Pattern, j: nat)
    requires j < |sites|
    ensures PassCodes(sites[..j + 1], p) ==
            if sites[j].pattern == p then PassCodes(sites[..j], p) + [sites[j].code] else PassCodes(sites[..j], p)
  {
    assert sites[..j + 1] == sites[..j] + [sites[j]];
    PassCodesSnoc(sites[..j], sites[j], p);
  }

  lemma MaxValueSnoc(codes: seq<Code>, c: Code)
    ensures MaxValue(codes + [c]) == Max(MaxValue(codes), Value(c))
  {
    assert (codes + [c])[..|codes|] == codes;
  }

  method ScanPass(sites: seq<Site>, p: Pattern, highest0: nat) returns (highest: nat)
    ensures highest == Max(highest0, MaxValue(PassCodes(sites, p)))
  {
    highest := highest0;
    for j := 0 to |sites|
      invariant highest == Max(highest0, MaxValue(PassCodes(sites[..j], p)))
    {
      PassStep(sites, p, j);
      if sites[j].pattern == p {
        MaxValueSnoc(PassCodes(sites[..j], p), sites[j].code);
        if Value(sites[j].code) > highest {
          highest := Value(sites[j].code);
        }
      }
    }
    assert sites[..|sites|] == sites;
  }

  method ScanLine(line: Line, highest0: nat) returns (highest: nat)
    ensures highest == Max(highest0, MaxValue(LineCodes(line)))
  {
    highest := highest0;
    for p := 0 to 3
      invariant highest == Max(highest0, MaxValue(CodesUpTo(line.sites, p)))
    {
      highest := ScanPass(line.sites, p, highest);
      MaxValueConcat(CodesUpTo(line.sites, p), PassCodes(line.sites, p));
    }
    AllPasses(line);
  }

  lemma FileMaxStep(lines: seq<Line>, l: nat)
    requires l < |lines|
    ensures MaxValue(FileCodes(lines[..l + 1])) == Max(MaxValue(FileCodes(lines[..l])), MaxValue(LineCodes(lines[l])))
  {
    assert lines[..l + 1] == lines[..l] + [lines[l]];
    FileCodesSnoc(lines[..l], lines[l]);
    MaxValueConcat(FileCodes(lines[..l]), LineCodes(lines[l]));
    hide FileCodes, LineCodes, MaxValue;
  }

  lemma NoLinesNoCodes()
    ensures MaxValue(FileCodes([])) == 0 && Highest([]) == 0
  {
  }

  method ScanFile(file: File, highest0: nat) returns (ok: bool, highest: nat)
    ensures ok <==> !BareIn(file)
    ensures ok ==> highest == Max(highest0, MaxValue(FileCodes(file.lines)))
  {
    hide FileCodes, LineCodes, MaxValue;
    highest := highest0;
    NoLinesNoCodes();
    for l := 0 to |file.lines|
      invariant highest == Max(highest0, MaxValue(FileCodes(file.lines[..l])))
      invariant file.guarded ==> forall i :: 0 <= i < l ==> !file.lines[i].bare
    {
      if file.guarded && file.lines[l].bare {
        return false, highest;
      }
      highest := ScanLine(file.lines[l], highest);
      FileMaxStep(file.lines, l);
    }
    assert file.lines[..|file.lines|] == file.lines;
    ok := true;
  }

  lemma HighestStep(files: Tree, f: nat)
    requires f < |files|
    ensures Highest(files[..f + 1]) == Max(Highest(files[..f]), MaxValue(FileCodes(files[f].lines)))
  {
    assert files[..f + 1] == files[..f] + [files[f]];
    TreeCodesSnoc(files[..f], files[f]);
    MaxValueConcat(TreeCodes(files[..f]), FileCodes(files[f].lines));
    hide TreeCodes, FileCodes, MaxValue;
  }

  method HighestLast(lastCodes: seq<nat>) returns (highest: nat)
    ensures highest == MaxSeq(lastCodes)
  {
    highest := 0;
    for i := 0 to |lastCodes|
      invariant highest == MaxSeq(lastCodes[..i])
    {
      assert lastCodes[..i + 1][..i] == lastCodes[..i];
      highest := Max(highest, lastCodes[i]);
    }
    assert lastCodes[..|lastCodes|] == lastCodes;
  }

  // getNextCode: None if the scan meets a bare assert and raises.
  method NextCode(files: Tree, lastCodes: seq<nat>) returns (r: Option<nat>)
    ensures r.None? <==> HasBare(files)
    ensures r.Some? ==> r.value == Max(MaxSeq(lastCodes), Highest(files)) + 1
  {
    hide Highest, FileCodes, MaxValue, BareIn;
    var highest := HighestLast(lastCodes);
    NoLinesNoCodes();
    for f := 0 to |files|
      invariant highest == Max(MaxSeq(lastCodes), Highest(files[..f]))
      invariant forall i :: 0 <= i < f ==> !BareIn(files[i])
    {
      var ok;
      ok, highest := ScanFile(files[f], highest);
      if !ok {
        return None;
      }
      HighestStep(files, f);
    }
    assert files[..|files|] == files;
    r := Some(highest + 1);
  }

  // ---- The pass itself ----

  class Checker {
    var files: Tree
    var lastCodes: seq<nat>
    var needReplace: bool
    var seen: set<Code>
    var errors: seq<Code>
    ghost var visited: seq<Code>   // the nonzero codes met so far, in scan order

    // checkDups has recorded a duplicate exactly if there was one.
    ghost predicate Valid()
      reads this
    {
      && (forall c :: c in seen <==> c in visited)
      && (errors == [] <==> Distinct(visited))
    }

    // The next code that would be given.
    ghost predicate Ahead(next: nat)
      reads this
    {
      Max(MaxSeq(lastCodes), Highest(files)) + 1 == next
    }

    constructor (tree: Tree)
      ensures files == tree && Valid() && visited == [] && lastCodes == [0] && !needReplace
    {
      files, lastCodes, needReplace, seen, errors, visited := tree, [0], false, {}, [], [];
    }

    method CheckDups(code: Code)
      requires Valid()
      modifies this`seen, this`errors, this`visited
      ensures Valid() && visited == old(visited) + [code]
    {
      DistinctAppend(visited, code);
      if code in seen {
        errors := errors + [code];
      }
      seen := seen + {code};
      visited := visited + [code];
    }

    // A substitution with one pattern; not ok if it raised.
    method Substitute(sites: seq<Site>, p: Pattern, ghost next: nat) returns (ok: bool, result: seq<Site>)
      requires Valid() && Ahead(next)
      modifies this`lastCodes, this`needReplace, this`seen, this`errors, this`visited
      ensures Valid()
      ensures ok <==> (HasBare(files) ==> Zeros(PassCodes(sites, p)) == 0)
      ensures ok ==> result == Sub(sites, p, next) && Ahead(next + Zeros(PassCodes(sites, p)))
      ensures ok ==> visited == old(visited) + NonZero(PassCodes(sites, p))
      ensures ok ==> needReplace == (old(needReplace) || Zeros(PassCodes(sites, p)) > 0)
    {
      hide HasBare, PassCodes, Zeros, NonZero, Sub, MaxSeq, Highest, Distinct;
      result := [];
      NothingMet(p, next);
      for j := 0 to |sites|
        invariant Valid()
        invariant HasBare(files) ==> Zeros(PassCodes(sites[..j], p)) == 0
        invariant result == Sub(sites[..j], p, next) && Ahead(next + Zeros(PassCodes(sites[..j], p)))
        invariant visited == old(visited) + NonZero(PassCodes(sites[..j], p))
        invariant needReplace == (old(needReplace) || Zeros(PassCodes(sites[..j], p)) > 0)
      {
        SubStep(sites, p, next, j);
        if sites[j].pattern != p {
          result := result + [sites[j]];
        } else if sites[j].code == ZERO {
          var r := NextCode(files, lastCodes);
          if r.None? {
            ZerosGrow(sites, p, j);
            return false, [];
          }
          MaxSeqSnoc(lastCodes, r.value);
          lastCodes := lastCodes + [r.value];
          needReplace := true;
          result := result + [Site(p, Render(r.value), 0)];
        } else {
          CheckDups(sites[j].code);
          result := result + [sites[j].(gap := 0)];
        }
      }
      assert sites[..|sites|] == sites;
      ok := true;
    }

    method SubstituteLine(line: Line, ghost next: nat) returns (ok: bool, result: Line)
      requires Valid() && Ahead(next)
      modifies this`lastCodes, this`needReplace, this`seen, this`errors, this`visited
      ensures Valid()
      ensures ok <==> (HasBare(files) ==> Zeros(LineCodes(line)) == 0)
      ensures ok ==> result == RewriteLine(line, next) && Ahead(next + Zeros(LineCodes(line)))
      ensures ok ==> visited == old(visited) + NonZero(LineCodes(line))
      ensures ok ==> needReplace == (old(needReplace) || Zeros(LineCodes(line)) > 0)
    {
      hide HasBare, PassCodes, Zeros, NonZero, Sub, MaxSeq, Highest, Distinct, LineCodes;
      var sites := line.sites;
      NothingMet(0, next);
      for p := 0 to 3
        invariant Valid()
        invariant HasBare(files) ==> Zeros(CodesUpTo(line.sites, p)) == 0
        invariant sites == SubUpTo(line.sites, p, next) && Ahead(next + Zeros(CodesUpTo(line.sites, p)))
        invariant visited == old(visited) + NonZero(CodesUpTo(line.sites, p))
        invariant needReplace == (old(needReplace) || Zeros(CodesUpTo(line.sites, p)) > 0)
      {
        SubUpToCodes(line.sites, p, next);
        LineStep(line, p);
        ok, sites := Substitute(sites, p, next + Zeros(CodesUpTo(line.sites, p)));
        if !ok {
          return false, line;
        }
      }
      AllPasses(line);
      ok, result := true, line.(sites := sites);
    }

    method SubstituteFile(file: File, ghost next: nat) returns (ok: bool, lines: seq<Line>)
      requires Valid() && Ahead(next) && !needReplace
      modifies this`lastCodes, this`needReplace, this`seen, this`errors, this`visited
      ensures Valid()
      ensures ok <==> !BareIn(file) && (HasBare(files) ==> Zeros(FileCodes(file.lines)) == 0)
      ensures ok ==> lines == RewriteLines(file.lines, next)
      ensures ok ==> visited == old(visited) + NonZero(FileCodes(file.lines))
      ensures ok ==> needReplace == (Zeros(FileCodes(file.lines)) > 0)
    {
      hide HasBare, RewriteLine, RewriteLines, LineCodes, FileCodes, Zeros, NonZero, MaxSeq, Highest, Distinct;
      lines := [];
      NoLinesMet(next);
      for l := 0 to |file.lines|
        invariant Valid()
        invariant file.guarded ==> forall i :: 0 <= i < l ==> !file.lines[i].bare
        invariant HasBare(files) ==> Zeros(FileCodes(file.lines[..l])) == 0
        invariant lines == RewriteLines(file.lines[..l], next) && Ahead(next + Zeros(FileCodes(file.lines[..l])))
        invariant visited == old(visited) + NonZero(FileCodes(file.lines[..l]))
        invariant needReplace == (Zeros(FileCodes(file.lines[..l])) > 0)
      {
        if file.guarded && file.lines[l].bare {
          return false, [];
        }
        FileStep(file.lines, l, next);
        var line;
        ok, line := SubstituteLine(file.lines[l], next + Zeros(FileCodes(file.lines[..l])));
        if !ok {
          FileZerosGrow(file.lines, l + 1);
          return false, [];
        }
        lines := lines + [line];
      }
      assert file.lines[..|file.lines|] == file.lines;
      ok := true;
    }

    // The state when the pass comes to file f of the tree it started with.
    ghost predicate Reached(tree: Tree, f: nat, next: nat)
      reads this
    {
      && Valid() && f <= |tree| && files == RewriteTree(tree[..f], next) + tree[f..]
      && visited == NonZero(TreeCodes(tree[..f]))
      && (forall i :: 0 <= i < f ==> !BareIn(tree[i]))
      && (HasBare(tree) ==> Zeros(TreeCodes(tree[..f])) == 0)
    }

    method PassFile(f: nat, ghost tree: Tree, ghost next: nat) returns (ok: bool)
      requires f < |tree| && Reached(tree, f, next) && next == Highest(tree) + 1
      modifies this
      ensures ok ==> Reached(tree, f + 1, next)
      ensures !ok ==> HasBare(tree) && files == tree
    {
      hide BareIn, RewriteFile, RewriteLines, RewriteTree, FileCodes, TreeCodes, Zeros, NonZero, MaxSeq, Highest,
           Distinct;
      var file := files[f];
      needReplace, lastCodes := false, [0];
      HighestSoFar(tree, f);
      BareSoFar(tree, f, next);
      var lines;
      ok, lines := SubstituteFile(file, next + Zeros(TreeCodes(tree[..f])));
      if !ok {
        BareMakesUnchanged(tree, f, next);
        return;
      }
      if needReplace {
        files := files[f := file.(lines := lines)];
      }
      TreeStep(tree, f, next);
      assert files == RewriteTree(tree[..f + 1], next) + tree[f + 1..];
    }

    // checkErrorCodes. A bare assert anywhere makes it raise with no file changed;
    // else the tree is renumbered, whatever the rescans saw, and the answer says
    // whether the nonzero codes were distinct.
    method CheckErrorCodes() returns (r: Outcome)
      modifies this
      ensures r == Raised <==> HasBare(old(files))
      ensures r == Raised ==> files == old(files)
      ensures r != Raised ==> files == Renumbered(old(files))
      ensures r != Raised ==> (r.ok <==> Distinct(NonZero(TreeCodes(old(files)))))
    {
      hide BareIn, RewriteTree, TreeCodes, Zeros, NonZero, Highest, Distinct;
      seen, errors, visited := {}, [], [];
      ghost var tree, next := files, Highest(files) + 1;
      NoFilesMet(next);
      for f := 0 to |files|
        invariant Reached(tree, f, next)
      {
        var ok := PassFile(f, tree, next);
        if !ok {
          return Raised;
        }
      }
      AllFilesMet(tree, next);
      r := Checked(errors == []);
    }
  }

  lemma NoFilesMet(next: nat)
    ensures RewriteTree([], next) == [] && TreeCodes([]) == [] && Zeros([]) == 0 && NonZero([]) == []
    ensures Distinct<Code>([])
  {
  }

  lemma {:induction false} TreeCodesConcat(a: Tree, b: Tree)
    ensures TreeCodes(a + b) == TreeCodes(a) + TreeCodes(b)
  {
    hide FileCodes;
    if b == [] {
      assert a + b == a;
    } else {
      var b' := b[..|b| - 1];
      assert (a + b)[..|a + b| - 1] == a + b';
      TreeCodesConcat(a, b');
    }
  }

  // The files before f written back, the others as they were: the greatest code
  // on disk is the last one given.
  lemma HighestSoFar(tree: Tree, f: nat)
    requires f <= |tree|
    ensures var next := Highest(tree) + 1;
            var zeros := Zeros(TreeCodes(tree[..f]));
            Max(MaxSeq([0]), Highest(RewriteTree(tree[..f], next) + tree[f..])) + 1 == next + zeros
  {
    var next, before, after := Highest(tree) + 1, tree[..f], tree[f..];
    assert tree == before + after;
    TreeCodesConcat(before, after);
    MaxValueConcat(TreeCodes(before), TreeCodes(after));
    TreeCodesConcat(RewriteTree(before, next), after);
    RewriteTreeCodes(before, next);
    MaxValueConcat(Number(TreeCodes(before), next), TreeCodes(after));
    NumberMax(TreeCodes(before), next);
    assert MaxSeq([0]) == 0;
    hide TreeCodes, Zeros, Number, RewriteTree, MaxValue, MaxSeq;
  }

  lemma BareKept(a: Tree, b: Tree)
    requires KeptTree(a, b)
    ensures HasBare(a) <==> HasBare(b)
  {
    hide KeptSites;
    forall f | 0 <= f < |a| ensures BareIn(a[f]) <==> BareIn(b[f]) {
      assert KeptLines(a[f].lines, b[f].lines);
    }
  }

  lemma BareSoFar(tree: Tree, f: nat, next: nat)
    requires f <= |tree|
    ensures HasBare(RewriteTree(tree[..f], next) + tree[f..]) <==> HasBare(tree)
  {
    hide KeptLines, RewriteTree, HasBare;
    var disk := RewriteTree(tree[..f], next) + tree[f..];
    RewriteTreeKeeps(tree[..f], next);
    forall i | 0 <= i < |tree| ensures tree[i].guarded == disk[i].guarded && KeptLines(tree[i].lines, disk[i].lines) {
      SameLinesKept(tree[i].lines);
      if i < f {
        assert tree[..f][i] == tree[i];
      }
    }
    BareKept(tree, disk);
  }

  // If there is a bare assert, no file had a zero before the pass came to f.
  lemma BareMakesUnchanged(tree: Tree, f: nat, next: nat)
    requires f < |tree|
    requires HasBare(tree) ==> Zeros(TreeCodes(tree[..f])) == 0
    requires BareIn(tree[f]) || HasBare(tree)
    ensures HasBare(tree) && RewriteTree(tree[..f], next) + tree[f..] == tree
  {
    hide BareIn, TreeCodes, Zeros, RewriteTree;
    RewriteNothing(tree[..f], next);
  }

  lemma TreeStep(tree: Tree, f: nat, next: nat)
    requires f < |tree|
    ensures var codes, more := TreeCodes(tree[..f]), FileCodes(tree[f].lines);
            && Zeros(TreeCodes(tree[..f + 1])) == Zeros(codes) + Zeros(more)
            && NonZero(TreeCodes(tree[..f + 1])) == NonZero(codes) + NonZero(more)
            && RewriteTree(tree[..f + 1], next) ==
               RewriteTree(tree[..f], next) +
               [if Zeros(more) == 0 then tree[f]
                else tree[f].(lines := RewriteLines(tree[f].lines, next + Zeros(codes)))]
  {
    hide FileCodes, Zeros, NonZero, RewriteLines;
    assert tree[..f + 1][..f] == tree[..f];
    ZerosConcat(TreeCodes(tree[..f]), FileCodes(tree[f].lines));
    NonZeroConcat(TreeCodes(tree[..f]), FileCodes(tree[f].lines));
  }

  lemma AllFilesMet(tree: Tree, next: nat)
    ensures tree[..|tree|] == tree && RewriteTree(tree[..|tree|], next) + tree[|tree|..] == RewriteTree(tree, next)
  {
    hide RewriteTree;
    assert tree[..|tree|] == tree;
  }

  lemma {:induction false} ZerosUpToGrow(sites: seq<Site>, p: nat, q: nat)
    requires p <= q <= 3
    ensures Zeros(CodesUpTo(sites, p)) <= Zeros(CodesUpTo(sites, q))
    decreases q
  {
    if p < q {
      ZerosUpToGrow(sites, p, q - 1);
      ZerosConcat(CodesUpTo(sites, q - 1), PassCodes(sites, q - 1));
    }
  }

  lemma LineStep(line: Line, p: nat)
    requires p < 3
    ensures var codes, more := CodesUpTo(line.sites, p), PassCodes(line.sites, p);
            && Zeros(CodesUpTo(line.sites, p + 1)) == Zeros(codes) + Zeros(more)
            && NonZero(CodesUpTo(line.sites, p + 1)) == NonZero(codes) + NonZero(more)
            && Zeros(codes) + Zeros(more) <= Zeros(LineCodes(line))
  {
    ZerosConcat(CodesUpTo(line.sites, p), PassCodes(line.sites, p));
    NonZeroConcat(CodesUpTo(line.sites, p), PassCodes(line.sites, p));
    ZerosUpToGrow(line.sites, p + 1, 3);
    AllPasses(line);
    hide Zeros, NonZero, PassCodes, LineCodes;
  }

  lemma NoLinesMet(next: nat)
    ensures FileCodes([]) == [] && RewriteLines([], next) == [] && Zeros([]) == 0 && NonZero([]) == []
  {
  }

  lemma FileStep(lines: seq<Line>, l: nat, next: nat)
    requires l < |lines|
    ensures var codes, more := FileCodes(lines[..l]), LineCodes(lines[l]);
            && FileCodes(lines[..l + 1]) == codes + more
            && Zeros(FileCodes(lines[..l + 1])) == Zeros(codes) + Zeros(more)
            && NonZero(FileCodes(lines[..l + 1])) == NonZero(codes) + NonZero(more)
            && RewriteLines(lines[..l + 1], next) ==
               RewriteLines(lines[..l], next) + [RewriteLine(lines[l], next + Zeros(codes))]
  {
    hide LineCodes, Zeros, NonZero, RewriteLine;
    assert lines[..l + 1][..l] == lines[..l];
    ZerosConcat(FileCodes(lines[..l]), LineCodes(lines[l]));
    NonZeroConcat(FileCodes(lines[..l]), LineCodes(lines[l]));
  }

  lemma {:induction false} FileZerosGrow(lines: seq<Line>, l: nat)
    requires l <= |lines|
    ensures Zeros(FileCodes(lines[..l])) <= Zeros(FileCodes(lines))
    decreases |lines| - l
  {
    hide FileCodes, LineCodes, Zeros, NonZero, RewriteLine, RewriteLines;
    if l < |lines| {
      FileZerosGrow(lines, l + 1);
      FileStep(lines, l, 0);
    } else {
      assert lines[..l] == lines;
    }
  }

  lemma MaxSeqSnoc(s: seq<nat>, n: nat)
    ensures MaxSeq(s + [n]) == Max(MaxSeq(s), n)
  {
    assert (s + [n])[..|s|] == s;
  }

  lemma NothingMet(p: Pattern, next: nat)
    ensures PassCodes([], p) == [] && Sub([], p, next) == [] && Zeros([]) == 0 && NonZero([]) == []
  {
  }

  // The substitution and the codes it has met, one site further.
  lemma SubStep(sites: seq<Site>, p: Pattern, next: nat, j: nat)
    requires j < |sites|
    ensures var codes := PassCodes(sites[..j], p);
            && Sub(sites[..j + 1], p, next) == Sub(sites[..j], p, next) + [SubSite(sites[j], p, next + Zeros(codes))]
            && PassCodes(sites[..j + 1], p) == (if sites[j].pattern == p then codes + [sites[j].code] else codes)
            && Zeros(codes + [sites[j].code]) == Zeros(codes) + (if sites[j].code == ZERO then 1 else 0)
            && NonZero(codes + [sites[j].code]) ==
               (if sites[j].code == ZERO then NonZero(codes) else NonZero(codes) + [sites[j].code])
  {
    assert sites[..j + 1][..j] == sites[..j];
    var codes := PassCodes(sites[..j], p);
    assert (codes + [sites[j].code])[..|codes|] == codes;
  }

  lemma {:induction false} ZerosGrow(sites: seq<Site>, p: Pattern, j: nat)
    requires j < |sites| && sites[j].pattern == p && sites[j].code == ZERO
    ensures Zeros(PassCodes(sites, p)) > 0
    decreases |sites|
  {
    if j < |sites| - 1 {
      ZerosGrow(sites[..|sites| - 1], p, j);
    }
    SubStep(sites, p, 0, |sites| - 1);
    assert sites[..|sites|] == sites;
  }
}
