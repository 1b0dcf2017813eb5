/** Error codes in a source tree (errorcodes.py): the sites where a code is given,
    the order in which a pass meets them, and the numbering it should amount to. */
module ErrorCodes {
  import opened Collections
  import opened Decimal

  type Code = s: string | IsNumeral(s) witness "0"

  // Which of the three patterns matches the site.
  type Pattern = p: nat | p < 3

  // gap counts the spaces between the name and the bracket; a substitution drops them.
  datatype Site = Site(pattern: Pattern, code: Code, gap: nat)

  // A line: its sites from left to right, and whether it starts with a bare assert.
  datatype Line = Line(sites: seq<Site>, bare: bool)

  // A file: its lines, and whether its path is one where bare asserts are refused.
  datatype File = File(lines: seq<Line>, guarded: bool)

  type Tree = seq<File>

  const ZERO: Code := "0"

  function Max(a: nat, b: nat): nat {
    if a < b then b else a
  }

  // ---- The codes in scan order: file, line, pattern, position ----

  function PassCodes(sites: seq<Site>, p: Pattern): seq<Code> {
    if sites == [] then []
    else
      var n := |sites| - 1;
      if sites[n].pattern == p then PassCodes(sites[..n], p) + [sites[n].code] else PassCodes(sites[..n], p)
  }

  function LineCodes(line: Line): seq<Code> {
    PassCodes(line.sites, 0) + PassCodes(line.sites, 1) + PassCodes(line.sites, 2)
  }

  function FileCodes(lines: seq<Line>): seq<Code> {
    if lines == [] then [] else FileCodes(lines[..|lines| - 1]) + LineCodes(lines[|lines| - 1])
  }

  function TreeCodes(tree: Tree): seq<Code> {
    if tree == [] then [] else TreeCodes(tree[..|tree| - 1]) + FileCodes(tree[|tree| - 1].lines)
  }

  // ---- A plain counter over a list of codes ----

  function Zeros(codes: seq<Code>): nat {
    if codes == [] then 0 else Zeros(codes[..|codes| - 1]) + if codes[|codes| - 1] == ZERO then 1 else 0
  }

  // The zeros become next, next + 1, ... from left to right.
  function Number(codes: seq<Code>, next: nat): (r: seq<Code>)
    ensures |r| == |codes|
  {
    if codes == [] then []
    else
      var n := |codes| - 1;
      Number(codes[..n], next) + [if codes[n] == ZERO then Render(next + Zeros(codes[..n])) else codes[n]]
  }

  function MaxValue(codes: seq<Code>): nat {
    if codes == [] then 0 else Max(MaxValue(codes[..|codes| - 1]), Value(codes[|codes| - 1]))
  }

  function NonZero(codes: seq<Code>): seq<Code> {
    if codes == [] then []
    else
      var n := |codes| - 1;
      if codes[n] == ZERO then NonZero(codes[..n]) else NonZero(codes[..n]) + [codes[n]]
  }

  lemma NumberEmpty(next: nat)
    ensures Number([], next) == []
  {
  }

  lemma {:induction false} ZerosConcat(a: seq<Code>, b: seq<Code>)
    ensures Zeros(a + b) == Zeros(a) + Zeros(b)
  {
    if b == [] {
      assert a + b == a;
    } else {
      assert (a + b)[..|a + b| - 1] == a + b[..|b| - 1];
      ZerosConcat(a, b[..|b| - 1]);
    }
  }

  lemma {:induction false} NumberConcat(a: seq<Code>, b: seq<Code>, next: nat)
    ensures Number(a + b, next) == Number(a, next) + Number(b, next + Zeros(a))
  {
    if b == [] {
      assert a + b == a;
    } else {
      var b' := b[..|b| - 1];
      assert (a + b)[..|a + b| - 1] == a + b';
      NumberConcat(a, b', next);
      ZerosConcat(a, b');
    }
  }

  lemma {:induction false} MaxValueConcat(a: seq<Code>, b: seq<Code>)
    ensures MaxValue(a + b) == Max(MaxValue(a), MaxValue(b))
  {
    if b == [] {
      assert a + b == a;
    } else {
      assert (a + b)[..|a + b| - 1] == a + b[..|b| - 1];
      MaxValueConcat(a, b[..|b| - 1]);
    }
  }

  lemma {:induction false} NonZeroConcat(a: seq<Code>, b: seq<Code>)
    ensures NonZero(a + b) == NonZero(a) + NonZero(b)
  {
    if b == [] {
      assert a + b == a;
    } else {
      assert (a + b)[..|a + b| - 1] == a + b[..|b| - 1];
      NonZeroConcat(a, b[..|b| - 1]);
    }
  }

  // ---- What the numbering achieves ----

  // The greatest code after numbering above all codes.
  lemma {:induction false} NumberMax(codes: seq<Code>, next: nat)
    requires MaxValue(codes) < next
    ensures MaxValue(Number(codes, next)) == if Zeros(codes) > 0 then next + Zeros(codes) - 1 else MaxValue(codes)
  {
    if codes != [] {
      var n := |codes| - 1;
      NumberMax(codes[..n], next);
      assert Number(codes, next)[..n] == Number(codes[..n], next);
      if codes[n] == ZERO {
        ValueOfRender(next + Zeros(codes[..n]));
      }
    }
  }

  lemma {:induction false} NumberWithoutZeros(codes: seq<Code>, next: nat)
    requires Zeros(codes) == 0
    ensures Number(codes, next) == codes && NonZero(codes) == codes
  {
    if codes != [] {
      NumberWithoutZeros(codes[..|codes| - 1], next);
    }
  }

  lemma {:induction false} NumberHasNoZeros(codes: seq<Code>, next: nat)
    requires next > 0
    ensures Zeros(Number(codes, next)) == 0
  {
    if codes != [] {
      var n := |codes| - 1;
      NumberHasNoZeros(codes[..n], next);
      assert Number(codes, next)[..n] == Number(codes[..n], next);
      RenderNonzero(next + Zeros(codes[..n]));
    }
  }

  lemma {:induction false} NumberAt(codes: seq<Code>, next: nat, i: nat)
    requires i < |codes|
    ensures Number(codes, next)[i] == if codes[i] == ZERO then Render(next + Zeros(codes[..i])) else codes[i]
  {
    var n := |codes| - 1;
    if i < n {
      NumberAt(codes[..n], next, i);
      assert codes[..n][..i] == codes[..i];
    }
  }

  lemma {:induction false} ValueBound(codes: seq<Code>, i: nat)
    requires i < |codes|
    ensures Value(codes[i]) <= MaxValue(codes)
  {
    if i < |codes| - 1 {
      ValueBound(codes[..|codes| - 1], i);
    }
  }

  // A code that was there is there afterwards, and one that is new is greater.
  lemma {:induction false} NumberMembers(codes: seq<Code>, next: nat, c: Code)
    requires Value(c) < next && c != ZERO
    ensures c in Number(codes, next) <==> c in NonZero(codes)
  {
    if codes != [] {
      var n := |codes| - 1;
      NumberMembers(codes[..n], next, c);
      ValueOfRender(next + Zeros(codes[..n]));
    }
  }

  lemma NumberLast(codes: seq<Code>, next: nat)
    requires codes != []
    ensures var n := |codes| - 1;
            var front := codes[..n];
            && Number(codes, next) ==
               Number(front, next) + [if codes[n] == ZERO then Render(next + Zeros(front)) else codes[n]]
            && NonZero(codes) == (if codes[n] == ZERO then NonZero(front) else NonZero(front) + [codes[n]])
            && MaxValue(front) <= MaxValue(codes) && Value(codes[n]) <= MaxValue(codes)
  {
    hide Value, Zeros, Render;
  }

  lemma NothingNumbered(next: nat)
    ensures Number([], next) == [] && NonZero([]) == []
  {
  }

  // The next number is greater than all given before.
  lemma NewIsGreater(codes: seq<Code>, next: nat)
    requires MaxValue(codes) < next
    ensures var k := next + Zeros(codes);
            Value(Render(k)) == k && MaxValue(Number(codes, next)) < k
  {
    NumberMax(codes, next);
    ValueOfRender(next + Zeros(codes));
    hide Number, MaxValue, Zeros, Value, Render;
  }

  // After numbering above all codes, the codes are distinct exactly when the
  // nonzero ones were.
  lemma {:induction false} NumberDistinct(codes: seq<Code>, next: nat)
    requires MaxValue(codes) < next
    ensures Distinct(Number(codes, next)) <==> Distinct(NonZero(codes))
  {
    hide Zeros, Distinct, Number, NonZero, MaxValue, Value, Render;
    if codes == [] {
      NothingNumbered(next);
      return;
    }
    var n := |codes| - 1;
    var front := codes[..n];
    NumberLast(codes, next);
    NumberDistinct(front, next);
    if codes[n] == ZERO {
      var fresh' := Render(next + Zeros(front));
      NewIsGreater(front, next);
      forall i | 0 <= i < n ensures Number(front, next)[i] != fresh' {
        ValueBound(Number(front, next), i);
      }
      DistinctAppend<Code>(Number(front, next), fresh');
    } else {
      NumberMembers(front, next, codes[n]);
      DistinctAppend(Number(front, next), codes[n]);
      DistinctAppend(NonZero(front), codes[n]);
    }
  }

  // ---- The same for the codes read as numbers ----

  function Values(codes: seq<Code>): (v: seq<nat>)
    ensures |v| == |codes| && forall i :: 0 <= i < |v| ==> v[i] == Value(codes[i])
  {
    if codes == [] then [] else Values(codes[..|codes| - 1]) + [Value(codes[|codes| - 1])]
  }

  lemma ValuesSnoc(codes: seq<Code>, c: Code)
    ensures Values(codes + [c]) == Values(codes) + [Value(c)]
  {
    assert (codes + [c])[..|codes|] == codes;
  }

  lemma {:induction false} ValuesBound(codes: seq<Code>, v: nat)
    requires v in Values(codes)
    ensures v <= MaxValue(codes)
  {
    if v in Values(codes[..|codes| - 1]) {
      ValuesBound(codes[..|codes| - 1], v);
    }
  }

  // A number below the new ones is there afterwards exactly if a nonzero code had it.
  lemma {:induction false} NumberValueMembers(codes: seq<Code>, next: nat, v: nat)
    requires v < next
    ensures v in Values(Number(codes, next)) <==> v in Values(NonZero(codes))
  {
    hide Zeros, Value;
    if codes != [] {
      var n := |codes| - 1;
      NumberValueMembers(codes[..n], next, v);
      ValueOfRender(next + Zeros(codes[..n]));
      ValuesSnoc(Number(codes[..n], next), Number(codes, next)[n]);
      ValuesSnoc(NonZero(codes[..n]), codes[n]);
    }
  }

  // After numbering above all codes, the numbers are distinct exactly when those
  // of the nonzero codes were.
  lemma {:induction false} NumberDistinctValues(codes: seq<Code>, next: nat)
    requires MaxValue(codes) < next
    ensures Distinct(Values(Number(codes, next))) <==> Distinct(Values(NonZero(codes)))
  {
    hide Zeros, Value, Render, Distinct, Values, Number, NonZero, MaxValue;
    if codes == [] {
      NothingNumbered(next);
      return;
    }
    var n := |codes| - 1;
    var front, last := codes[..n], Number(codes, next)[n];
    NumberLast(codes, next);
    NumberDistinctValues(front, next);
    ValuesSnoc(Number(front, next), last);
    DistinctAppend(Values(Number(front, next)), Value(last));
    if codes[n] == ZERO {
      NewIsGreater(front, next);
      if Value(last) in Values(Number(front, next)) {
        ValuesBound(Number(front, next), Value(last));
      }
    } else {
      NumberValueMembers(front, next, Value(last));
      ValuesSnoc(NonZero(front), last);
      DistinctAppend(Values(NonZero(front)), Value(last));
    }
  }

  // ---- The pass over a tree, with the counter it should amount to ----

  // One substitution: the k-th code goes to the site if it matches and is zero.
  function SubSite(s: Site, p: Pattern, k: nat): Site {
    if s.pattern != p then s
    else if s.code == ZERO then Site(p, Render(k), 0)
    else s.(gap := 0)
  }

  // re.sub with pattern p over a line.
  function Sub(sites: seq<Site>, p: Pattern, next: nat): (r: seq<Site>)
    ensures |r| == |sites|
  {
    if sites == [] then []
    else
      var n := |sites| - 1;
      Sub(sites[..n], p, next) + [SubSite(sites[n], p, next + Zeros(PassCodes(sites[..n], p)))]
  }

  // The three substitutions, each on what the one before it left.
  function SubUpTo(sites: seq<Site>, p: nat, next: nat): seq<Site>
    requires p <= 3
  {
    if p == 0 then sites
    else
      var sites' := SubUpTo(sites, p - 1, next);
      Sub(sites', p - 1, next + Zeros(CodesUpTo(sites, p - 1)))
  }

  function CodesUpTo(sites: seq<Site>, p: nat): seq<Code>
    requires p <= 3
  {
    if p == 0 then [] else CodesUpTo(sites, p - 1) + PassCodes(sites, p - 1)
  }

  function RewriteLine(line: Line, next: nat): Line {
    line.(sites := SubUpTo(line.sites, 3, next))
  }

  function RewriteLines(lines: seq<Line>, next: nat): (r: seq<Line>)
    ensures |r| == |lines|
  {
    if lines == [] then []
    else
      var n := |lines| - 1;
      RewriteLines(lines[..n], next) + [RewriteLine(lines[n], next + Zeros(FileCodes(lines[..n])))]
  }

  // A file without a zero is not written back.
  function RewriteFile(file: File, next: nat): File {
    if Zeros(FileCodes(file.lines)) == 0 then file else file.(lines := RewriteLines(file.lines, next))
  }

  function RewriteTree(tree: Tree, next: nat): (r: Tree)
    ensures |r| == |tree|
  {
    if tree == [] then []
    else
      var n := |tree| - 1;
      RewriteTree(tree[..n], next) + [RewriteFile(tree[n], next + Zeros(TreeCodes(tree[..n])))]
  }

  // ---- The pass is the numbering of the codes in scan order ----

  lemma PassCodesSnoc(sites: seq<Site>, s: Site, p: Pattern)
    ensures PassCodes(sites + [s], p) == if s.pattern == p then PassCodes(sites, p) + [s.code] else PassCodes(sites, p)
  {
    assert (sites + [s])[..|sites|] == sites;
  }

  lemma NumberSnoc(codes: seq<Code>, c: Code, next: nat)
    ensures Number(codes + [c], next) == Number(codes, next) + [if c == ZERO then Render(next + Zeros(codes)) else c]
  {
    assert (codes + [c])[..|codes|] == codes;
  }

  lemma FileCodesSnoc(lines: seq<Line>, line: Line)
    ensures FileCodes(lines + [line]) == FileCodes(lines) + LineCodes(line)
  {
    assert (lines + [line])[..|lines|] == lines;
  }

  lemma TreeCodesSnoc(tree: Tree, file: File)
    ensures TreeCodes(tree + [file]) == TreeCodes(tree) + FileCodes(file.lines)
  {
    assert (tree + [file])[..|tree|] == tree;
  }

  lemma SubEmpty(p: Pattern, next: nat, q: Pattern)
    ensures Sub([], p, next) == [] && PassCodes([], q) == [] && Number([], next) == []
  {
  }

  lemma SubLast(sites: seq<Site>, p: Pattern, next: nat)
    requires sites != []
    ensures var n := |sites| - 1;
            Sub(sites, p, next) ==
            Sub(sites[..n], p, next) + [SubSite(sites[n], p, next + Zeros(PassCodes(sites[..n], p)))]
  {
    hide SubSite, Zeros, PassCodes;
  }

  lemma {:induction false} SubCodes(sites: seq<Site>, p: Pattern, next: nat, q: Pattern)
    ensures PassCodes(Sub(sites, p, next), q) ==
            if q == p then Number(PassCodes(sites, p), next) else PassCodes(sites, q)
  {
    hide Number, Zeros, Sub, PassCodes;
    if sites == [] {
      SubEmpty(p, next, q);
      return;
    }
    var n := |sites| - 1;
    var codes := PassCodes(sites[..n], p);
    SubCodes(sites[..n], p, next, q);
    var last := SubSite(sites[n], p, next + Zeros(codes));
    SubLast(sites, p, next);
    PassCodesSnoc(Sub(sites[..n], p, next), last, q);
    PassCodesSnoc(sites[..n], sites[n], q);
    assert sites == sites[..n] + [sites[n]];
    NumberSnoc(codes, sites[n].code, next);
  }

  lemma {:induction false} SubUpToCodes(sites: seq<Site>, p: nat, next: nat)
    requires p <= 3
    ensures CodesUpTo(SubUpTo(sites, p, next), p) == Number(CodesUpTo(sites, p), next)
    ensures forall q: Pattern :: q >= p ==> PassCodes(SubUpTo(sites, p, next), q) == PassCodes(sites, q)
  {
    hide Number, Zeros, PassCodes, Sub;
    if p == 0 {
      NumberEmpty(next);
      return;
    }
    SubUpToCodes(sites, p - 1, next);
    var before := SubUpTo(sites, p - 1, next);
    var k := next + Zeros(CodesUpTo(sites, p - 1));
    var after := Sub(before, p - 1, k);
    forall q: Pattern
      ensures PassCodes(after, q) == if q == p - 1 then Number(PassCodes(before, q), k) else PassCodes(before, q)
    {
      SubCodes(before, p - 1, k, q);
    }
    CodesUpToSame(before, after, p - 1);
    NumberConcat(CodesUpTo(sites, p - 1), PassCodes(sites, p - 1), next);
  }

  lemma {:induction false} CodesUpToSame(a: seq<Site>, b: seq<Site>, p: nat)
    requires p <= 3 && forall q: Pattern :: q < p ==> PassCodes(a, q) == PassCodes(b, q)
    ensures CodesUpTo(a, p) == CodesUpTo(b, p)
  {
    if p > 0 {
      CodesUpToSame(a, b, p - 1);
    }
  }

  lemma AllPasses(line: Line)
    ensures CodesUpTo(line.sites, 3) == LineCodes(line)
  {
    var s := line.sites;
    assert CodesUpTo(s, 1) == PassCodes(s, 0);
    assert CodesUpTo(s, 2) == PassCodes(s, 0) + PassCodes(s, 1);
  }

  lemma RewriteLineCodes(line: Line, next: nat)
    ensures LineCodes(RewriteLine(line, next)) == Number(LineCodes(line), next)
  {
    SubUpToCodes(line.sites, 3, next);
    AllPasses(line);
    AllPasses(RewriteLine(line, next));
  }

  lemma {:induction false} RewriteLinesCodes(lines: seq<Line>, next: nat)
    ensures FileCodes(RewriteLines(lines, next)) == Number(FileCodes(lines), next)
  {
    hide Number, Zeros, LineCodes, RewriteLine;
    if lines == [] {
      NumberEmpty(next);
      return;
    }
    var n := |lines| - 1;
    var codes := FileCodes(lines[..n]);
    var k := next + Zeros(codes);
    RewriteLinesCodes(lines[..n], next);
    RewriteLineCodes(lines[n], k);
    FileCodesSnoc(RewriteLines(lines[..n], next), RewriteLine(lines[n], k));
    NumberConcat(codes, LineCodes(lines[n]), next);
  }

  lemma RewriteFileCodes(file: File, next: nat)
    ensures FileCodes(RewriteFile(file, next).lines) == Number(FileCodes(file.lines), next)
  {
    if Zeros(FileCodes(file.lines)) == 0 {
      NumberWithoutZeros(FileCodes(file.lines), next);
    } else {
      RewriteLinesCodes(file.lines, next);
    }
  }

  lemma {:induction false} RewriteTreeCodes(tree: Tree, next: nat)
    ensures TreeCodes(RewriteTree(tree, next)) == Number(TreeCodes(tree), next)
  {
    hide Number, Zeros, FileCodes, RewriteFile;
    if tree == [] {
      NumberEmpty(next);
      return;
    }
    var n := |tree| - 1;
    var codes := TreeCodes(tree[..n]);
    var k := next + Zeros(codes);
    RewriteTreeCodes(tree[..n], next);
    RewriteFileCodes(tree[n], k);
    TreeCodesSnoc(RewriteTree(tree[..n], next), RewriteFile(tree[n], k));
    NumberConcat(codes, FileCodes(tree[n].lines), next);
  }

  // ---- What stays as it was ----

  // Sites keep their place and pattern, and their code unless it was zero.
  predicate KeptSites(a: seq<Site>, b: seq<Site>) {
    && |a| == |b|
    && forall j :: 0 <= j < |a| ==> a[j].pattern == b[j].pattern && (a[j].code != ZERO ==> b[j].code == a[j].code)
  }

  predicate KeptLines(a: seq<Line>, b: seq<Line>) {
    |a| == |b| && forall l :: 0 <= l < |a| ==> a[l].bare == b[l].bare && KeptSites(a[l].sites, b[l].sites)
  }

  predicate KeptTree(a: Tree, b: Tree) {
    |a| == |b| && forall f :: 0 <= f < |a| ==> a[f].guarded == b[f].guarded && KeptLines(a[f].lines, b[f].lines)
  }

  lemma {:induction false} SubKeeps(sites: seq<Site>, p: Pattern, next: nat)
    ensures KeptSites(sites, Sub(sites, p, next))
  {
    if sites != [] {
      var n := |sites| - 1;
      SubKeeps(sites[..n], p, next);
      forall j | 0 <= j < n ensures sites[j].pattern == Sub(sites, p, next)[j].pattern &&
                                    (sites[j].code != ZERO ==> Sub(sites, p, next)[j].code == sites[j].code) {
        assert sites[..n][j] == sites[j];
      }
    }
  }

  lemma {:induction false} SubUpToKeeps(sites: seq<Site>, p: nat, next: nat)
    requires p <= 3
    ensures KeptSites(sites, SubUpTo(sites, p, next))
  {
    hide Sub, CodesUpTo, Zeros;
    if p == 0 {
      return;
    }
    SubUpToKeeps(sites, p - 1, next);
    SubKeeps(SubUpTo(sites, p - 1, next), p - 1, next + Zeros(CodesUpTo(sites, p - 1)));
  }

  lemma {:induction false} RewriteLinesKeeps(lines: seq<Line>, next: nat)
    ensures KeptLines(lines, RewriteLines(lines, next))
  {
    hide Zeros, SubUpTo, KeptSites, FileCodes;
    if lines == [] {
      return;
    }
    var n := |lines| - 1;
    RewriteLinesKeeps(lines[..n], next);
    SubUpToKeeps(lines[n].sites, 3, next + Zeros(FileCodes(lines[..n])));
    forall l | 0 <= l < n ensures lines[l].bare == RewriteLines(lines, next)[l].bare &&
                                  KeptSites(lines[l].sites, RewriteLines(lines, next)[l].sites) {
      assert lines[..n][l] == lines[l];
    }
  }

  lemma {:induction false} SameLinesKept(lines: seq<Line>)
    ensures KeptLines(lines, lines)
  {
  }

  // The pass changes codes that were zero, and no others.
  lemma {:induction false} RewriteTreeKeeps(tree: Tree, next: nat)
    ensures KeptTree(tree, RewriteTree(tree, next))
  {
    hide Zeros, RewriteLines, KeptLines, FileCodes, TreeCodes;
    if tree == [] {
      return;
    }
    var n := |tree| - 1;
    RewriteTreeKeeps(tree[..n], next);
    RewriteLinesKeeps(tree[n].lines, next + Zeros(TreeCodes(tree[..n])));
    SameLinesKept(tree[n].lines);
    forall f | 0 <= f < n ensures tree[f].guarded == RewriteTree(tree, next)[f].guarded &&
                                  KeptLines(tree[f].lines, RewriteTree(tree, next)[f].lines) {
      assert tree[..n][f] == tree[f];
    }
  }

  predicate GapsDropped(sites: seq<Site>, p: nat) {
    forall j :: 0 <= j < |sites| && sites[j].pattern < p ==> sites[j].gap == 0
  }

  predicate NoGaps(line: Line) {
    forall j :: 0 <= j < |line.sites| ==> line.sites[j].gap == 0
  }

  lemma {:induction false} SubGaps(sites: seq<Site>, p: Pattern, next: nat)
    requires GapsDropped(sites, p)
    ensures GapsDropped(Sub(sites, p, next), p + 1)
  {
    hide Zeros, PassCodes;
    if sites != [] {
      var n := |sites| - 1;
      assert GapsDropped(sites[..n], p);
      SubGaps(sites[..n], p, next);
    }
  }

  lemma {:induction false} SubUpToGaps(sites: seq<Site>, p: nat, next: nat)
    requires p <= 3
    ensures GapsDropped(SubUpTo(sites, p, next), p)
  {
    hide Sub, CodesUpTo, Zeros;
    if p > 0 {
      SubUpToGaps(sites, p - 1, next);
      SubGaps(SubUpTo(sites, p - 1, next), p - 1, next + Zeros(CodesUpTo(sites, p - 1)));
    }
  }

  lemma {:induction false} RewriteLinesGaps(lines: seq<Line>, next: nat, l: nat)
    requires l < |lines|
    ensures NoGaps(RewriteLines(lines, next)[l])
  {
    hide Zeros, SubUpTo, FileCodes;
    var n := |lines| - 1;
    if l < n {
      RewriteLinesGaps(lines[..n], next, l);
    } else {
      SubUpToGaps(lines[n].sites, 3, next + Zeros(FileCodes(lines[..n])));
    }
  }

  lemma {:induction false} RewriteTreeAt(tree: Tree, next: nat, f: nat)
    requires f < |tree|
    ensures RewriteTree(tree, next)[f] == RewriteFile(tree[f], next + Zeros(TreeCodes(tree[..f])))
  {
    hide Zeros, TreeCodes, RewriteFile;
    var n := |tree| - 1;
    if f < n {
      RewriteTreeAt(tree[..n], next, f);
      assert tree[..n][..f] == tree[..f];
    }
  }

  lemma RewriteFileGaps(file: File, next: nat)
    requires Zeros(FileCodes(file.lines)) > 0
    ensures forall l :: 0 <= l < |RewriteFile(file, next).lines| ==> NoGaps(RewriteFile(file, next).lines[l])
  {
    hide Zeros, FileCodes, RewriteLines, NoGaps;
    forall l | 0 <= l < |file.lines| ensures NoGaps(RewriteLines(file.lines, next)[l]) {
      RewriteLinesGaps(file.lines, next, l);
    }
  }

  // A file without a zero is left as it is; in any other the spaces between name
  // and bracket are gone at every site.
  lemma SpacesDropped(tree: Tree, next: nat, f: nat)
    requires f < |tree|
    ensures Zeros(FileCodes(tree[f].lines)) == 0 ==> RewriteTree(tree, next)[f] == tree[f]
    ensures Zeros(FileCodes(tree[f].lines)) > 0 ==>
              var lines := RewriteTree(tree, next)[f].lines;
              forall l :: 0 <= l < |lines| ==> NoGaps(lines[l])
  {
    hide Zeros, FileCodes, RewriteLines, TreeCodes, NoGaps, RewriteTree;
    RewriteTreeAt(tree, next, f);
    if Zeros(FileCodes(tree[f].lines)) > 0 {
      RewriteFileGaps(tree[f], next + Zeros(TreeCodes(tree[..f])));
    }
  }

  // ---- Where a site comes in the scan ----

  predicate IsSite(tree: Tree, f: nat, l: nat, j: nat) {
    f < |tree| && l < |tree[f].lines| && j < |tree[f].lines[l].sites|
  }

  function LinePlace(sites: seq<Site>, j: nat): nat
    requires j < |sites|
  {
    |CodesUpTo(sites, sites[j].pattern)| + |PassCodes(sites[..j], sites[j].pattern)|
  }

  // How many codes the scan meets before site j of line l of file f.
  function Place(tree: Tree, f: nat, l: nat, j: nat): nat
    requires IsSite(tree, f, l, j)
  {
    |TreeCodes(tree[..f])| + |FileCodes(tree[f].lines[..l])| + LinePlace(tree[f].lines[l].sites, j)
  }

  lemma {:induction false} PassPlace(sites: seq<Site>, p: Pattern, j: nat)
    requires j < |sites|
    ensures PassCodes(sites[..j], p) <= PassCodes(sites[..j + 1], p) <= PassCodes(sites, p)
    ensures sites[j].pattern == p ==> PassCodes(sites[..j + 1], p) == PassCodes(sites[..j], p) + [sites[j].code]
    decreases |sites|
  {
    var n := |sites| - 1;
    assert sites[..j + 1] == sites[..j] + [sites[j]];
    PassCodesSnoc(sites[..j], sites[j], p);
    if j < n {
      PassPlace(sites[..n], p, j);
      assert sites[..n][..j + 1] == sites[..j + 1];
    } else {
      assert sites[..j + 1] == sites;
    }
  }

  lemma {:induction false} UpToGrows(sites: seq<Site>, p: nat, q: nat)
    requires p <= q <= 3
    ensures CodesUpTo(sites, p) <= CodesUpTo(sites, q)
    decreases q
  {
    if p < q {
      UpToGrows(sites, p, q - 1);
    }
  }

  lemma LinePlaceCode(line: Line, j: nat)
    requires j < |line.sites|
    ensures var k := LinePlace(line.sites, j); k < |LineCodes(line)| && LineCodes(line)[k] == line.sites[j].code
  {
    hide PassCodes, LineCodes;
    var sites := line.sites;
    var p: nat := sites[j].pattern;
    PassPlace(sites, p, j);
    UpToGrows(sites, p + 1, 3);
    AllPasses(line);
    assert CodesUpTo(sites, p + 1) == CodesUpTo(sites, p) + PassCodes(sites, p);
  }

  lemma {:induction false} LineInFile(lines: seq<Line>, l: nat)
    requires l < |lines|
    ensures FileCodes(lines[..l]) + LineCodes(lines[l]) <= FileCodes(lines)
  {
    hide FileCodes, LineCodes;
    var n := |lines| - 1;
    assert lines == lines[..n] + [lines[n]];
    FileCodesSnoc(lines[..n], lines[n]);
    if l < n {
      LineInFile(lines[..n], l);
      assert lines[..n][..l] == lines[..l];
      PrefixOfLonger(FileCodes(lines[..l]) + LineCodes(lines[l]), FileCodes(lines[..n]), LineCodes(lines[n]));
    }
  }

  lemma {:induction false} FileInTree(tree: Tree, f: nat)
    requires f < |tree|
    ensures TreeCodes(tree[..f]) + FileCodes(tree[f].lines) <= TreeCodes(tree)
  {
    hide TreeCodes, FileCodes;
    var n := |tree| - 1;
    assert tree == tree[..n] + [tree[n]];
    TreeCodesSnoc(tree[..n], tree[n]);
    if f < n {
      FileInTree(tree[..n], f);
      assert tree[..n][..f] == tree[..f];
      PrefixOfLonger(TreeCodes(tree[..f]) + FileCodes(tree[f].lines), TreeCodes(tree[..n]), FileCodes(tree[n].lines));
    }
  }

  lemma PlaceCode(tree: Tree, f: nat, l: nat, j: nat)
    requires IsSite(tree, f, l, j)
    ensures var k := Place(tree, f, l, j);
            k < |TreeCodes(tree)| && TreeCodes(tree)[k] == tree[f].lines[l].sites[j].code
  {
    hide TreeCodes, FileCodes, LineCodes, LinePlace;
    var lines := tree[f].lines;
    LinePlaceCode(lines[l], j);
    LineInFile(lines, l);
    FileInTree(tree, f);
    var before, k := FileCodes(lines[..l]), LinePlace(lines[l].sites, j);
    assert FileCodes(lines)[|before| + k] == (before + LineCodes(lines[l]))[|before| + k];
    var earlier := TreeCodes(tree[..f]);
    assert TreeCodes(tree)[|earlier| + |before| + k] == (earlier + FileCodes(lines))[|earlier| + |before| + k];
  }

  // The order of the scan: by file, then line, then pattern, then position.
  predicate Earlier(tree: Tree, f: nat, l: nat, j: nat, g: nat, m: nat, i: nat)
    requires IsSite(tree, f, l, j) && IsSite(tree, g, m, i)
  {
    var p, q := tree[f].lines[l].sites[j].pattern, tree[g].lines[m].sites[i].pattern;
    f < g || (f == g && (l < m || (l == m && (p < q || (p == q && j < i)))))
  }

  lemma LineOrder(sites: seq<Site>, j: nat, i: nat)
    requires j < |sites| && i < |sites|
    requires sites[j].pattern < sites[i].pattern || (sites[j].pattern == sites[i].pattern && j < i)
    ensures LinePlace(sites, j) < LinePlace(sites, i)
  {
    hide PassCodes;
    var p: nat, q: nat := sites[j].pattern, sites[i].pattern;
    PassPlace(sites, p, j);
    if p < q {
      UpToGrows(sites, p + 1, q);
      assert CodesUpTo(sites, p + 1) == CodesUpTo(sites, p) + PassCodes(sites, p);
    } else {
      PassPlace(sites[..i], p, j);
      assert sites[..i][..j + 1] == sites[..j + 1] && sites[..i][..j] == sites[..j];
    }
  }

  lemma PlaceOrder(tree: Tree, f: nat, l: nat, j: nat, g: nat, m: nat, i: nat)
    requires IsSite(tree, f, l, j) && IsSite(tree, g, m, i) && Earlier(tree, f, l, j, g, m, i)
    ensures Place(tree, f, l, j) < Place(tree, g, m, i)
  {
    hide TreeCodes, FileCodes, LineCodes, LinePlace;
    var lines := tree[f].lines;
    LinePlaceCode(lines[l], j);
    if f < g {
      LineInFile(lines, l);
      FileInTree(tree[..g], f);
      assert tree[..g][..f] == tree[..f];
    } else if l < m {
      LineInFile(lines[..m], l);
      assert lines[..m][..l] == lines[..l];
    } else {
      LineOrder(lines[l].sites, j, i);
    }
  }

  // ---- What the pass is for ----

  function Highest(tree: Tree): nat {
    MaxValue(TreeCodes(tree))
  }

  // The pass over a tree as it should be: numbers above all codes, in scan order.
  function Renumbered(tree: Tree): Tree {
    RewriteTree(tree, Highest(tree) + 1)
  }

  // The i-th site in scan order gets, if it is zero, the greatest code there was
  // plus one for itself and one for each zero site before it.
  lemma FreshCodes(tree: Tree, i: nat)
    requires i < |TreeCodes(tree)|
    ensures var before, after := TreeCodes(tree), TreeCodes(Renumbered(tree));
            && |after| == |before|
            && after[i] == if before[i] == ZERO then Render(Highest(tree) + 1 + Zeros(before[..i])) else before[i]
  {
    hide RewriteTree, TreeCodes, Number, Zeros, Highest;
    RewriteTreeCodes(tree, Highest(tree) + 1);
    NumberAt(TreeCodes(tree), Highest(tree) + 1, i);
  }

  lemma {:induction false} SamePassCount(a: seq<Site>, b: seq<Site>, p: Pattern)
    requires KeptSites(a, b)
    ensures |PassCodes(a, p)| == |PassCodes(b, p)|
  {
    if a != [] {
      var n := |a| - 1;
      assert a[n].pattern == b[n].pattern;
      SamePassCount(a[..n], b[..n], p);
    }
  }

  lemma {:induction false} SameUpToCount(a: seq<Site>, b: seq<Site>, p: nat)
    requires KeptSites(a, b) && p <= 3
    ensures |CodesUpTo(a, p)| == |CodesUpTo(b, p)|
  {
    if p > 0 {
      SameUpToCount(a, b, p - 1);
      SamePassCount(a, b, p - 1);
    }
  }

  lemma SameLinePlace(a: seq<Site>, b: seq<Site>, j: nat)
    requires KeptSites(a, b) && j < |a|
    ensures LinePlace(a, j) == LinePlace(b, j)
  {
    hide PassCodes, CodesUpTo;
    var p := a[j].pattern;
    assert b[j].pattern == p;
    SameUpToCount(a, b, p);
    SamePassCount(a[..j], b[..j], p);
  }

  lemma SameLineCount(a: Line, b: Line)
    requires KeptSites(a.sites, b.sites)
    ensures |LineCodes(a)| == |LineCodes(b)|
  {
    hide LineCodes, CodesUpTo, KeptSites;
    SameUpToCount(a.sites, b.sites, 3);
    AllPasses(a);
    AllPasses(b);
  }

  lemma {:induction false} SameFileCount(a: seq<Line>, b: seq<Line>)
    requires KeptLines(a, b)
    ensures |FileCodes(a)| == |FileCodes(b)|
  {
    hide LineCodes, KeptSites;
    if a != [] {
      var n := |a| - 1;
      SameFileCount(a[..n], b[..n]);
      SameLineCount(a[n], b[n]);
    }
  }

  lemma {:induction false} SameTreeCount(a: Tree, b: Tree)
    requires KeptTree(a, b)
    ensures |TreeCodes(a)| == |TreeCodes(b)|
  {
    hide FileCodes, KeptLines;
    if a != [] {
      var n := |a| - 1;
      SameTreeCount(a[..n], b[..n]);
      SameFileCount(a[n].lines, b[n].lines);
    }
  }

  lemma SamePlace(a: Tree, b: Tree, f: nat, l: nat, j: nat)
    requires KeptTree(a, b) && IsSite(a, f, l, j)
    ensures IsSite(b, f, l, j) && Place(a, f, l, j) == Place(b, f, l, j)
  {
    hide TreeCodes, FileCodes, LinePlace;
    assert KeptLines(a[f].lines, b[f].lines);
    assert KeptSites(a[f].lines[l].sites, b[f].lines[l].sites);
    SameTreeCount(a[..f], b[..f]);
    SameFileCount(a[f].lines[..l], b[f].lines[..l]);
    SameLinePlace(a[f].lines[l].sites, b[f].lines[l].sites, j);
  }

  // What the pass makes of each site.
  lemma SiteCode(tree: Tree, f: nat, l: nat, j: nat)
    requires IsSite(tree, f, l, j)
    ensures IsSite(Renumbered(tree), f, l, j) && Place(tree, f, l, j) < |TreeCodes(tree)|
    ensures var was, now := tree[f].lines[l].sites[j], Renumbered(tree)[f].lines[l].sites[j];
            && now.pattern == was.pattern
            && now.code == if was.code != ZERO then was.code
                           else Render(Highest(tree) + 1 + Zeros(TreeCodes(tree)[..Place(tree, f, l, j)]))
  {
    hide RewriteTree, TreeCodes, Zeros, Place, MaxValue;
    var after := Renumbered(tree);
    RewriteTreeKeeps(tree, Highest(tree) + 1);
    SamePlace(tree, after, f, l, j);
    assert KeptLines(tree[f].lines, after[f].lines);
    assert KeptSites(tree[f].lines[l].sites, after[f].lines[l].sites);
    PlaceCode(tree, f, l, j);
    PlaceCode(after, f, l, j);
    FreshCodes(tree, Place(tree, f, l, j));
  }

  lemma {:induction false} ZerosBefore(codes: seq<Code>, i: nat, k: nat)
    requires i < k <= |codes| && codes[i] == ZERO
    ensures Zeros(codes[..i]) < Zeros(codes[..k])
    decreases k
  {
    assert codes[..k][..k - 1] == codes[..k - 1];
    if i < k - 1 {
      ZerosBefore(codes, i, k - 1);
    }
  }

  // New codes are greater than all that were there, and go up in the order of
  // files, lines, patterns and positions.
  lemma GivenInOrder(tree: Tree, f: nat, l: nat, j: nat, g: nat, m: nat, i: nat)
    requires IsSite(tree, f, l, j) && IsSite(tree, g, m, i) && Earlier(tree, f, l, j, g, m, i)
    requires tree[f].lines[l].sites[j].code == tree[g].lines[m].sites[i].code == "0"
    ensures IsSite(Renumbered(tree), f, l, j) && IsSite(Renumbered(tree), g, m, i)
    ensures Highest(tree) < Value(Renumbered(tree)[f].lines[l].sites[j].code)
                          < Value(Renumbered(tree)[g].lines[m].sites[i].code)
  {
    hide Renumbered, TreeCodes, Zeros, Place, MaxValue, Value, Render, Earlier;
    SiteCode(tree, f, l, j);
    SiteCode(tree, g, m, i);
    PlaceOrder(tree, f, l, j, g, m, i);
    PlaceCode(tree, f, l, j);
    PlaceCode(tree, g, m, i);
    var codes, k, k' := TreeCodes(tree), Place(tree, f, l, j), Place(tree, g, m, i);
    ZerosBefore(codes, k, k');
    ValueOfRender(Highest(tree) + 1 + Zeros(codes[..k]));
    ValueOfRender(Highest(tree) + 1 + Zeros(codes[..k']));
  }

  // No zero is left, and no code occurs twice exactly if no nonzero one did.
  lemma RenumberedDistinct(tree: Tree)
    ensures Zeros(TreeCodes(Renumbered(tree))) == 0
    ensures Distinct(TreeCodes(Renumbered(tree))) <==> Distinct(NonZero(TreeCodes(tree)))
  {
    hide RewriteTree, TreeCodes, Number, Zeros, NonZero, Distinct, MaxValue;
    var codes, next := TreeCodes(tree), Highest(tree) + 1;
    RewriteTreeCodes(tree, next);
    NumberHasNoZeros(codes, next);
    NumberDistinct(codes, next);
  }

  // The same as numbers, whatever leading zeros there are: afterwards no number
  // occurs twice exactly if none did among the nonzero codes.
  lemma DistinctNumbers(tree: Tree)
    ensures Distinct(Values(TreeCodes(Renumbered(tree)))) <==> Distinct(Values(NonZero(TreeCodes(tree))))
  {
    hide RewriteTree, TreeCodes, Number, NonZero, Distinct, MaxValue, Values;
    RewriteTreeCodes(tree, Highest(tree) + 1);
    NumberDistinctValues(TreeCodes(tree), Highest(tree) + 1);
  }

  predicate NoLeadingZeros(codes: seq<Code>) {
    forall i :: 0 <= i < |codes| ==> codes[i] == Render(Value(codes[i]))
  }

  lemma SameAsNumbers(codes: seq<Code>)
    ensures Distinct(Values(codes)) ==> Distinct(codes)
    ensures NoLeadingZeros(codes) ==> (Distinct(codes) <==> Distinct(Values(codes)))
  {
    hide Value, Values;
    forall i, j | 0 <= i < j < |codes| ensures codes[i] == codes[j] ==> Values(codes)[i] == Values(codes)[j] {
    }
    if NoLeadingZeros(codes) && Distinct(codes) {
      forall i, j | 0 <= i < j < |codes| ensures Values(codes)[i] != Values(codes)[j] {
        assert codes[i] != codes[j];
      }
    }
  }

  // If no number occurs twice after the pass, no nonzero text did before; and if
  // no nonzero code has a leading zero the converse holds, so that comparing
  // text, as the pass does, is enough.
  lemma TextDecides(tree: Tree)
    ensures var nonzero, after := NonZero(TreeCodes(tree)), TreeCodes(Renumbered(tree));
            && (Distinct(Values(after)) ==> Distinct(nonzero))
            && (NoLeadingZeros(nonzero) ==> (Distinct(nonzero) <==> Distinct(Values(after))))
  {
    hide TreeCodes, Renumbered, NonZero, Distinct, Values, NoLeadingZeros;
    DistinctNumbers(tree);
    SameAsNumbers(NonZero(TreeCodes(tree)));
  }

  lemma {:induction false} RewriteNothing(tree: Tree, next: nat)
    requires Zeros(TreeCodes(tree)) == 0
    ensures RewriteTree(tree, next) == tree
  {
    hide Zeros, RewriteLines, FileCodes;
    if tree == [] {
      return;
    }
    var n := |tree| - 1;
    ZerosConcat(TreeCodes(tree[..n]), FileCodes(tree[n].lines));
    RewriteNothing(tree[..n], next);
  }

  // A second pass changes nothing.
  lemma RenumberedOnce(tree: Tree)
    ensures Renumbered(Renumbered(tree)) == Renumbered(tree)
  {
    hide RewriteTree, TreeCodes, Zeros, NonZero, Distinct, Highest;
    RenumberedDistinct(tree);
    RewriteNothing(Renumbered(tree), Highest(Renumbered(tree)) + 1);
  }
}
