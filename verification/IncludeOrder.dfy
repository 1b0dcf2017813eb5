/** The order of #include lines (cpplint.py, _IncludeState and CheckIncludeLine). */
module IncludeOrder {

  // ---- Names, compared as Python compares strings ----

  predicate Less(a: string, b: string) {
    if a == [] then b != []
    else b != [] && (a[0] < b[0] || (a[0] == b[0] && Less(a[1..], b[1..])))
  }

  lemma {:induction false} LessTransitive(a: string, b: string, c: string)
    requires Less(a, b) && Less(b, c)
    ensures Less(a, c)
  {
    if a != [] && a[0] == b[0] == c[0] {
      LessTransitive(a[1..], b[1..], c[1..]);
    }
  }

  // Exactly one of a < b, b < a and a == b holds.
  lemma {:induction false} LessTotal(a: string, b: string)
    ensures Less(a, b) || Less(b, a) || a == b
    ensures !(Less(a, b) && Less(b, a))
    ensures a == b ==> !Less(a, b)
  {
    if a != [] && b != [] && a[0] == b[0] {
      LessTotal(a[1..], b[1..]);
      assert a == [a[0]] + a[1..] && b == [b[0]] + b[1..];
    }
  }

  predicate FirstDiffer(a: string, b: string, k: nat) {
    k <= |a| && k < |b| && a[..k] == b[..k] && (k == |a| || a[k] < b[k])
  }

  lemma FirstDifferTail(a: string, b: string, k: nat)
    ensures k > 0 && FirstDiffer(a, b, k) ==>
              a != [] && b != [] && a[0] == b[0] && FirstDiffer(a[1..], b[1..], k - 1)
    ensures a != [] && b != [] && a[0] == b[0] && FirstDiffer(a[1..], b[1..], k) ==> FirstDiffer(a, b, k + 1)
  {
    if k > 0 && FirstDiffer(a, b, k) {
      assert a[..k][0] == b[..k][0];
      assert a[1..][..k - 1] == a[..k][1..] && b[1..][..k - 1] == b[..k][1..];
    }
    if a != [] && b != [] && a[0] == b[0] && FirstDiffer(a[1..], b[1..], k) {
      assert a[..k + 1] == [a[0]] + a[1..][..k] && b[..k + 1] == [b[0]] + b[1..][..k];
    }
  }

  // a comes before b if it is a proper beginning of b, or smaller where they first differ.
  lemma {:induction false} LessIff(a: string, b: string)
    ensures Less(a, b) <==> exists k: nat :: FirstDiffer(a, b, k)
  {
    forall k: nat
      ensures k > 0 && FirstDiffer(a, b, k) ==>
                a != [] && b != [] && a[0] == b[0] && FirstDiffer(a[1..], b[1..], k - 1)
      ensures a != [] && b != [] && a[0] == b[0] && FirstDiffer(a[1..], b[1..], k) ==> FirstDiffer(a, b, k + 1)
    {
      FirstDifferTail(a, b, k);
    }
    assert FirstDiffer(a, b, 0) <==> b != [] && (a == [] || a[0] < b[0]);
    if a != [] && b != [] && a[0] == b[0] {
      LessIff(a[1..], b[1..]);
      if Less(a, b) {
        var k: nat :| FirstDiffer(a[1..], b[1..], k);
        assert FirstDiffer(a, b, k + 1);
      }
      if k: nat :| FirstDiffer(a, b, k) {
        assert FirstDiffer(a[1..], b[1..], k - 1);
      }
    }
  }

  function Lower(c: char): char {
    if 'A' <= c <= 'Z' then c - 'A' + 'a' else c
  }

  predicate InlAt(s: string, i: nat) {
    i + 6 <= |s| && s[i..i + 6] == "-inl.h"
  }

  function DropInl(s: string): string {
    if InlAt(s, 0) then ".h" + DropInl(s[6..])
    else if s == [] then []
    else [s[0]] + DropInl(s[1..])
  }

  function Fold(s: string): string {
    if s == [] then [] else [Lower(if s[0] == '-' then '_' else s[0])] + Fold(s[1..])
  }

  function Canonical(path: string): string {
    Fold(DropInl(path))
  }

  predicate IsFolded(s: string) {
    forall i :: 0 <= i < |s| ==> s[i] != '-' && !('A' <= s[i] <= 'Z')
  }

  lemma {:induction false} FoldFolds(s: string)
    ensures IsFolded(Fold(s)) && |Fold(s)| == |s|
  {
    if s != [] {
      FoldFolds(s[1..]);
    }
  }

  lemma {:induction false} FoldedUnchanged(s: string)
    requires IsFolded(s)
    ensures Fold(s) == s && DropInl(s) == s
  {
    if s != [] {
      FoldedUnchanged(s[1..]);
      assert s == [s[0]] + s[1..];
    }
  }

  // A canonical name has no hyphen and no capital, and is its own canonical name.
  lemma CanonicalIdempotent(path: string)
    ensures IsFolded(Canonical(path)) && Canonical(Canonical(path)) == Canonical(path)
  {
    FoldFolds(DropInl(path));
    FoldedUnchanged(Canonical(path));
  }

  ghost predicate HasInl(s: string) {
    exists i: nat :: InlAt(s, i)
  }

  lemma InlInTail(s: string, i: nat)
    requires s != []
    ensures InlAt(s[1..], i) <==> InlAt(s, i + 1)
  {
    assert i + 7 <= |s| ==> s[1..][i..i + 6] == s[i + 1..i + 7];
  }

  lemma InlInFront(s: string, t: string, i: nat)
    ensures InlAt(s, i) ==> InlAt(s + t, i)
  {
    assert i + 6 <= |s| ==> (s + t)[i..i + 6] == s[i..i + 6];
  }

  // None starts in a and ends after it.
  lemma NoneAcross(a: string, b: string)
    requires a != []
    ensures InlAt(a + "-inl.h" + b, 0) <==> InlAt(a, 0)
  {
    var s := a + "-inl.h" + b;
    if |a| >= 6 {
      assert s[0..6] == a[0..6];
    } else {
      assert s[0..6][|a|] == '-';
      assert "-inl.h"[|a|] != '-';
    }
  }

  lemma DropInlStep(s: string)
    ensures s == [] ==> DropInl(s) == [] && Canonical(s) == []
    ensures InlAt(s, 0) ==> |s| >= 6 && DropInl(s) == ".h" + DropInl(s[6..])
    ensures s != [] && !InlAt(s, 0) ==> DropInl(s) == [s[0]] + DropInl(s[1..])
  {
  }

  lemma {:induction false} DropInlAt(a: string, b: string)
    ensures DropInl(a + "-inl.h" + b) == DropInl(a) + ".h" + DropInl(b)
    decreases |a|
  {
    hide DropInl, InlAt;
    var s := a + "-inl.h" + b;
    DropInlStep(a);
    DropInlStep(s);
    if a == [] {
      InlFirst(b);
      assert s == "-inl.h" + b && s[6..] == b;
    } else {
      NoneAcross(a, b);
      if InlAt(a, 0) {
        assert s[6..] == a[6..] + "-inl.h" + b;
        DropInlAt(a[6..], b);
      } else {
        assert s[1..] == a[1..] + "-inl.h" + b && s[0] == a[0];
        DropInlAt(a[1..], b);
      }
    }
  }

  lemma InlFirst(b: string)
    ensures InlAt("-inl.h" + b, 0)
  {
    assert ("-inl.h" + b)[0..6] == "-inl.h";
  }

  lemma {:induction false} FoldConcat(a: string, b: string)
    ensures Fold(a + b) == Fold(a) + Fold(b)
  {
    if a == [] {
      assert a + b == b;
    } else {
      assert (a + b)[1..] == a[1..] + b;
      FoldConcat(a[1..], b);
    }
  }

  // Each "-inl.h" counts as ".h".
  lemma CanonicalInl(a: string, b: string)
    ensures Canonical(a + "-inl.h" + b) == Canonical(a) + ".h" + Canonical(b)
  {
    DropInlAt(a, b);
    FoldConcat(DropInl(a) + ".h", DropInl(b));
    FoldConcat(DropInl(a), ".h");
    assert Fold(".h") == ".h" by {
      assert ".h"[1..] == "h" && "h"[1..] == "";
    }
    hide DropInl, Fold;
  }

  lemma {:induction false} NoInlUnchanged(s: string)
    requires !HasInl(s)
    ensures DropInl(s) == s
  {
    hide InlAt;
    if s != [] {
      forall i: nat ensures InlAt(s[1..], i) <==> InlAt(s, i + 1) {
        InlInTail(s, i);
      }
      NoInlUnchanged(s[1..]);
      assert s == [s[0]] + s[1..];
    }
  }

  lemma {:induction false} FoldAt(s: string, i: nat)
    requires i < |s|
    ensures |Fold(s)| == |s|
    ensures Fold(s)[i] == if s[i] == '-' then '_' else if 'A' <= s[i] <= 'Z' then s[i] - 'A' + 'a' else s[i]
  {
    FoldFolds(s);
    if i > 0 {
      FoldAt(s[1..], i - 1);
    }
  }

  // Elsewhere a hyphen counts as an underscore and a capital as its small letter.
  lemma CanonicalAt(path: string, i: nat)
    requires !HasInl(path) && i < |path|
    ensures |Canonical(path)| == |path|
    ensures Canonical(path)[i] ==
            if path[i] == '-' then '_' else if 'A' <= path[i] <= 'Z' then path[i] - 'A' + 'a' else path[i]
  {
    NoInlUnchanged(path);
    FoldAt(path, i);
  }

  // So x-inl.h and x.h have the same name.
  lemma InlNameIsPlainName(x: string)
    requires !HasInl(x + ".h")
    ensures Canonical(x + "-inl.h") == Canonical(x + ".h")
  {
    hide InlAt;
    forall i: nat ensures InlAt(x, i) ==> InlAt(x + ".h", i) {
      InlInFront(x, ".h", i);
    }
    CanonicalInl(x, "");
    DropInlStep("");
    assert x + "-inl.h" + "" == x + "-inl.h";
    NoInlUnchanged(x + ".h");
    NoInlUnchanged(x);
    FoldConcat(x, ".h");
    assert Fold(".h") == ".h" by {
      assert ".h"[1..] == "h" && "h"[1..] == "";
    }
  }

  // ---- Sections ----

  datatype Kind = CSystem | CppSystem | LikelyOwn | PossibleOwn | Other

  datatype Include = Include(path: string, kind: Kind)

  const C_SECTION: nat := 2
  const CPP_SECTION: nat := 3
  const MY_H_SECTION: nat := 1
  const OTHER_H_SECTION: nat := 4

  datatype Verdict = Verdict(outOfOrder: bool, notAlphabetical: bool)

  datatype State = State(section: nat, lastHeader: string)

  const INITIAL := State(0, "")

  predicate Own(kind: Kind) {
    kind.LikelyOwn? || kind.PossibleOwn?
  }

  // What CheckNextIncludeOrder does, as a function of the state.
  function Move(st: State, kind: Kind): (State, bool) {
    var section := st.section;
    if (kind.CSystem? && section > C_SECTION) || (kind.CppSystem? && section > CPP_SECTION) then
      (State(section, ""), true)
    else
      var section' := match kind
        case CSystem => C_SECTION
        case CppSystem => CPP_SECTION
        case Other => OTHER_H_SECTION
        case _ => if section <= MY_H_SECTION then MY_H_SECTION else OTHER_H_SECTION;
      (State(section', if section == section' then st.lastHeader else ""), false)
  }

  // A header seen for the first time: the section check, then the alphabetical one.
  function Step(st: State, h: Include): (State, Verdict) {
    var (st1, wrong) := Move(st, h.kind);
    var name := Canonical(h.path);
    if Less(name, st1.lastHeader) then (st1, Verdict(wrong, true))
    else (st1.(lastHeader := name), Verdict(wrong, false))
  }

  function Run(history: seq<Include>): State {
    if history == [] then INITIAL else Step(Run(history[..|history| - 1]), history[|history| - 1]).0
  }

  function VerdictAt(history: seq<Include>, i: nat): Verdict
    requires i < |history|
  {
    Step(Run(history[..i]), history[i]).1
  }

  // ---- The section order, declaratively ----

  predicate OnlyOwn(history: seq<Include>) {
    forall i :: 0 <= i < |history| ==> Own(history[i].kind)
  }

  // An own header counts as such only as long as nothing else came first.
  function Rank(before: seq<Include>, kind: Kind): nat {
    match kind
    case CSystem => 2
    case CppSystem => 3
    case Other => 4
    case _ => if OnlyOwn(before) then 1 else 4
  }

  function MaxRank(history: seq<Include>): nat {
    if history == [] then 0
    else
      var n := |history| - 1;
      var m, r := MaxRank(history[..n]), Rank(history[..n], history[n].kind);
      if m < r then r else m
  }

  lemma {:induction false} OwnRank(history: seq<Include>)
    ensures OnlyOwn(history) <==> MaxRank(history) <= 1
    ensures MaxRank(history) == 0 <==> history == []
    ensures MaxRank(history) <= 4
  {
    if history != [] {
      OwnRank(history[..|history| - 1]);
    }
  }

  // The section is the greatest rank met.
  lemma {:induction false} SectionIsMaxRank(history: seq<Include>)
    ensures Run(history).section == MaxRank(history)
  {
    if history != [] {
      SectionIsMaxRank(history[..|history| - 1]);
      OwnRank(history[..|history| - 1]);
    }
  }

  // The header is of lower rank than one before it.
  predicate Late(history: seq<Include>, i: nat)
    requires i < |history|
  {
    Rank(history[..i], history[i].kind) < MaxRank(history[..i])
  }

  // An order error falls exactly on a late header, which is then a system header.
  lemma OrderErrorIff(history: seq<Include>, i: nat)
    requires i < |history|
    ensures VerdictAt(history, i).outOfOrder <==> Late(history, i)
    ensures Late(history, i) ==> history[i].kind.CSystem? || history[i].kind.CppSystem?
  {
    SectionIsMaxRank(history[..i]);
    OwnRank(history[..i]);
  }

  lemma LatePrefix(history: seq<Include>, n: nat, i: nat)
    requires i < n <= |history|
    ensures Late(history[..n], i) <==> Late(history, i)
  {
    assert history[..n][..i] == history[..i];
  }

  lemma {:induction false} MaxRankGrows(history: seq<Include>, i: nat, j: nat)
    requires i <= j <= |history|
    ensures MaxRank(history[..i]) <= MaxRank(history[..j])
    decreases j
  {
    if i < j {
      MaxRankGrows(history, i, j - 1);
      assert history[..j][..j - 1] == history[..j - 1];
    }
  }

  // The section never moves backwards.
  lemma SectionGrows(history: seq<Include>, i: nat, j: nat)
    requires i <= j <= |history|
    ensures Run(history[..i]).section <= Run(history[..j]).section
  {
    MaxRankGrows(history, i, j);
    SectionIsMaxRank(history[..i]);
    SectionIsMaxRank(history[..j]);
    hide Run, MaxRank;
  }

  // ---- Runs without an order error ----

  // How far a header may be along own*, C*, C++*, (own or other)*.
  predicate Stage(kind: Kind, stage: nat) {
    match stage
    case 1 => Own(kind)
    case 2 => kind.CSystem?
    case 3 => kind.CppSystem?
    case _ => Own(kind) || kind.Other?
  }

  ghost predicate Splits(history: seq<Include>) {
    exists a: nat, b: nat, c: nat :: a <= b <= c <= |history| && SplitsAt(history, a, b, c)
  }

  predicate SplitsAt(history: seq<Include>, a: nat, b: nat, c: nat)
    requires a <= b <= c <= |history|
  {
    && (forall i :: 0 <= i < a ==> Stage(history[i].kind, 1))
    && (forall i :: a <= i < b ==> Stage(history[i].kind, 2))
    && (forall i :: b <= i < c ==> Stage(history[i].kind, 3))
    && (forall i :: c <= i < |history| ==> Stage(history[i].kind, 4))
  }

  ghost predicate NoneLate(history: seq<Include>) {
    forall i :: 0 <= i < |history| ==> !Late(history, i)
  }

  lemma NoneLatePrefix(history: seq<Include>)
    requires history != []
    ensures NoneLate(history) <==> NoneLate(history[..|history| - 1]) && !Late(history, |history| - 1)
  {
    var n := |history| - 1;
    forall i | 0 <= i < n ensures Late(history[..n], i) <==> Late(history, i) {
      LatePrefix(history, n, i);
    }
    hide Late;
  }

  // A split into stages, with none after stage m.
  predicate SplitsTo(history: seq<Include>, a: nat, b: nat, c: nat, m: nat) {
    && a <= b <= c <= |history| && SplitsAt(history, a, b, c)
    && (m <= 1 ==> a == |history|) && (m <= 2 ==> b == |history|) && (m <= 3 ==> c == |history|)
  }

  lemma ExtendSplit(history: seq<Include>, a: nat, b: nat, c: nat, m: nat, h: Include, r: nat)
    returns (a': nat, b': nat, c': nat)
    requires SplitsTo(history, a, b, c, m) && m <= r && 1 <= r <= 4 && Stage(h.kind, r)
    ensures SplitsTo(history + [h], a', b', c', r)
  {
    var n := |history| + 1;
    a', b', c' := if r == 1 then n else a, if r <= 2 then n else b, if r <= 3 then n else c;
  }

  // An orderly history splits by its greatest rank.
  lemma {:induction false} NoneLateSplits(history: seq<Include>) returns (a: nat, b: nat, c: nat)
    requires NoneLate(history)
    ensures SplitsTo(history, a, b, c, MaxRank(history))
  {
    if history == [] {
      return 0, 0, 0;
    }
    var n := |history| - 1;
    NoneLatePrefix(history);
    a, b, c := NoneLateSplits(history[..n]);
    OwnRank(history[..n]);
    var r := Rank(history[..n], history[n].kind);
    a, b, c := ExtendSplit(history[..n], a, b, c, MaxRank(history[..n]), history[n], r);
    assert history == history[..n] + [history[n]];
    hide NoneLate, OnlyOwn, SplitsTo;
  }

  lemma {:induction false} SplitsNoneLate(history: seq<Include>, a: nat, b: nat, c: nat)
    requires a <= b <= c <= |history| && SplitsAt(history, a, b, c)
    ensures NoneLate(history)
    ensures MaxRank(history) <=
            if |history| <= a then 1 else if |history| <= b then 2 else if |history| <= c then 3 else 4
  {
    if history != [] {
      var n := |history| - 1;
      SplitsNoneLate(history[..n], if a <= n then a else n, if b <= n then b else n, if c <= n then c else n);
      NoneLatePrefix(history);
      OwnRank(history[..n]);
      hide NoneLate, OnlyOwn;
    }
  }

  // A run has no order error exactly when it reads own*, C*, C++*, (own or other)*.
  lemma InOrderIff(history: seq<Include>)
    ensures (forall i :: 0 <= i < |history| ==> !VerdictAt(history, i).outOfOrder) <==> Splits(history)
  {
    forall i | 0 <= i < |history| ensures VerdictAt(history, i).outOfOrder <==> Late(history, i) {
      OrderErrorIff(history, i);
    }
    if NoneLate(history) {
      var a, b, c := NoneLateSplits(history);
    }
    if Splits(history) {
      var a: nat, b: nat, c: nat :| a <= b <= c <= |history| && SplitsAt(history, a, b, c);
      SplitsNoneLate(history, a, b, c);
    }
    hide VerdictAt, Late, SplitsAt;
  }

  // ---- The alphabetical check ----

  // A new block starts at i: the section changed, or the header was out of order.
  predicate StartsBlock(history: seq<Include>, i: nat)
    requires i < |history|
  {
    Late(history, i) || MaxRank(history[..i + 1]) != MaxRank(history[..i])
  }

  function NameAt(history: seq<Include>, i: nat): string
    requires i < |history|
  {
    Canonical(history[i].path)
  }

  predicate SameBlock(history: seq<Include>, e: nat, i: nat)
    requires e <= i < |history|
  {
    forall j :: e < j <= i ==> !StartsBlock(history, j)
  }

  // The start of the block that i belongs to.
  function BlockStart(history: seq<Include>, i: nat): nat
    requires i < |history|
  {
    if i == 0 || StartsBlock(history, i) then i else BlockStart(history, i - 1)
  }

  lemma StepReset(history: seq<Include>, i: nat)
    requires i < |history|
    ensures var st := Run(history[..i]);
            Move(st, history[i].kind).0.lastHeader == if StartsBlock(history, i) then "" else st.lastHeader
    ensures Run(history[..i + 1]) == Step(Run(history[..i]), history[i]).0
  {
    assert history[..i + 1][..i] == history[..i];
    SectionIsMaxRank(history[..i]);
    SectionIsMaxRank(history[..i + 1]);
    OrderErrorIff(history, i);
    hide MaxRank, Late, Canonical, Run;
  }

  // name is one of the names of i's block up to i, and none of them is greater.
  ghost predicate GreatestOfBlock(history: seq<Include>, i: nat, name: string)
    requires i < |history|
  {
    && (exists e :: BlockStart(history, i) <= e <= i && NameAt(history, e) == name)
    && (forall e :: BlockStart(history, i) <= e <= i ==> !Less(name, NameAt(history, e)))
  }

  function LastHeader(history: seq<Include>, i: nat): string
    requires i < |history|
  {
    Run(history[..i + 1]).lastHeader
  }

  // The header that i is compared with.
  function Rival(history: seq<Include>, i: nat): string
    requires i < |history|
  {
    if i == 0 || StartsBlock(history, i) then "" else LastHeader(history, i - 1)
  }

  lemma Compared(history: seq<Include>, i: nat)
    requires i < |history|
    ensures VerdictAt(history, i).notAlphabetical <==> Less(NameAt(history, i), Rival(history, i))
    ensures LastHeader(history, i) ==
            if Less(NameAt(history, i), Rival(history, i)) then Rival(history, i) else NameAt(history, i)
  {
    StepReset(history, i);
    assert i == 0 ==> history[..i] == [];
    hide Late, MaxRank, Canonical, Less;
  }

  lemma {:induction false} BlockStartBelow(history: seq<Include>, i: nat)
    requires i < |history|
    ensures BlockStart(history, i) <= i
  {
    hide StartsBlock;
    if i > 0 {
      BlockStartBelow(history, i - 1);
    }
  }

  // The last header is always the running maximum of the current block.
  lemma {:induction false} LastHeaderIsGreatest(history: seq<Include>, i: nat)
    requires i < |history|
    ensures GreatestOfBlock(history, i, LastHeader(history, i))
  {
    hide Less, LastHeader, NameAt, StartsBlock;
    Compared(history, i);
    BlockStartBelow(history, i);
    var name := NameAt(history, i);
    LessTotal(name, name);
    NotBelowEmpty(name);
    if i > 0 && !StartsBlock(history, i) {
      LastHeaderIsGreatest(history, i - 1);
      var prev := LastHeader(history, i - 1);
      LessTotal(name, prev);
      forall e | BlockStart(history, i) <= e < i && !Less(name, prev) ensures !Less(name, NameAt(history, e)) {
        NotGreater(name, NameAt(history, e), prev);
      }
    }
  }

  lemma NotBelowEmpty(a: string)
    ensures !Less(a, "")
  {
  }

  // If x < e and e is not greater than prev, then x < prev.
  lemma NotGreater(x: string, e: string, prev: string)
    requires !Less(prev, e)
    ensures Less(x, e) ==> Less(x, prev)
  {
    LessTotal(prev, e);
    if Less(x, e) && Less(e, prev) {
      LessTransitive(x, e, prev);
    }
  }

  lemma {:induction false} SameBlockIff(history: seq<Include>, e: nat, i: nat)
    requires e <= i < |history|
    ensures SameBlock(history, e, i) <==> BlockStart(history, i) <= e
    decreases i
  {
    hide StartsBlock;
    BlockStartBelow(history, i);
    if e < i {
      SameBlockIff(history, e, i - 1);
    }
  }

  // A header is flagged exactly when an earlier one of its block has a greater name.
  lemma AlphabeticalIff(history: seq<Include>, i: nat)
    requires i < |history|
    ensures VerdictAt(history, i).notAlphabetical <==>
            exists e: nat :: e < i && SameBlock(history, e, i) && Less(NameAt(history, i), NameAt(history, e))
  {
    hide Less, LastHeader, NameAt, StartsBlock, SameBlock, VerdictAt;
    var name := NameAt(history, i);
    Compared(history, i);
    NotBelowEmpty(name);
    BlockStartBelow(history, i);
    forall e: nat | e < i ensures SameBlock(history, e, i) <==> BlockStart(history, i) <= e {
      SameBlockIff(history, e, i);
    }
    if i > 0 && !StartsBlock(history, i) {
      LastHeaderIsGreatest(history, i - 1);
      var prev := LastHeader(history, i - 1);
      forall e: nat | e < i && SameBlock(history, e, i) && Less(name, NameAt(history, e)) ensures Less(name, prev) {
        NotGreater(name, NameAt(history, e), prev);
      }
    }
  }

  // Of x-inl.h and x.h neither is flagged on account of the other, in either order.
  lemma InlNotFlagged(x: string, kind: Kind, first: bool)
    requires !HasInl(x + ".h")
    ensures var inl, plain := Include(x + "-inl.h", kind), Include(x + ".h", kind);
            !VerdictAt(if first then [inl, plain] else [plain, inl], 1).notAlphabetical
  {
    hide VerdictAt, Canonical, Less, HasInl, Late, MaxRank;
    var inl, plain := Include(x + "-inl.h", kind), Include(x + ".h", kind);
    var history := if first then [inl, plain] else [plain, inl];
    InlNameIsPlainName(x);
    LessTotal(Canonical(x + ".h"), Canonical(x + ".h"));
    AlphabeticalIff(history, 1);
  }

  // ---- The check as the linter runs it ----

  ghost function Paths(history: seq<Include>): set<string> {
    set i | 0 <= i < |history| :: history[i].path
  }

  lemma PathsSnoc(history: seq<Include>, h: Include)
    ensures Paths(history + [h]) == Paths(history) + {h.path}
    ensures h.path !in Paths(history) ==> forall i :: 0 <= i < |history| ==> history[i].path != h.path
  {
    forall p | p in Paths(history) + {h.path} ensures p in Paths(history + [h]) {
      if p == h.path {
        assert (history + [h])[|history|].path == p;
      } else {
        var i :| 0 <= i < |history| && history[i].path == p;
        assert (history + [h])[i].path == p;
      }
    }
  }

  lemma RunSnoc(history: seq<Include>, h: Include)
    ensures Run(history + [h]) == Step(Run(history), h).0
    ensures VerdictAt(history + [h], |history|) == Step(Run(history), h).1
  {
    assert (history + [h])[..|history|] == history;
    hide Step;
  }

  datatype Report = AlreadyIncluded(linenum: nat) | FirstTime(verdict: Verdict)

  class IncludeState {
    var included: map<string, nat>
    var section: nat
    var lastHeader: string
    ghost var history: seq<Include>   // the headers included for the first time

    ghost predicate Valid()
      reads this
    {
      && State(section, lastHeader) == Run(history) && included.Keys == Paths(history)
      && (forall i, j :: 0 <= i < j < |history| ==> history[i].path != history[j].path)
    }

    constructor ()
      ensures Valid() && history == []
    {
      included, section, lastHeader, history := map[], 0, "", [];
    }

    method CheckNextIncludeOrder(kind: Kind) returns (wrong: bool)
      modifies this`section, this`lastHeader
      ensures (State(section, lastHeader), wrong) == Move(old(State(section, lastHeader)), kind)
    {
      var lastSection := section;
      if kind.CSystem? {
        if section <= C_SECTION {
          section := C_SECTION;
        } else {
          lastHeader := "";
          return true;
        }
      } else if kind.CppSystem? {
        if section <= CPP_SECTION {
          section := CPP_SECTION;
        } else {
          lastHeader := "";
          return true;
        }
      } else if kind.LikelyOwn? || kind.PossibleOwn? {
        if section <= MY_H_SECTION {
          section := MY_H_SECTION;
        } else {
          section := OTHER_H_SECTION;
        }
      } else {
        section := OTHER_H_SECTION;
      }
      if lastSection != section {
        lastHeader := "";
      }
      wrong := false;
    }

    method IsInAlphabeticalOrder(path: string) returns (ok: bool)
      modifies this`lastHeader
      ensures ok <==> !Less(Canonical(path), old(lastHeader))
      ensures lastHeader == if ok then Canonical(path) else old(lastHeader)
    {
      var canonical := Canonical(path);
      if Less(canonical, lastHeader) {
        return false;
      }
      lastHeader := canonical;
      ok := true;
    }

    method CheckInclude(h: Include, linenum: nat) returns (report: Report)
      requires Valid()
      modifies this
      ensures Valid()
      ensures h.path in old(included) ==>
                report == AlreadyIncluded(old(included)[h.path]) && history == old(history) && included == old(included)
      ensures h.path !in old(included) ==>
                && history == old(history) + [h] && included == old(included)[h.path := linenum]
                && report == FirstTime(VerdictAt(history, |old(history)|))
    {
      hide Canonical, Less, Run, VerdictAt, Paths;
      if h.path in included {
        return AlreadyIncluded(included[h.path]);
      }
      included := included[h.path := linenum];
      var wrong := CheckNextIncludeOrder(h.kind);
      var ok := IsInAlphabeticalOrder(h.path);
      RunSnoc(history, h);
      PathsSnoc(history, h);
      history := history + [h];
      report := FirstTime(Verdict(wrong, !ok));
    }
  }
}
