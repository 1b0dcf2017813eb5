/** Class nesting as tracked line by line (cpplint.py, _ClassInfo, _ClassState and
    the class part of CheckForNonStandardConstructs). A line is the record of the
    features the regular expressions recognise in it. */
module ClassTracker {
  import opened Collections

  datatype Line = Line(
    declares: Option<string>,  // the class or struct a declaration at the line's start names
    hasSemicolon: bool,
    opens: nat,                // '{' and '}' once strings and comments are removed
    closes: nat,
    bareColon: bool,
    isVirtual: bool,
    destructs: set<string>,    // the classes whose destructor the line mentions
    rawOpens: nat,             // '{' and '}' once comments alone are removed
    rawCloses: nat)
  {
    function Net(): int { opens - closes }
    function RawNet(): int { rawOpens - rawCloses }
  }

  // The last line with a virtual method, and whether such a line had the destructor.
  datatype Virtuals = Virtuals(methodLine: Option<nat>, destructor: bool)

  datatype ClassInfo = ClassInfo(
    name: string,
    linenum: nat,
    seenOpenBrace: bool,
    isDerived: bool,
    virtuals: Virtuals,
    braceDepth: int,
    lastLine: nat)

  datatype Finding =
    | NeedsVirtualDestructor(linenum: nat, name: string, virtualLine: nat)
    | IncompleteClass(linenum: nat, name: string)

  // The class stack as a value, innermost class first.
  datatype Stack = Bottom | Over(top: ClassInfo, below: Stack)

  function FromSeq(s: seq<ClassInfo>): Stack {
    if s == [] then Bottom else Over(s[|s| - 1], FromSeq(s[..|s| - 1]))
  }

  datatype State = State(stack: Stack, reported: seq<Finding>)

  // ---- Line n of the file, as a function of the state before it ----

  // The lookahead of the ClassInfo constructor: the first line at which the
  // braces counted from the declaration on are even again, and 0 if there is none.
  function LookAhead(lines: seq<Line>, i: nat, depth: int): nat
    requires i <= |lines|
    decreases |lines| - i
  {
    if i == |lines| then 0
    else if depth + lines[i].RawNet() == 0 then i
    else LookAhead(lines, i + 1, depth + lines[i].RawNet())
  }

  function RawSum(lines: seq<Line>, a: nat, b: nat): int
    requires a <= b <= |lines|
    decreases b - a
  {
    if a == b then 0 else lines[a].RawNet() + RawSum(lines, a + 1, b)
  }

  // k is the first line from i on at which the depth is zero again.
  ghost predicate FirstEven(lines: seq<Line>, i: nat, depth: int, k: nat) {
    && i <= k < |lines| && depth + RawSum(lines, i, k + 1) == 0
    && forall j :: i < j <= k ==> depth + RawSum(lines, i, j) != 0
  }

  lemma {:induction false} LookAheadIsFirst(lines: seq<Line>, i: nat, depth: int)
    requires i <= |lines|
    ensures var last := LookAhead(lines, i, depth);
            FirstEven(lines, i, depth, last) ||
            (last == 0 && forall j :: i < j <= |lines| ==> depth + RawSum(lines, i, j) != 0)
    decreases |lines| - i
  {
    if i < |lines| {
      var depth' := depth + lines[i].RawNet();
      var last := LookAhead(lines, i, depth);
      forall j | i < j <= |lines|
        ensures depth + RawSum(lines, i, j) == depth' + RawSum(lines, i + 1, j)
      {
      }
      assert RawSum(lines, i + 1, i + 1) == 0;
      if depth' != 0 {
        LookAheadIsFirst(lines, i + 1, depth');
        assert last == LookAhead(lines, i + 1, depth');
        if FirstEven(lines, i + 1, depth', last) {
          assert FirstEven(lines, i, depth, last);
        } else {
          forall j | i < j <= |lines| ensures depth + RawSum(lines, i, j) != 0 {
            assert depth + RawSum(lines, i, j) == depth' + RawSum(lines, i + 1, j);
          }
        }
      } else {
        assert FirstEven(lines, i, depth, i);
      }
    }
  }

  function Fresh(lines: seq<Line>, n: nat, name: string): ClassInfo
    requires n < |lines|
  {
    ClassInfo(name, n, false, false, Virtuals(None, false), 0, LookAhead(lines, n, 0))
  }

  function Note(v: Virtuals, name: string, line: Line, n: nat): Virtuals {
    if line.isVirtual then Virtuals(Some(n), v.destructor || name in line.destructs) else v
  }

  // What is reported about a class when it is complete.
  function Farewell(info: ClassInfo, v: Virtuals): seq<Finding> {
    if v.methodLine.Some? && !v.destructor && !info.isDerived
    then [NeedsVirtualDestructor(info.linenum, info.name, v.methodLine.value)]
    else []
  }

  function Push(lines: seq<Line>, n: nat, st: State): State
    requires n < |lines|
  {
    if lines[n].declares.Some? then st.(stack := Over(Fresh(lines, n, lines[n].declares.value), st.stack)) else st
  }

  // A line read inside a class whose brace has been seen.
  function InBody(info: ClassInfo, below: Stack, line: Line, n: nat, reported: seq<Finding>): State {
    var v := Note(info.virtuals, info.name, line, n);
    var depth := info.braceDepth + line.Net();
    if depth <= 0 then State(below, reported + Farewell(info, v))
    else State(Over(info.(virtuals := v, braceDepth := depth), below), reported)
  }

  function OnTop(line: Line, n: nat, st: State): State {
    match st.stack
    case Bottom => st
    case Over(info, below) =>
      if info.seenOpenBrace then InBody(info, below, line, n, st.reported)
      else if line.hasSemicolon then st.(stack := below)
      else
        var info' := info.(seenOpenBrace := line.opens > 0, isDerived := info.isDerived || line.bareColon);
        if line.opens == 0 then st.(stack := Over(info', below))
        else InBody(info', below, line, n, st.reported)
  }

  function Step(lines: seq<Line>, n: nat, st: State): State
    requires n < |lines|
  {
    OnTop(lines[n], n, Push(lines, n, st))
  }

  // Lines a to b, in order.
  function Run(lines: seq<Line>, a: nat, b: nat, st: State): State
    requires a <= b <= |lines|
    decreases b - a
  {
    if a == b then st else Run(lines, a + 1, b, Step(lines, a, st))
  }

  function Outermost(s: Stack): ClassInfo
    requires s.Over?
  {
    if s.below.Bottom? then s.top else Outermost(s.below)
  }

  // What is reported about the classes still open at the end of the file.
  function Finish(s: Stack): seq<Finding> {
    if s.Bottom? then [] else [IncompleteClass(Outermost(s).linenum, Outermost(s).name)]
  }

  lemma FromSeqAppend(s: seq<ClassInfo>, info: ClassInfo)
    ensures FromSeq(s + [info]) == Over(info, FromSeq(s))
  {
    assert (s + [info])[..|s|] == s;
  }

  lemma FromSeqEmpty()
    ensures FromSeq([]) == Bottom
  {
  }

  lemma FromSeqTop(s: seq<ClassInfo>)
    requires s != []
    ensures FromSeq(s) == Over(s[|s| - 1], FromSeq(s[..|s| - 1]))
  {
  }

  lemma {:induction false} FromSeqOutermost(s: seq<ClassInfo>)
    requires s != []
    ensures FromSeq(s).Over? && Outermost(FromSeq(s)) == s[0]
  {
    if |s| > 1 {
      FromSeqOutermost(s[..|s| - 1]);
    }
  }

  // ---- The tracker as the linter runs it ----

  method FindLastLine(lines: seq<Line>, linenum: nat) returns (last: nat)
    requires linenum < |lines|
    ensures last == LookAhead(lines, linenum, 0)
    ensures FirstEven(lines, linenum, 0, last) ||
            (last == 0 && forall j :: linenum < j <= |lines| ==> RawSum(lines, linenum, j) != 0)
  {
    LookAheadIsFirst(lines, linenum, 0);
    last := 0;
    var depth, i := 0, linenum;
    while i < |lines|
      invariant linenum <= i <= |lines|
      invariant last == 0
      invariant LookAhead(lines, linenum, 0) == LookAhead(lines, i, depth)
    {
      depth := depth + lines[i].RawNet();
      if depth == 0 {
        last := i;
        break;
      }
      i := i + 1;
    }
  }

  class ClassState {
    var classinfoStack: seq<ClassInfo>
    var reported: seq<Finding>

    function Current(): State
      reads this
    {
      State(FromSeq(classinfoStack), reported)
    }

    constructor ()
      ensures Current() == State(Bottom, [])
    {
      classinfoStack, reported := [], [];
    }

    method CheckLine(lines: seq<Line>, linenum: nat)
      requires linenum < |lines|
      modifies this
      ensures Current() == Step(lines, linenum, old(Current()))
    {
      hide FromSeq, LookAhead;
      var line := lines[linenum];
      if line.declares.Some? {
        var last := FindLastLine(lines, linenum);
        var newborn := ClassInfo(line.declares.value, linenum, false, false, Virtuals(None, false), 0, last);
        FromSeqAppend(classinfoStack, newborn);
        classinfoStack := classinfoStack + [newborn];
      }
      if classinfoStack == [] {
        FromSeqEmpty();
        return;
      }
      FromSeqTop(classinfoStack);
      var below := classinfoStack[..|classinfoStack| - 1];
      var classinfo := classinfoStack[|classinfoStack| - 1];
      if !classinfo.seenOpenBrace {
        if line.hasSemicolon {
          classinfoStack := below;
          return;
        }
        classinfo := classinfo.(seenOpenBrace := line.opens > 0);
        if line.bareColon {
          classinfo := classinfo.(isDerived := true);
        }
        if !classinfo.seenOpenBrace {
          FromSeqAppend(below, classinfo);
          classinfoStack := below + [classinfo];
          return;
        }
      }
      if line.isVirtual {
        var destructor := classinfo.virtuals.destructor || classinfo.name in line.destructs;
        classinfo := classinfo.(virtuals := Virtuals(Some(linenum), destructor));
      }
      var braceDepth := classinfo.braceDepth + line.opens - line.closes;
      if braceDepth <= 0 {
        classinfoStack := below;
        var v := classinfo.virtuals;
        if v.methodLine.Some? && !v.destructor && !classinfo.isDerived {
          reported := reported +
            [NeedsVirtualDestructor(classinfo.linenum, classinfo.name, v.methodLine.value)];
        }
      } else {
        classinfo := classinfo.(braceDepth := braceDepth);
        FromSeqAppend(below, classinfo);
        classinfoStack := below + [classinfo];
      }
    }

    method CheckFinished()
      modifies this
      ensures classinfoStack == old(classinfoStack)
      ensures reported == old(reported) + Finish(FromSeq(classinfoStack))
    {
      if classinfoStack != [] {
        FromSeqOutermost(classinfoStack);
        reported := reported + [IncompleteClass(classinfoStack[0].linenum, classinfoStack[0].name)];
      }
    }
  }

  method ProcessFile(lines: seq<Line>) returns (findings: seq<Finding>)
    ensures var end := Run(lines, 0, |lines|, State(Bottom, []));
            findings == end.reported + Finish(end.stack)
  {
    var state := new ClassState();
    for n := 0 to |lines|
      invariant Run(lines, 0, |lines|, State(Bottom, [])) == Run(lines, n, |lines|, state.Current())
    {
      state.CheckLine(lines, n);
    }
    state.CheckFinished();
    findings := state.reported;
  }
}
