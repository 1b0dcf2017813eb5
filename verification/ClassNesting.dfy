/** What the class tracker does on well-nested text. */
module ClassNesting {
  import opened ClassTracker
  import opened Collections

  // ---- Well-nested regions: the shape of a stretch of lines ----

  datatype Region =
    | Done(at: nat)
    | Simple(at: nat, last: nat, rest: Region)                // lines at..last, braces even in each
    | Block(at: nat, open: nat, inner: Region, rest: Region)  // lines at..open, a body, a closing line

  function End(r: Region): nat {
    match r
    case Done(at) => at
    case Simple(_, _, rest) => End(rest)
    case Block(_, _, _, rest) => End(rest)
  }

  // One line that declares nothing, a declaration without a body, or a class that
  // is closed on the line of its brace.
  predicate IsSimple(lines: seq<Line>, at: nat, last: nat) {
    && IsLevel(lines, at, last)
    && if lines[at].declares.Some? then IsDeclaration(lines, at, last) || IsHeader(lines, at, last) else at == last
  }

  predicate IsLevel(lines: seq<Line>, at: nat, last: nat) {
    at <= last < |lines| && forall i :: at <= i <= last ==> lines[i].Net() == 0
  }

  // A semicolon in the last of the lines alone, no brace opened before it, and
  // no other declaration.
  predicate IsDeclaration(lines: seq<Line>, n: nat, last: nat)
    decreases last - n
  {
    && n <= last < |lines|
    && if n == last then lines[n].hasSemicolon
       else
         && !lines[n].hasSemicolon && lines[n].opens == 0
         && lines[n + 1].declares.None? && IsDeclaration(lines, n + 1, last)
  }

  // Lines at..open start a block: a class header, or one line of other text.
  predicate Starts(lines: seq<Line>, at: nat, open: nat) {
    && at <= open < |lines| && lines[open].Net() > 0
    && if lines[at].declares.Some? then IsHeader(lines, at, open) else at == open
  }

  // No semicolon in any of the lines, and the first brace on the last of them.
  predicate IsHeader(lines: seq<Line>, n: nat, open: nat)
    decreases open - n
  {
    && n <= open < |lines| && !lines[n].hasSemicolon
    && if n == open then lines[n].opens > 0
       else lines[n].opens == lines[n].closes == 0 && lines[n + 1].declares.None? && IsHeader(lines, n + 1, open)
  }

  predicate Closes(lines: seq<Line>, open: nat, m: nat) {
    open < m < |lines| && lines[m].declares.None? && lines[m].Net() == -lines[open].Net()
  }

  // The line closes the block, and perhaps more than that.
  predicate Pops(lines: seq<Line>, open: nat, m: nat) {
    open < m < |lines| && lines[m].declares.None? && lines[m].Net() <= -lines[open].Net()
  }

  predicate WellNested(lines: seq<Line>, r: Region) {
    match r
    case Done(at) => at <= |lines|
    case Simple(at, last, rest) =>
      IsSimple(lines, at, last) && rest.at == last + 1 && WellNested(lines, rest)
    case Block(at, open, inner, rest) =>
      && Starts(lines, at, open) && inner.at == open + 1 && WellNested(lines, inner)
      && Closes(lines, open, End(inner)) && rest.at == End(inner) + 1 && WellNested(lines, rest)
  }

  lemma RegionBounds(lines: seq<Line>, r: Region)
    requires WellNested(lines, r)
    ensures r.at <= End(r) <= |lines|
  {
  }

  // ---- What a region means ----

  // What is known of the virtual methods of the class around the region, and all
  // that has been reported.
  datatype Effect = Effect(virtuals: Virtuals, reported: seq<Finding>)

  function NoteLine(lines: seq<Line>, n: nat, name: string, e: Effect): Effect
    requires n < |lines|
  {
    e.(virtuals := Note(e.virtuals, name, lines[n], n))
  }

  predicate AnyBareColon(lines: seq<Line>, n: nat, open: nat)
    requires n <= open < |lines|
    decreases open - n
  {
    lines[n].bareColon || (n < open && AnyBareColon(lines, n + 1, open))
  }

  // The class a header declares, when the brace is found.
  function Begun(lines: seq<Line>, at: nat, open: nat): ClassInfo
    requires at <= open < |lines| && lines[at].declares.Some?
  {
    Fresh(lines, at, lines[at].declares.value).(seenOpenBrace := true, isDerived := AnyBareColon(lines, at, open))
  }

  // Only the lines that lie in the class itself are noted, not those of nested
  // classes; each class completed in the region is reported on at its end.
  function Meaning(lines: seq<Line>, r: Region, name: string, e: Effect): Effect
    requires WellNested(lines, r)
    decreases r, 0
  {
    match r
    case Done(_) => e
    case Simple(at, last, rest) => Meaning(lines, rest, name, SimpleMeaning(lines, at, last, name, e))
    case Block(at, open, inner, rest) => Meaning(lines, rest, name, BlockMeaning(lines, at, open, inner, name, e))
  }

  // A declaration without a body means nothing; a class closed at once is judged
  // by the line of its brace.
  function SimpleMeaning(lines: seq<Line>, at: nat, last: nat, name: string, e: Effect): Effect
    requires at <= last < |lines|
  {
    if lines[at].declares.None? then NoteLine(lines, at, name, e)
    else if lines[last].hasSemicolon then e
    else e.(reported := e.reported + AtOnce(lines, at, last))
  }

  // What is reported about a class that is closed on the line of its brace.
  function AtOnce(lines: seq<Line>, at: nat, open: nat): seq<Finding>
    requires at <= open < |lines| && lines[at].declares.Some?
  {
    var info := Begun(lines, at, open);
    Farewell(info, Note(info.virtuals, info.name, lines[open], open))
  }

  function BlockMeaning(lines: seq<Line>, at: nat, open: nat, inner: Region, name: string, e: Effect): Effect
    requires at <= open < |lines| && WellNested(lines, inner) && End(inner) < |lines|
    decreases inner, 2
  {
    if lines[at].declares.Some? then
      var info := Begun(lines, at, open);
      var e' := BodyMeaning(lines, open, inner, info.name, Effect(info.virtuals, e.reported));
      e.(reported := e'.reported + Farewell(info, e'.virtuals))
    else BodyMeaning(lines, open, inner, name, e)
  }

  // A body with the line that opens it and the line that closes it.
  function BodyMeaning(lines: seq<Line>, open: nat, inner: Region, name: string, e: Effect): Effect
    requires open < |lines| && WellNested(lines, inner) && End(inner) < |lines|
    decreases inner, 1
  {
    NoteLine(lines, End(inner), name, Meaning(lines, inner, name, NoteLine(lines, open, name, e)))
  }

  // ---- Frame theorem ----

  predicate InsideOrOutside(s: Stack) {
    s.Over? ==> s.top.seenOpenBrace && s.top.braceDepth >= 1
  }

  // name is that of the innermost class, if there is one.
  predicate Innermost(s: Stack, name: string) {
    s.Over? ==> s.top.name == name
  }

  function Apply(s: Stack, e: Effect): State {
    State(if s.Bottom? then Bottom else Over(s.top.(virtuals := e.virtuals), s.below), e.reported)
  }

  lemma {:induction false} RunSplit(lines: seq<Line>, a: nat, b: nat, c: nat, st: State)
    requires a <= b <= c <= |lines|
    ensures Run(lines, a, c, st) == Run(lines, b, c, Run(lines, a, b, st))
    decreases b - a
  {
    if a < b {
      RunSplit(lines, a + 1, b, c, Step(lines, a, st));
    }
  }

  lemma RunNone(lines: seq<Line>, a: nat, st: State)
    requires a <= |lines|
    ensures Run(lines, a, a, st) == st
  {
  }

  lemma RunOne(lines: seq<Line>, a: nat, st: State)
    requires a < |lines|
    ensures Run(lines, a, a + 1, st) == Step(lines, a, st)
  {
  }

  // The lines of a header, once the class they declare is pending on the stack.
  lemma {:induction false} RunPending(lines: seq<Line>, n: nat, open: nat, info: ClassInfo, below: Stack,
                                      reported: seq<Finding>)
    requires IsHeader(lines, n, open) && lines[n].declares.None? && !info.seenOpenBrace
    ensures var info' := info.(seenOpenBrace := true, isDerived := info.isDerived || AnyBareColon(lines, n, open));
            Run(lines, n, open + 1, State(Over(info, below), reported)) ==
            InBody(info', below, lines[open], open, reported)
    decreases open - n
  {
    if n < open {
      RunPending(lines, n + 1, open, info.(isDerived := info.isDerived || lines[n].bareColon), below, reported);
    }
  }

  // The lines up to the brace, whatever the stack holds.
  lemma RunToBrace(lines: seq<Line>, at: nat, open: nat, st: State)
    requires IsHeader(lines, at, open) && lines[at].declares.Some?
    ensures Run(lines, at, open + 1, st) == InBody(Begun(lines, at, open), st.stack, lines[open], open, st.reported)
  {
    var newborn := Fresh(lines, at, lines[at].declares.value);
    if at == open {
      RunOne(lines, at, st);
    } else {
      RunPending(lines, at + 1, open, newborn.(isDerived := lines[at].bareColon), st.stack, st.reported);
    }
  }

  // After its header, the class is on the stack with the depth its brace gives it.
  lemma RunHeader(lines: seq<Line>, at: nat, open: nat, st: State)
    requires Starts(lines, at, open) && lines[at].declares.Some?
    ensures var info := Begun(lines, at, open);
            Run(lines, at, open + 1, st) ==
            State(Over(info.(virtuals := Note(info.virtuals, info.name, lines[open], open),
                             braceDepth := lines[open].Net()), st.stack), st.reported)
  {
    RunToBrace(lines, at, open, st);
  }

  // A class whose braces are closed on the line of the first leaves no trace but its report.
  lemma ClosedAtOnce(lines: seq<Line>, at: nat, open: nat, st: State)
    requires IsHeader(lines, at, open) && lines[at].declares.Some? && lines[open].Net() <= 0
    ensures Run(lines, at, open + 1, st) == State(st.stack, st.reported + AtOnce(lines, at, open))
  {
    RunToBrace(lines, at, open, st);
  }

  lemma {:induction false} RunUndefined(lines: seq<Line>, n: nat, last: nat, info: ClassInfo, below: Stack,
                                        reported: seq<Finding>)
    requires IsDeclaration(lines, n, last) && lines[n].declares.None? && !info.seenOpenBrace
    ensures Run(lines, n, last + 1, State(Over(info, below), reported)) == State(below, reported)
    decreases last - n
  {
    if n < last {
      RunUndefined(lines, n + 1, last, info.(isDerived := info.isDerived || lines[n].bareColon), below, reported);
    } else {
      RunOne(lines, n, State(Over(info, below), reported));
    }
  }

  // A declaration without a body leaves no trace, wherever its semicolon is and
  // whatever braces are on that line.
  lemma DeclarationFrame(lines: seq<Line>, at: nat, last: nat, st: State)
    requires IsDeclaration(lines, at, last) && lines[at].declares.Some?
    ensures Run(lines, at, last + 1, st) == st
  {
    if at == last {
      RunOne(lines, at, st);
    } else {
      var newborn := Fresh(lines, at, lines[at].declares.value);
      RunUndefined(lines, at + 1, last, newborn.(isDerived := lines[at].bareColon), st.stack, st.reported);
    }
  }

  // A line that declares nothing: a class around it stays open and learns from it.
  lemma StepQuiet(lines: seq<Line>, n: nat, st: State)
    requires n < |lines| && lines[n].declares.None?
    requires st.stack.Over? ==> st.stack.top.seenOpenBrace && st.stack.top.braceDepth + lines[n].Net() > 0
    ensures Run(lines, n, n + 1, st) ==
            if st.stack.Bottom? then st
            else
              var info := st.stack.top;
              st.(stack := Over(info.(virtuals := Note(info.virtuals, info.name, lines[n], n),
                                      braceDepth := info.braceDepth + lines[n].Net()), st.stack.below))
  {
    RunOne(lines, n, st);
  }

  // e describes the state: what is known of the innermost class, what was reported.
  predicate Describes(e: Effect, name: string, st: State) {
    InsideOrOutside(st.stack) && Innermost(st.stack, name) && Apply(st.stack, e) == st
  }

  // A well-nested region leaves the stack as it was, but for what it tells the
  // innermost class about virtual methods, and reports each class it completes.
  lemma {:induction false} RegionFrame(lines: seq<Line>, r: Region, st: State, name: string, e: Effect)
    requires WellNested(lines, r) && Describes(e, name, st)
    ensures r.at <= End(r) <= |lines|
    ensures Run(lines, r.at, End(r), st) == Apply(st.stack, Meaning(lines, r, name, e))
    ensures Describes(Meaning(lines, r, name, e), name, Run(lines, r.at, End(r), st))
    decreases r, 0
  {
    RegionBounds(lines, r);
    match r
    case Done(_) =>
    case Simple(at, last, rest) =>
      SimpleFrame(lines, at, last, st, name, e);
      FrameThen(lines, at, rest, st, name, SimpleMeaning(lines, at, last, name, e));
    case Block(at, open, inner, rest) =>
      BlockFrame(lines, at, open, inner, st, name, e);
      FrameThen(lines, at, rest, st, name, BlockMeaning(lines, at, open, inner, name, e));
  }

  // A region that follows lines whose effect is known.
  lemma {:induction false} FrameThen(lines: seq<Line>, n: nat, rest: Region, st: State, name: string, e: Effect)
    requires WellNested(lines, rest) && n <= rest.at <= |lines|
    requires Run(lines, n, rest.at, st) == Apply(st.stack, e)
    requires InsideOrOutside(st.stack) && Innermost(st.stack, name)
    ensures rest.at <= End(rest) <= |lines|
    ensures Run(lines, n, End(rest), st) == Apply(st.stack, Meaning(lines, rest, name, e))
    decreases rest, 1
  {
    RegionFrame(lines, rest, Apply(st.stack, e), name, e);
    RunSplit(lines, n, rest.at, End(rest), st);
  }

  lemma SimpleFrame(lines: seq<Line>, at: nat, last: nat, st: State, name: string, e: Effect)
    requires IsSimple(lines, at, last) && Describes(e, name, st)
    ensures Run(lines, at, last + 1, st) == Apply(st.stack, SimpleMeaning(lines, at, last, name, e))
  {
    if lines[at].declares.None? {
      StepQuiet(lines, at, st);
    } else if lines[last].hasSemicolon {
      HeaderHasNoSemicolon(lines, at, last);
      DeclarationFrame(lines, at, last, st);
    } else {
      DeclarationHasSemicolon(lines, at, last);
      ClosedAtOnce(lines, at, last, st);
    }
  }

  lemma HeaderHasNoSemicolon(lines: seq<Line>, n: nat, open: nat)
    requires n <= open < |lines| && lines[open].hasSemicolon
    ensures !IsHeader(lines, n, open)
    decreases open - n
  {
  }

  lemma DeclarationHasSemicolon(lines: seq<Line>, n: nat, last: nat)
    requires n <= last < |lines| && !lines[last].hasSemicolon
    ensures !IsDeclaration(lines, n, last)
    decreases last - n
  {
  }

  lemma {:induction false} BlockFrame(lines: seq<Line>, at: nat, open: nat, inner: Region, st: State,
                                      name: string, e: Effect)
    requires Starts(lines, at, open) && inner.at == open + 1 && WellNested(lines, inner)
    requires Closes(lines, open, End(inner)) && Describes(e, name, st)
    ensures Run(lines, at, End(inner) + 1, st) == Apply(st.stack, BlockMeaning(lines, at, open, inner, name, e))
    decreases inner, 2
  {
    if lines[at].declares.Some? {
      ClassFrame(lines, at, open, inner, st);
    } else {
      BracesFrame(lines, open, inner, st, name, e);
    }
  }

  lemma {:induction false} BracesFrame(lines: seq<Line>, open: nat, inner: Region, st: State, name: string, e: Effect)
    requires Starts(lines, open, open) && lines[open].declares.None?
    requires inner.at == open + 1 && WellNested(lines, inner)
    requires Closes(lines, open, End(inner)) && Describes(e, name, st)
    ensures Run(lines, open, End(inner) + 1, st) == Apply(st.stack, BodyMeaning(lines, open, inner, name, e))
    decreases inner, 1
  {
    var m := End(inner);
    StepQuiet(lines, open, st);
    var st1 := Run(lines, open, open + 1, st);
    RegionFrame(lines, inner, st1, name, NoteLine(lines, open, name, e));
    var st2 := Run(lines, open + 1, m, st1);
    StepQuiet(lines, m, st2);
    RunSplit(lines, open, open + 1, m + 1, st);
    RunSplit(lines, open + 1, m, m + 1, st1);
  }

  // The class is popped by its closing line, and by no line before it.
  lemma {:induction false} ClassFrame(lines: seq<Line>, at: nat, open: nat, inner: Region, st: State)
    requires Starts(lines, at, open) && lines[at].declares.Some?
    requires inner.at == open + 1 && WellNested(lines, inner) && Pops(lines, open, End(inner))
    ensures var inside := Run(lines, at, End(inner), st).stack;
            && inside.Over? && inside.below == st.stack && inside.top.linenum == at
            && inside.top.name == lines[at].declares.value && inside.top.lastLine == LookAhead(lines, at, 0)
    ensures var info := Begun(lines, at, open);
            var e := BodyMeaning(lines, open, inner, info.name, Effect(info.virtuals, st.reported));
            Run(lines, at, End(inner), st).reported == e.reported &&
            Run(lines, at, End(inner) + 1, st) == State(st.stack, e.reported + Farewell(info, e.virtuals))
    decreases inner, 1
  {
    var info, m := Begun(lines, at, open), End(inner);
    RunHeader(lines, at, open, st);
    var st1 := Run(lines, at, open + 1, st);
    RegionFrame(lines, inner, st1, info.name, NoteLine(lines, open, info.name, Effect(info.virtuals, st.reported)));
    var st2 := Run(lines, open + 1, m, st1);
    RunOne(lines, m, st2);
    RunSplit(lines, at, open + 1, m, st);
    RunSplit(lines, at, m, m + 1, st);
  }

  // ---- One line that closes several classes ----

  function NetSum(lines: seq<Line>, a: nat, b: nat): int
    requires a <= b <= |lines|
    decreases b - a
  {
    if a == b then 0 else lines[a].Net() + NetSum(lines, a + 1, b)
  }

  lemma {:induction false} NetSumSplit(lines: seq<Line>, a: nat, b: nat, c: nat)
    requires a <= b <= c <= |lines|
    ensures NetSum(lines, a, c) == NetSum(lines, a, b) + NetSum(lines, b, c)
    decreases b - a
  {
    if a < b {
      NetSumSplit(lines, a + 1, b, c);
    }
  }

  lemma {:induction false} HeaderNet(lines: seq<Line>, n: nat, open: nat)
    requires IsHeader(lines, n, open)
    ensures NetSum(lines, n, open + 1) == lines[open].Net()
    decreases open - n
  {
    if n < open {
      HeaderNet(lines, n + 1, open);
    } else {
      assert NetSum(lines, n + 1, n + 1) == 0;
    }
  }

  lemma {:induction false} LevelNet(lines: seq<Line>, at: nat, last: nat)
    requires IsLevel(lines, at, last)
    ensures NetSum(lines, at, last + 1) == 0
    decreases last - at
  {
    if at < last {
      LevelNet(lines, at + 1, last);
    } else {
      assert NetSum(lines, at + 1, at + 1) == 0;
    }
  }

  lemma {:induction false} RegionNet(lines: seq<Line>, r: Region)
    requires WellNested(lines, r)
    ensures r.at <= End(r) <= |lines| && NetSum(lines, r.at, End(r)) == 0
    decreases r, 0
  {
    RegionBounds(lines, r);
    match r
    case Done(_) =>
    case Simple(at, last, rest) =>
      LevelNet(lines, at, last);
      RegionNet(lines, rest);
      NetSumSplit(lines, at, rest.at, End(rest));
    case Block(at, open, inner, rest) =>
      BlockNet(lines, at, open, inner);
      RegionNet(lines, rest);
      NetSumSplit(lines, at, rest.at, End(rest));
  }

  lemma {:induction false} BlockNet(lines: seq<Line>, at: nat, open: nat, inner: Region)
    requires Starts(lines, at, open) && inner.at == open + 1 && WellNested(lines, inner)
    requires open < End(inner) < |lines|
    ensures NetSum(lines, at, End(inner) + 1) == lines[open].Net() + lines[End(inner)].Net()
    decreases inner, 1
  {
    var m := End(inner);
    RegionNet(lines, inner);
    if lines[at].declares.Some? {
      HeaderNet(lines, at, open);
    } else {
      assert NetSum(lines, open + 1, open + 1) == 0;
    }
    assert NetSum(lines, m + 1, m + 1) == 0;
    NetSumSplit(lines, at, open + 1, m + 1);
    NetSumSplit(lines, open + 1, m, m + 1);
  }

  // The line that pops a nested class leaves the outer class as it was, so the
  // depth of the outer class is right exactly if that line closes no more than
  // the nested class.
  lemma OuterDepthIff(lines: seq<Line>, at: nat, open: nat, inner: Region, st: State)
    requires Starts(lines, at, open) && lines[at].declares.Some? && st.stack.Over?
    requires inner.at == open + 1 && WellNested(lines, inner) && Pops(lines, open, End(inner))
    ensures var after := Run(lines, at, End(inner) + 1, st).stack;
            && after == st.stack
            && (after.top.braceDepth == st.stack.top.braceDepth + NetSum(lines, at, End(inner) + 1) <==>
                Closes(lines, open, End(inner)))
  {
    ClassFrame(lines, at, open, inner, st);
    BlockNet(lines, at, open, inner);
    hide Run, NetSum, WellNested, Starts;
  }

  // A line that opens a class, and one with two closing braces.
  function Opening(name: string): Line {
    Line(Some(name), false, 1, 0, false, false, {}, 1, 0)
  }

  const TWO_CLOSED := Line(None, false, 0, 2, false, false, {}, 0, 2)

  // The braces match, and yet the outer class is reported as incomplete.
  lemma SurplusBraceDropped(a: string, b: string)
    ensures var lines := [Opening(a), Opening(b), TWO_CLOSED];
            var end := Run(lines, 0, 3, State(Bottom, []));
            && NetSum(lines, 0, 3) == 0
            && end.stack.Over? && end.stack.top.name == a && end.stack.top.braceDepth == 1 && end.stack.below == Bottom
            && Finish(end.stack) == [IncompleteClass(0, a)]
  {
    var lines := [Opening(a), Opening(b), TWO_CLOSED];
    var st := State(Bottom, []);
    RunSplit(lines, 0, 1, 3, st);
    RunOne(lines, 0, st);
    ClassFrame(lines, 1, 1, Done(2), Step(lines, 0, st));
    BlockNet(lines, 1, 1, Done(2));
  }

  // ---- Which classes are reported ----

  // The lines that lie in the class around the region, not in a class within it.
  function Direct(lines: seq<Line>, r: Region): set<nat>
    requires WellNested(lines, r)
  {
    match r
    case Done(_) => {}
    case Simple(at, _, rest) => (if lines[at].declares.Some? then {} else {at}) + Direct(lines, rest)
    case Block(at, open, inner, rest) =>
      (if lines[at].declares.Some? then {} else {open, End(inner)} + Direct(lines, inner)) + Direct(lines, rest)
  }

  ghost predicate HasVirtual(lines: seq<Line>, own: set<nat>) {
    exists n :: n in own && n < |lines| && lines[n].isVirtual
  }

  ghost predicate HasVirtualDestructor(lines: seq<Line>, own: set<nat>, name: string) {
    exists n :: n in own && n < |lines| && lines[n].isVirtual && name in lines[n].destructs
  }

  // n is the last of own that is virtual.
  ghost predicate LastVirtual(lines: seq<Line>, own: set<nat>, n: nat) {
    && n in own && n < |lines| && lines[n].isVirtual
    && forall m :: m in own && m < |lines| && lines[m].isVirtual ==> m <= n
  }

  // v' is what v becomes by the lines of own, read in order.
  ghost predicate Learnt(lines: seq<Line>, own: set<nat>, name: string, v: Virtuals, v': Virtuals) {
    && (if HasVirtual(lines, own) then v'.methodLine.Some? && LastVirtual(lines, own, v'.methodLine.value)
        else v'.methodLine == v.methodLine)
    && (v'.destructor <==> v.destructor || HasVirtualDestructor(lines, own, name))
  }

  predicate Precedes(own: set<nat>, own': set<nat>) {
    forall m, n :: m in own && n in own' ==> m < n
  }

  lemma {:induction false} DirectBounds(lines: seq<Line>, r: Region)
    requires WellNested(lines, r)
    ensures r.at <= End(r) && forall n :: n in Direct(lines, r) ==> r.at <= n < End(r)
  {
    RegionBounds(lines, r);
    match r
    case Done(_) =>
    case Simple(_, _, rest) =>
      RegionBounds(lines, rest);
      DirectBounds(lines, rest);
    case Block(_, _, inner, rest) =>
      RegionBounds(lines, inner);
      RegionBounds(lines, rest);
      DirectBounds(lines, inner);
      DirectBounds(lines, rest);
  }

  lemma LearntLine(lines: seq<Line>, n: nat, name: string, e: Effect)
    requires n < |lines|
    ensures Learnt(lines, {n}, name, e.virtuals, NoteLine(lines, n, name, e).virtuals)
  {
    if lines[n].isVirtual {
      assert n in {n};
    }
  }

  lemma LearntThen(lines: seq<Line>, own: set<nat>, own': set<nat>, name: string,
                   v: Virtuals, v': Virtuals, v'': Virtuals)
    requires Learnt(lines, own, name, v, v') && Learnt(lines, own', name, v', v'') && Precedes(own, own')
    ensures Learnt(lines, own + own', name, v, v'')
  {
  }

  lemma NothingLearnt(lines: seq<Line>, name: string, v: Virtuals)
    ensures Learnt(lines, {}, name, v, v)
  {
  }

  // The lines of the class itself in the first part of a region.
  function FirstDirect(lines: seq<Line>, r: Region): set<nat>
    requires WellNested(lines, r) && !r.Done?
  {
    if lines[r.at].declares.Some? then {}
    else if r.Simple? then {r.at}
    else {r.open, End(r.inner)} + Direct(lines, r.inner)
  }

  lemma FirstDirectBounds(lines: seq<Line>, r: Region)
    requires WellNested(lines, r) && !r.Done?
    ensures Direct(lines, r) == FirstDirect(lines, r) + Direct(lines, r.rest)
    ensures Precedes(FirstDirect(lines, r), Direct(lines, r.rest))
  {
    DirectBounds(lines, r.rest);
    if r.Block? {
      DirectBounds(lines, r.inner);
    }
  }

  function FirstMeaning(lines: seq<Line>, r: Region, name: string, e: Effect): Effect
    requires WellNested(lines, r) && !r.Done?
  {
    if r.Simple? then SimpleMeaning(lines, r.at, r.last, name, e)
    else BlockMeaning(lines, r.at, r.open, r.inner, name, e)
  }

  lemma {:induction false} FirstLearnt(lines: seq<Line>, r: Region, name: string, e: Effect)
    requires WellNested(lines, r) && !r.Done?
    ensures Learnt(lines, FirstDirect(lines, r), name, e.virtuals, FirstMeaning(lines, r, name, e).virtuals)
    ensures Meaning(lines, r, name, e) == Meaning(lines, r.rest, name, FirstMeaning(lines, r, name, e))
    decreases r, 0
  {
    hide Learnt;
    NothingLearnt(lines, name, e.virtuals);
    LearntLine(lines, r.at, name, e);
    if r.Block? {
      BodyLearnt(lines, r.open, r.inner, name, e);
    }
  }

  lemma {:induction false} RegionLearnt(lines: seq<Line>, r: Region, name: string, e: Effect)
    requires WellNested(lines, r)
    ensures Learnt(lines, Direct(lines, r), name, e.virtuals, Meaning(lines, r, name, e).virtuals)
    decreases r, 1
  {
    hide Learnt, Precedes, FirstDirect, FirstMeaning;
    NothingLearnt(lines, name, e.virtuals);
    if !r.Done? {
      var e1 := FirstMeaning(lines, r, name, e);
      FirstLearnt(lines, r, name, e);
      RegionLearnt(lines, r.rest, name, e1);
      FirstDirectBounds(lines, r);
      LearntThen(lines, FirstDirect(lines, r), Direct(lines, r.rest), name,
                 e.virtuals, e1.virtuals, Meaning(lines, r.rest, name, e1).virtuals);
    }
  }

  lemma {:induction false} BodyLearnt(lines: seq<Line>, open: nat, inner: Region, name: string, e: Effect)
    requires open < |lines| && inner.at == open + 1 && WellNested(lines, inner) && End(inner) < |lines|
    ensures Learnt(lines, {open, End(inner)} + Direct(lines, inner), name,
                   e.virtuals, BodyMeaning(lines, open, inner, name, e).virtuals)
    decreases inner, 2
  {
    hide Learnt;
    var e1 := NoteLine(lines, open, name, e);
    var e2 := Meaning(lines, inner, name, e1);
    LearntLine(lines, open, name, e);
    RegionLearnt(lines, inner, name, e1);
    LearntLine(lines, End(inner), name, e2);
    DirectBounds(lines, inner);
    LearntThen(lines, {open}, Direct(lines, inner), name, e.virtuals, e1.virtuals, e2.virtuals);
    LearntThen(lines, {open} + Direct(lines, inner), {End(inner)}, name, e.virtuals, e2.virtuals,
               NoteLine(lines, End(inner), name, e2).virtuals);
    assert {open} + Direct(lines, inner) + {End(inner)} == {open, End(inner)} + Direct(lines, inner);
  }

  lemma {:induction false} AnyBareColonIff(lines: seq<Line>, n: nat, open: nat)
    requires n <= open < |lines|
    ensures AnyBareColon(lines, n, open) <==> exists i :: n <= i <= open && lines[i].bareColon
    decreases open - n
  {
    if n < open {
      AnyBareColonIff(lines, n + 1, open);
    }
  }

  // A class is reported, when its closing line is read, exactly if a line of its
  // own is virtual, none of these mentions its destructor, and no line of its
  // header has a bare colon; the report names the last of the virtual lines.
  lemma ClassReportedIff(lines: seq<Line>, at: nat, open: nat, inner: Region, st: State)
    requires Starts(lines, at, open) && lines[at].declares.Some?
    requires inner.at == open + 1 && WellNested(lines, inner) && Pops(lines, open, End(inner))
    ensures var name, own := lines[at].declares.value, {open, End(inner)} + Direct(lines, inner);
            var before, after := Run(lines, at, End(inner), st).reported, Run(lines, at, End(inner) + 1, st).reported;
            if HasVirtual(lines, own) && !HasVirtualDestructor(lines, own, name) &&
               !(exists i :: at <= i <= open && lines[i].bareColon)
            then exists v :: LastVirtual(lines, own, v) && after == before + [NeedsVirtualDestructor(at, name, v)]
            else after == before
  {
    var info := Begun(lines, at, open);
    var e := Effect(info.virtuals, st.reported);
    var e' := BodyMeaning(lines, open, inner, info.name, e);
    ClassFrame(lines, at, open, inner, st);
    BodyLearnt(lines, open, inner, info.name, e);
    AnyBareColonIff(lines, at, open);
    hide Run, WellNested, Meaning, Direct, HasVirtual, HasVirtualDestructor, AnyBareColon, LookAhead;
    assert info.virtuals == Virtuals(None, false);
    if e'.virtuals.methodLine.Some? {
      var finding := NeedsVirtualDestructor(at, info.name, e'.virtuals.methodLine.value);
      assert Farewell(info, e'.virtuals) == [] || Farewell(info, e'.virtuals) == [finding];
    }
  }

  // The same for a class that is closed on the line of its brace.
  lemma AtOnceReportedIff(lines: seq<Line>, at: nat, open: nat, st: State)
    requires IsHeader(lines, at, open) && lines[at].declares.Some? && lines[open].Net() <= 0
    ensures var name := lines[at].declares.value;
            Run(lines, at, open + 1, st) ==
            if lines[open].isVirtual && name !in lines[open].destructs &&
               !(exists i :: at <= i <= open && lines[i].bareColon)
            then State(st.stack, st.reported + [NeedsVirtualDestructor(at, name, open)]) else st
  {
    ClosedAtOnce(lines, at, open, st);
    AnyBareColonIff(lines, at, open);
    hide Run, AnyBareColon, LookAhead, IsHeader;
    assert Begun(lines, at, open).virtuals == Virtuals(None, false);
    assert AtOnce(lines, at, open) == [] ==> State(st.stack, st.reported + []) == st;
  }

  // ---- Whole files ----

  // A well-nested file leaves no class open, so its end reports nothing.
  lemma WellNestedFile(lines: seq<Line>, r: Region)
    requires WellNested(lines, r) && r.at == 0 && End(r) == |lines|
    ensures var end := Run(lines, 0, |lines|, State(Bottom, []));
            end.stack == Bottom && Finish(end.stack) == []
  {
    RegionFrame(lines, r, State(Bottom, []), "", Effect(Virtuals(None, false), []));
  }

  // A file that stops inside braces and classes.
  datatype Unfinished =
    | Ends(before: Region)
    | InBlock(before: Region, open: nat, rest: Unfinished)
    | InHeader(before: Region)                    // the brace of the last class is never seen

  predicate StopsIn(lines: seq<Line>, o: Unfinished) {
    var m := End(o.before);
    WellNested(lines, o.before) &&
    match o
    case Ends(_) => m == |lines|
    case InBlock(_, open, rest) => Starts(lines, m, open) && rest.before.at == open + 1 && StopsIn(lines, rest)
    case InHeader(_) => m < |lines| && lines[m].declares.Some? && NeverOpened(lines, m)
  }

  // From line n on, the file ends before a brace or a semicolon.
  predicate NeverOpened(lines: seq<Line>, n: nat)
    requires n < |lines|
    decreases |lines| - n
  {
    && !lines[n].hasSemicolon && lines[n].opens == 0
    && (n + 1 < |lines| ==> lines[n + 1].declares.None? && NeverOpened(lines, n + 1))
  }

  // The classes left open, outermost first, after those of acc.
  function LeftOpen(lines: seq<Line>, o: Unfinished, acc: seq<(string, nat)>): seq<(string, nat)>
    requires StopsIn(lines, o)
  {
    var m := End(o.before);
    match o
    case Ends(_) => acc
    case InBlock(_, open, rest) =>
      LeftOpen(lines, rest, if lines[m].declares.Some? then acc + [(lines[m].declares.value, m)] else acc)
    case InHeader(_) => acc + [(lines[m].declares.value, m)]
  }

  function Names(s: Stack): seq<(string, nat)> {
    if s.Bottom? then [] else Names(s.below) + [(s.top.name, s.top.linenum)]
  }

  lemma {:induction false} NamesOutermost(s: Stack)
    requires s.Over?
    ensures |Names(s)| > 0 && Names(s)[0] == (Outermost(s).name, Outermost(s).linenum)
  {
    if s.below.Over? {
      NamesOutermost(s.below);
    }
  }

  lemma {:induction false} RunNeverOpened(lines: seq<Line>, n: nat, info: ClassInfo, below: Stack,
                                          reported: seq<Finding>)
    requires n <= |lines| && !info.seenOpenBrace
    requires n < |lines| ==> lines[n].declares.None? && NeverOpened(lines, n)
    ensures Names(Run(lines, n, |lines|, State(Over(info, below), reported)).stack) == Names(Over(info, below))
    decreases |lines| - n
  {
    if n < |lines| {
      RunNeverOpened(lines, n + 1, info.(isDerived := info.isDerived || lines[n].bareColon), below, reported);
    }
  }

  lemma HeaderToEnd(lines: seq<Line>, n: nat, st: State)
    requires n < |lines| && lines[n].declares.Some? && NeverOpened(lines, n)
    ensures Names(Run(lines, n, |lines|, st).stack) == Names(st.stack) + [(lines[n].declares.value, n)]
  {
    var newborn := Fresh(lines, n, lines[n].declares.value).(isDerived := lines[n].bareColon);
    RunNeverOpened(lines, n + 1, newborn, st.stack, st.reported);
  }

  lemma RegionNames(lines: seq<Line>, r: Region, st: State)
    requires WellNested(lines, r) && InsideOrOutside(st.stack)
    ensures r.at <= End(r) <= |lines|
    ensures var st1 := Run(lines, r.at, End(r), st);
            Names(st1.stack) == Names(st.stack) && InsideOrOutside(st1.stack)
  {
    var name := if st.stack.Over? then st.stack.top.name else "";
    var v := if st.stack.Over? then st.stack.top.virtuals else Virtuals(None, false);
    RegionFrame(lines, r, st, name, Effect(v, st.reported));
  }

  lemma StartNames(lines: seq<Line>, at: nat, open: nat, st: State)
    requires Starts(lines, at, open) && InsideOrOutside(st.stack)
    ensures var st1 := Run(lines, at, open + 1, st);
            && Names(st1.stack) == (if lines[at].declares.Some? then Names(st.stack) + [(lines[at].declares.value, at)]
                                    else Names(st.stack))
            && InsideOrOutside(st1.stack)
  {
    if lines[at].declares.Some? {
      RunHeader(lines, at, open, st);
    } else {
      StepQuiet(lines, at, st);
    }
  }

  // The stack then holds exactly the classes left open, in the order of nesting.
  lemma {:induction false} UnfinishedStack(lines: seq<Line>, o: Unfinished, st: State)
    requires StopsIn(lines, o) && InsideOrOutside(st.stack)
    ensures o.before.at <= |lines|
    ensures Names(Run(lines, o.before.at, |lines|, st).stack) == LeftOpen(lines, o, Names(st.stack))
  {
    hide Run, WellNested, Names, InsideOrOutside, NeverOpened;
    var n, m := o.before.at, End(o.before);
    RegionNames(lines, o.before, st);
    var st1 := Run(lines, n, m, st);
    RunSplit(lines, n, m, |lines|, st);
    match o
    case Ends(_) => RunNone(lines, m, st1);
    case InBlock(_, open, rest) =>
      StartNames(lines, m, open, st1);
      RunSplit(lines, m, open + 1, |lines|, st1);
      UnfinishedStack(lines, rest, Run(lines, m, open + 1, st1));
    case InHeader(_) => HeaderToEnd(lines, m, st1);
  }

  // So the end of the file reports the outermost class left open, and only that.
  lemma UnfinishedReport(lines: seq<Line>, o: Unfinished)
    requires StopsIn(lines, o) && o.before.at == 0
    ensures var open := LeftOpen(lines, o, []);
            Finish(Run(lines, 0, |lines|, State(Bottom, [])).stack) ==
            if open == [] then [] else [IncompleteClass(open[0].1, open[0].0)]
  {
    var end := Run(lines, 0, |lines|, State(Bottom, []));
    UnfinishedStack(lines, o, State(Bottom, []));
    if end.stack.Over? {
      NamesOutermost(end.stack);
    }
  }

  // ---- Any input at all ----

  // Outer classes were declared on earlier lines; a class has a positive depth
  // exactly when its brace has been seen.
  predicate Sound(s: Stack, n: nat) {
    s.Over? ==>
      && (if s.top.seenOpenBrace then s.top.braceDepth >= 1 else s.top.braceDepth == 0)
      && s.top.linenum < n && Sound(s.below, s.top.linenum)
  }

  lemma StepSound(lines: seq<Line>, n: nat, st: State)
    requires n < |lines| && Sound(st.stack, n)
    ensures Sound(Step(lines, n, st).stack, n + 1)
  {
    var s := Push(lines, n, st).stack;
    assert Sound(s, n + 1);
    assert s.Over? && s.below.Over? ==> Sound(s.below, n + 1);
  }

  lemma {:induction false} RunSound(lines: seq<Line>, a: nat, b: nat, st: State)
    requires a <= b <= |lines| && Sound(st.stack, a)
    ensures Sound(Run(lines, a, b, st).stack, b)
    decreases b - a
  {
    if a < b {
      StepSound(lines, a, st);
      RunSound(lines, a + 1, b, Step(lines, a, st));
    }
  }

  // ---- The lookahead against the tracker ----

  predicate CountsAgree(lines: seq<Line>, a: nat, b: nat)
    requires b <= |lines|
  {
    forall i :: a <= i < b ==> lines[i].RawNet() == lines[i].Net()
  }

  lemma {:induction false} LookPastHeader(lines: seq<Line>, n: nat, open: nat, depth: nat)
    requires IsHeader(lines, n, open) && CountsAgree(lines, n, open + 1)
    requires depth >= 1 && lines[open].Net() > 0
    ensures LookAhead(lines, n, depth) == LookAhead(lines, open + 1, depth + lines[open].Net())
    decreases open - n
  {
    if n < open {
      LookPastHeader(lines, n + 1, open, depth);
    }
  }

  lemma {:induction false} LookPastLevel(lines: seq<Line>, at: nat, last: nat, depth: nat)
    requires IsLevel(lines, at, last) && CountsAgree(lines, at, last + 1) && depth >= 1
    ensures LookAhead(lines, at, depth) == LookAhead(lines, last + 1, depth)
    decreases last - at
  {
    if at < last {
      LookPastLevel(lines, at + 1, last, depth);
    }
  }

  lemma {:induction false} LookPastRegion(lines: seq<Line>, r: Region, depth: nat)
    requires WellNested(lines, r) && End(r) <= |lines| && CountsAgree(lines, r.at, End(r)) && depth >= 1
    ensures r.at <= End(r) && LookAhead(lines, r.at, depth) == LookAhead(lines, End(r), depth)
    decreases r, 0
  {
    RegionBounds(lines, r);
    match r
    case Done(_) =>
    case Simple(at, last, rest) =>
      RegionBounds(lines, rest);
      LookPastLevel(lines, at, last, depth);
      LookPastRegion(lines, rest, depth);
    case Block(at, open, inner, rest) =>
      RegionBounds(lines, rest);
      if lines[at].declares.Some? {
        LookPastHeader(lines, at, open, depth);
      }
      LookPastBody(lines, open, inner, depth);
      LookPastRegion(lines, rest, depth);
  }

  // A body and the line that closes it, seen from the line after the one that opens it.
  lemma {:induction false} LookPastBody(lines: seq<Line>, open: nat, inner: Region, depth: nat)
    requires open < |lines| && lines[open].Net() > 0 && Closes(lines, open, End(inner))
    requires inner.at == open + 1 && WellNested(lines, inner) && CountsAgree(lines, open, End(inner) + 1)
    ensures LookAhead(lines, open + 1, depth + lines[open].Net()) ==
            if depth == 0 then End(inner) else LookAhead(lines, End(inner) + 1, depth)
    decreases inner, 1
  {
    LookPastRegion(lines, inner, depth + lines[open].Net());
  }

  // What the lookahead stored with the class is the very line that pops it
  // exactly when the brace is on the line of the declaration; else it is that line.
  lemma LookAheadFindsEnd(lines: seq<Line>, at: nat, open: nat, inner: Region, st: State)
    requires Starts(lines, at, open) && lines[at].declares.Some? && Closes(lines, open, End(inner))
    requires inner.at == open + 1 && WellNested(lines, inner) && CountsAgree(lines, at, End(inner) + 1)
    ensures var inside := Run(lines, at, End(inner), st).stack;
            && inside.Over? && (inside.top.lastLine == End(inner) <==> at == open)
            && (at < open ==> inside.top.lastLine == at)
  {
    ClassFrame(lines, at, open, inner, st);
    LookAheadIsEnd(lines, at, open, inner);
    hide Run, LookAhead, WellNested, Starts;
  }

  lemma LookAheadIsEnd(lines: seq<Line>, at: nat, open: nat, inner: Region)
    requires Starts(lines, at, open) && lines[at].declares.Some? && Closes(lines, open, End(inner))
    requires inner.at == open + 1 && WellNested(lines, inner) && CountsAgree(lines, at, End(inner) + 1)
    ensures LookAhead(lines, at, 0) == End(inner) <==> at == open
    ensures at < open ==> LookAhead(lines, at, 0) == at
  {
    if at == open {
      LookPastBody(lines, open, inner, 0);
    }
  }
}
