/** Erasing multi-line comments in place (cpplint.py, RemoveMultiLineComments and
    the functions it uses). */
module CommentEraser {
  import opened Collections

  const DUMMY := "// dummy"

  // ---- What the marker tests recognise ----

  predicate IsSpace(c: char) {
    c == ' ' || c == '\t' || c == '\n' || c == '\r' || c == '\U{0b}' || c == '\U{0c}'
  }

  function LStrip(s: string): string {
    if s != [] && IsSpace(s[0]) then LStrip(s[1..]) else s
  }

  function RStrip(s: string): string {
    if s != [] && IsSpace(s[|s| - 1]) then RStrip(s[..|s| - 1]) else s
  }

  function Strip(s: string): string {
    RStrip(LStrip(s))
  }

  predicate HasAt(s: string, i: nat, t: string) {
    i + |t| <= |s| && s[i..i + |t|] == t
  }

  // Starts with the opening marker and does not close it on the same line.
  predicate Opens(line: string) {
    var t := Strip(line);
    HasAt(t, 0, "/*") && forall i :: 2 <= i < |t| ==> !HasAt(t, i, "*/")
  }

  // Ends with the closing marker.
  predicate Ends(line: string) {
    var t := Strip(line);
    |t| >= 2 && HasAt(t, |t| - 2, "*/")
  }

  // ---- The same without stripping ----

  predicate IsBlank(s: string) {
    forall i :: 0 <= i < |s| ==> s[i] in " \t\n\r\U{0b}\U{0c}"
  }

  lemma {:induction false} LStripBlank(a: string, s: string)
    requires IsBlank(a) && s != [] && !IsSpace(s[0])
    ensures LStrip(a + s) == s
  {
    if a == [] {
      assert a + s == s;
    } else {
      assert a[0] in " \t\n\r\U{0b}\U{0c}";
      assert (a + s)[1..] == a[1..] + s;
      LStripBlank(a[1..], s);
    }
  }

  lemma {:induction false} LStripFront(t: string, s: string)
    requires s != [] && !IsSpace(s[0])
    ensures LStrip(t + s) == LStrip(t) + s
  {
    if t == [] {
      assert t + s == s;
    } else {
      assert (t + s)[1..] == t[1..] + s;
      if IsSpace(t[0]) {
        LStripFront(t[1..], s);
      }
    }
  }

  lemma {:induction false} RStripBlank(s: string, b: string)
    requires IsBlank(b) && s != [] && !IsSpace(s[|s| - 1])
    ensures RStrip(s + b) == s
  {
    if b == [] {
      assert s + b == s;
    } else {
      var n := |b| - 1;
      assert b[n] in " \t\n\r\U{0b}\U{0c}";
      assert (s + b)[..|s + b| - 1] == s + b[..n];
      RStripBlank(s, b[..n]);
    }
  }

  lemma {:induction false} LStripSplits(s: string) returns (a: string)
    ensures IsBlank(a) && s == a + LStrip(s)
  {
    if s != [] && IsSpace(s[0]) {
      a := LStripSplits(s[1..]);
      a := [s[0]] + a;
    } else {
      a := [];
    }
  }

  lemma {:induction false} RStripSplits(s: string) returns (b: string)
    ensures IsBlank(b) && s == RStrip(s) + b
    ensures |RStrip(s)| <= |s|
    ensures forall i :: 0 <= i < |s| && !IsSpace(s[i]) ==> i < |RStrip(s)|
  {
    if s != [] && IsSpace(s[|s| - 1]) {
      b := RStripSplits(s[..|s| - 1]);
      assert s == s[..|s| - 1] + [s[|s| - 1]];
      b := b + [s[|s| - 1]];
    } else {
      b := [];
    }
  }

  predicate ClosesAt(t: string, i: nat) {
    i + 1 < |t| && t[i] == '*' && t[i + 1] == '/'
  }

  // No closing marker anywhere.
  ghost predicate NeverCloses(t: string) {
    forall i: nat :: !ClosesAt(t, i)
  }

  lemma MarkerAt(t: string, i: nat)
    ensures HasAt(t, i, "*/") <==> ClosesAt(t, i)
  {
    if i + 2 <= |t| {
      assert t[i..i + 2] == [t[i], t[i + 1]];
    }
  }

  // Blanks at the end and a marker at the beginning make no difference.
  lemma ClosesInside(t: string, b: string, i: nat)
    requires IsBlank(b)
    ensures ClosesAt(t + b, i) <==> ClosesAt(t, i)
    ensures ClosesAt("/*" + t, i + 2) <==> ClosesAt(t, i)
  {
    assert forall j :: 0 <= j < |b| ==> b[j] != '*' && b[j] != '/';
    assert |t| <= i < |t| + |b| ==> (t + b)[i] == b[i - |t|];
    assert |t| <= i + 1 < |t| + |b| ==> (t + b)[i + 1] == b[i + 1 - |t|];
  }

  ghost predicate StartsUnclosed(line: string, a: string, t: string) {
    IsBlank(a) && line == a + "/*" + t && NeverCloses(t)
  }

  // A line opens a comment exactly if, after blanks, it starts with the opening
  // marker and has no closing marker after that.
  lemma OpensIff(line: string)
    ensures Opens(line) <==> exists a, t :: StartsUnclosed(line, a, t)
  {
    if Opens(line) {
      OpensSplits(line);
    }
    if a, t :| StartsUnclosed(line, a, t) {
      SplitOpens(line, a, t);
    }
  }

  lemma OpensSplits(line: string)
    requires Opens(line)
    ensures exists a, t :: StartsUnclosed(line, a, t)
  {
    var a := LStripSplits(line);
    var b := RStripSplits(LStrip(line));
    var s := Strip(line);
    assert LStrip(line) == s + b && s[0..2] == "/*";
    var t := s[2..];
    assert s == "/*" + t && line == a + "/*" + (t + b);
    forall i: nat ensures !ClosesAt(t + b, i) {
      ClosesInside(t, b, i);
      MarkerAt(s, i + 2);
    }
    assert StartsUnclosed(line, a, t + b);
  }

  lemma SplitOpens(line: string, a: string, t: string)
    requires StartsUnclosed(line, a, t)
    ensures Opens(line)
  {
    var s := "/*" + t;
    assert line == a + s && !IsSpace(s[0]) && !IsSpace(s[1]);
    LStripBlank(a, s);
    var b := RStripSplits(s);
    var r := RStrip(s);
    assert |r| >= 2 && r[0..2] == "/*";
    forall i | 2 <= i < |r| ensures !HasAt(r, i, "*/") {
      MarkerAt(r, i);
      ClosesInside(r, b, i);
      ClosesInside(t, "", i - 2);
    }
    hide LStrip, RStrip;
  }

  ghost predicate EndsClosed(line: string, t: string, b: string) {
    IsBlank(b) && line == t + "*/" + b
  }

  // A line ends a comment exactly if it has nothing but blanks after a closing marker.
  lemma EndsIff(line: string)
    ensures Ends(line) <==> exists t, b :: EndsClosed(line, t, b)
  {
    hide Ends;
    if Ends(line) {
      EndsSplits(line);
    }
    if t, b :| EndsClosed(line, t, b) {
      SplitEnds(line, t, b);
    }
  }

  lemma EndsSplits(line: string)
    requires Ends(line)
    ensures exists t, b :: EndsClosed(line, t, b)
  {
    hide LStrip, RStrip;
    var a := LStripSplits(line);
    var b := RStripSplits(LStrip(line));
    var s := Strip(line);
    assert s == s[..|s| - 2] + "*/";
    assert line == a + s[..|s| - 2] + "*/" + b;
    assert EndsClosed(line, a + s[..|s| - 2], b);
  }

  lemma SplitEnds(line: string, t: string, b: string)
    requires EndsClosed(line, t, b)
    ensures Ends(line)
  {
    hide LStrip, RStrip;
    var s := "*/" + b;
    assert line == t + s && !IsSpace(s[0]);
    LStripFront(t, s);
    var r := LStrip(t) + "*/";
    assert LStrip(t) + s == r + b && r[|r| - 2..|r|] == "*/";
    RStripBlank(r, b);
  }

  lemma DummyIsPlain()
    ensures !Opens(DUMMY) && !Ends(DUMMY)
  {
    assert LStrip(DUMMY) == DUMMY && RStrip(DUMMY) == DUMMY;
    assert DUMMY[1] == '/' && DUMMY[7] == 'y';
  }

  // ---- One pass over the lines ----

  // A comment is open before line n.
  predicate Inside(lines: seq<string>, n: nat)
    requires n <= |lines|
  {
    n > 0 && (Inside(lines, n - 1) || Opens(lines[n - 1])) && !Ends(lines[n - 1])
  }

  // The line that opened it.
  function Start(lines: seq<string>, n: nat): (b: nat)
    requires n <= |lines| && Inside(lines, n)
    ensures b < n && Opens(lines[b])
  {
    if Inside(lines, n - 1) then Start(lines, n - 1) else n - 1
  }

  predicate Covered(lines: seq<string>, n: nat)
    requires n < |lines|
  {
    Inside(lines, n) || Opens(lines[n])
  }

  // Where an unterminated comment starts; the end of the file if there is none.
  function Tail(lines: seq<string>): (t: nat)
    ensures t <= |lines|
  {
    if Inside(lines, |lines|) then Start(lines, |lines|) else |lines|
  }

  // The lines of every comment but an unterminated one, replaced.
  function Erased(lines: seq<string>): (r: seq<string>)
    ensures |r| == |lines|
  {
    seq(|lines|, i requires 0 <= i < |lines| => if i < Tail(lines) && Covered(lines, i) then DUMMY else lines[i])
  }

  function ErrorLine(lines: seq<string>): Option<nat> {
    if Inside(lines, |lines|) then Some(Tail(lines) + 1) else None
  }

  lemma {:induction false} Quiet(lines: seq<string>, a: nat, b: nat)
    requires a <= b <= |lines| && !Inside(lines, a)
    requires forall i :: a <= i < b ==> !Opens(lines[i])
    ensures !Inside(lines, b)
    decreases b
  {
    hide Opens, Ends;
    if a < b {
      Quiet(lines, a, b - 1);
    }
  }

  lemma {:induction false} StaysOpen(lines: seq<string>, b: nat, e: nat)
    requires b < e <= |lines| && !Inside(lines, b) && Opens(lines[b])
    requires forall i :: b <= i < e ==> !Ends(lines[i])
    ensures Inside(lines, e) && Start(lines, e) == b
    decreases e
  {
    hide Opens, Ends;
    if b < e - 1 {
      StaysOpen(lines, b, e - 1);
    }
  }

  // A comment open at n started after any earlier point where none was open.
  lemma {:induction false} StartAfter(lines: seq<string>, k: nat, n: nat)
    requires k <= n <= |lines| && !Inside(lines, k) && Inside(lines, n)
    ensures k <= Start(lines, n)
    decreases n
  {
    hide Opens, Ends;
    if Inside(lines, n - 1) {
      StartAfter(lines, k, n - 1);
    }
  }

  lemma {:induction false} OpenSince(lines: seq<string>, n: nat)
    requires n <= |lines| && Inside(lines, n)
    ensures var b := Start(lines, n); !Inside(lines, b) && forall i :: b <= i < n ==> !Ends(lines[i])
    decreases n
  {
    hide Opens, Ends;
    if Inside(lines, n - 1) {
      OpenSince(lines, n - 1);
    }
  }

  // ---- What the pass achieves ----

  // An unterminated comment is reported, and from its first line on nothing is
  // erased and nothing ends a comment.
  lemma Unterminated(lines: seq<string>)
    requires ErrorLine(lines).Some?
    ensures var t := ErrorLine(lines).value - 1;
            && t < |lines| && Opens(lines[t])
            && forall i :: t <= i < |lines| ==> Erased(lines)[i] == lines[i] && !Ends(lines[i])
  {
    OpenSince(lines, |lines|);
  }

  // The end of the comment that covers line n.
  lemma {:induction false} FindsEnd(lines: seq<string>, n: nat) returns (e: nat)
    requires n < Tail(lines) && Covered(lines, n)
    ensures n <= e < Tail(lines) && Ends(lines[e]) && forall i :: n <= i < e ==> !Ends(lines[i])
    ensures forall i :: n <= i <= e ==> Covered(lines, i)
    decreases |lines| - n
  {
    hide Opens, Ends;
    if Ends(lines[n]) {
      return n;
    }
    assert Inside(lines, n + 1);
    if n + 1 == Tail(lines) {
      OpenSince(lines, |lines|);
      assert false;
    }
    e := FindsEnd(lines, n + 1);
  }

  // Every replaced line lies in a whole comment, replaced from its first line to its last.
  lemma ErasedIsAComment(lines: seq<string>, n: nat)
    requires n < Tail(lines) && Covered(lines, n)
    ensures Erased(lines)[n] == "// dummy"
    ensures exists b, e :: 0 <= b <= n <= e < Tail(lines) && IsComment(lines, b, e)
  {
    hide Opens, Ends;
    var b := if Inside(lines, n) then Start(lines, n) else n;
    if Inside(lines, n) {
      OpenSince(lines, n);
    }
    var e := FindsEnd(lines, n);
    forall i | b <= i < n ensures Covered(lines, i) {
      if b < i {
        StaysOpen(lines, b, i);
      }
    }
    assert IsComment(lines, b, e);
  }

  ghost predicate IsComment(lines: seq<string>, b: nat, e: nat)
    requires b <= e < |lines|
  {
    && Opens(lines[b]) && Ends(lines[e]) && (forall i :: b <= i < e ==> !Ends(lines[i]))
    && forall i :: b <= i <= e ==> Covered(lines, i)
  }

  lemma {:induction false} ErasedIsQuiet(lines: seq<string>, n: nat)
    requires n <= Tail(lines)
    ensures !Inside(Erased(lines), n)
    ensures forall i :: 0 <= i < n ==> !Opens(Erased(lines)[i])
  {
    DummyIsPlain();
    hide Opens, Ends;
    if n > 0 {
      ErasedIsQuiet(lines, n - 1);
    }
  }

  // Up to an unterminated comment no line opens a comment any more.
  lemma NoCommentLeft(lines: seq<string>)
    ensures forall i :: 0 <= i < Tail(lines) ==> !Opens(Erased(lines)[i])
    ensures ErrorLine(lines) == None ==> Tail(lines) == |lines|
  {
    ErasedIsQuiet(lines, Tail(lines));
  }

  // A second pass changes nothing and reports the same.
  lemma EraseTwice(lines: seq<string>)
    ensures Erased(Erased(lines)) == Erased(lines) && ErrorLine(Erased(lines)) == ErrorLine(lines)
  {
    var once, t := Erased(lines), Tail(lines);
    ErasedIsQuiet(lines, t);
    if Inside(lines, |lines|) {
      Unterminated(lines);
      StaysOpen(once, t, |lines|);
    }
    hide Opens, Ends;
    assert Tail(once) == t;
    forall i | 0 <= i < t ensures !Covered(once, i) {
      ErasedIsQuiet(lines, i);
    }
  }

  // ---- The eraser as the linter runs it ----

  method FindStart(lines: array<string>, from: nat) returns (b: nat)
    requires from <= lines.Length
    ensures from <= b <= lines.Length && (b < lines.Length ==> Opens(lines[b]))
    ensures forall i :: from <= i < b ==> !Opens(lines[i])
  {
    hide Opens;
    b := from;
    while b < lines.Length
      invariant from <= b <= lines.Length
      invariant forall i :: from <= i < b ==> !Opens(lines[i])
    {
      if Opens(lines[b]) {
        return;
      }
      b := b + 1;
    }
  }

  method FindEnd(lines: array<string>, from: nat) returns (e: nat)
    requires from <= lines.Length
    ensures from <= e <= lines.Length && (e < lines.Length ==> Ends(lines[e]))
    ensures forall i :: from <= i < e ==> !Ends(lines[i])
  {
    hide Ends;
    e := from;
    while e < lines.Length
      invariant from <= e <= lines.Length
      invariant forall i :: from <= i < e ==> !Ends(lines[i])
    {
      if Ends(lines[e]) {
        return;
      }
      e := e + 1;
    }
  }

  method EraseRange(lines: array<string>, begin: nat, end: nat)
    requires begin <= end <= lines.Length
    modifies lines
    ensures forall i :: 0 <= i < lines.Length ==> lines[i] == if begin <= i < end then DUMMY else old(lines[i])
  {
    for i := begin to end
      invariant forall j :: 0 <= j < lines.Length ==> lines[j] == if begin <= j < i then DUMMY else old(lines[j])
    {
      lines[i] := DUMMY;
    }
  }

  // The state of the pass when it has come to line n.
  ghost predicate Reached(was: seq<string>, now: seq<string>, n: nat) {
    && n <= |was| == |now| && !Inside(was, n)
    && (forall i :: 0 <= i < n ==> now[i] == if Covered(was, i) then DUMMY else was[i])
    && (forall i :: n <= i < |was| ==> now[i] == was[i])
  }

  lemma ReachedLater(was: seq<string>, now: seq<string>, n: nat, b: nat)
    requires Reached(was, now, n) && n <= b <= |was|
    requires forall i :: n <= i < b ==> !Opens(was[i])
    ensures Reached(was, now, b)
  {
    hide Opens, Ends;
    forall i | n <= i <= b ensures !Inside(was, i) {
      Quiet(was, n, i);
    }
  }

  lemma ReachedPastComment(was: seq<string>, now: seq<string>, now': seq<string>, b: nat, e: nat)
    requires Reached(was, now, b) && b <= e < |was| && Opens(was[b]) && Ends(was[e])
    requires forall i :: b <= i < e ==> !Ends(was[i])
    requires |now'| == |now| && forall i :: 0 <= i < |now| ==> now'[i] == if b <= i <= e then DUMMY else now[i]
    ensures Reached(was, now', e + 1)
  {
    hide Opens, Ends;
    forall i | b <= i <= e ensures Covered(was, i) {
      if b < i {
        StaysOpen(was, b, i);
      }
    }
  }

  // What has been erased when the pass stops.
  lemma ReachedDone(was: seq<string>, now: seq<string>, n: nat)
    requires Reached(was, now, n)
    requires n == |was| || (Opens(was[n]) && forall i :: n <= i < |was| ==> !Ends(was[i]))
    ensures now == Erased(was)
    ensures ErrorLine(was) == if n == |was| then None else Some(n + 1)
  {
    if n < |was| {
      StaysOpen(was, n, |was|);
    }
    hide Opens, Ends;
    assert Tail(was) == n;
  }

  method RemoveMultiLineComments(lines: array<string>) returns (error: Option<nat>)
    modifies lines
    ensures lines[..] == Erased(old(lines[..]))
    ensures error == ErrorLine(old(lines[..]))
  {
    hide Opens, Ends, Inside, Covered, Erased, ErrorLine;
    ghost var was := lines[..];
    NothingReached(was);
    var n := 0;
    while n < lines.Length
      invariant n <= lines.Length && Reached(was, lines[..], n)
      decreases lines.Length - n
    {
      var b := FindStart(lines, n);
      ReachedLater(was, lines[..], n, b);
      if b >= lines.Length {
        ReachedDone(was, lines[..], b);
        return None;
      }
      var e := FindEnd(lines, b);
      if e >= lines.Length {
        ReachedDone(was, lines[..], b);
        return Some(b + 1);
      }
      ghost var before := lines[..];
      EraseRange(lines, b, e + 1);
      ReachedPastComment(was, before, lines[..], b, e);
      n := e + 1;
    }
    ReachedDone(was, lines[..], n);
    error := None;
  }

  lemma NothingReached(was: seq<string>)
    ensures Reached(was, was, 0)
  {
  }
}
