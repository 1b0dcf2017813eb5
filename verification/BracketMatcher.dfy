/** Extraction of the text between matching brackets (cpplint.py, _GetTextInside). */
module BracketMatcher {
  import opened Collections

  datatype Extract = Inside(text: string) | NotFound | AssertionError

  predicate IsOpen(c: char) {
    c == '(' || c == '{' || c == '['
  }

  predicate IsClose(c: char) {
    c == ')' || c == '}' || c == ']'
  }

  function CloseOf(c: char): (d: char)
    requires IsOpen(c)
    ensures IsClose(d)
  {
    if c == '(' then ')' else if c == '{' then '}' else ']'
  }

  // ---- The bracket language, given by its derivations ----

  datatype Nest =
    | Empty
    | Plain(c: char, rest: Nest)
    | Group(open: char, inner: Nest, rest: Nest)

  predicate WellFormed(t: Nest) {
    match t
    case Empty => true
    case Plain(c, rest) => !IsOpen(c) && !IsClose(c) && WellFormed(rest)
    case Group(open, inner, rest) => IsOpen(open) && WellFormed(inner) && WellFormed(rest)
  }

  function Yield(t: Nest): string
    requires WellFormed(t)
  {
    match t
    case Empty => ""
    case Plain(c, rest) => [c] + Yield(rest)
    case Group(open, inner, rest) => [open] + Yield(inner) + [CloseOf(open)] + Yield(rest)
  }

  ghost predicate Balanced(s: string) {
    exists t :: WellFormed(t) && Yield(t) == s
  }

  // The text after position start begins with s, then the bracket that closes
  // the one just before start; and s is balanced.
  ghost predicate Delimits(text: string, start: nat, s: string)
    requires 0 < start <= |text| && IsOpen(text[start - 1])
  {
    Balanced(s) && s + [CloseOf(text[start - 1])] <= text[start..]
  }

  // ---- The scan, as a function of the stack and the unread text ----

  function Later(r: int): int {
    if r < 0 then -1 else r + 1
  }

  // How many characters are read until the stack is empty; -1 if that never happens.
  function Scan(stack: seq<char>, u: string): (r: int)
    ensures -1 <= r <= |u|
    ensures r == 0 ==> stack == []
    decreases |u|
  {
    if stack == [] then 0
    else if u == [] then -1
    else if u[0] == stack[|stack| - 1] then Later(Scan(stack[..|stack| - 1], u[1..]))
    else if IsClose(u[0]) then -1
    else if IsOpen(u[0]) then Later(Scan(stack + [CloseOf(u[0])], u[1..]))
    else Later(Scan(stack, u[1..]))
  }

  ghost predicate ClosersOnly(stack: seq<char>) {
    forall i :: 0 <= i < |stack| ==> IsClose(stack[i])
  }

  // A balanced text is read without touching the stack below it.
  lemma {:induction false} ScanPassesBalanced(t: Nest, stack: seq<char>, u: string)
    requires WellFormed(t) && stack != [] && ClosersOnly(stack)
    ensures Scan(stack, Yield(t) + u) == if Scan(stack, u) < 0 then -1 else |Yield(t)| + Scan(stack, u)
    decreases t
  {
    var v := Yield(t) + u;
    match t
    case Empty =>
      assert v == u;
    case Plain(c, rest) =>
      assert v[1..] == Yield(rest) + u;
      ScanPassesBalanced(rest, stack, u);
    case Group(open, inner, rest) =>
      var w := [CloseOf(open)] + Yield(rest) + u;
      var pushed := stack + [CloseOf(open)];
      assert v[1..] == Yield(inner) + w;
      ScanPassesBalanced(inner, pushed, w);
      assert pushed[..|pushed| - 1] == stack;
      assert w[1..] == Yield(rest) + u;
      ScanPassesBalanced(rest, stack, u);
  }

  // Conversely, a scan that empties the stack read a balanced text, the top of
  // the stack, and then whatever empties the remaining stack.
  lemma {:induction false} ScanSplits(stack: seq<char>, u: string) returns (t: Nest, after: string)
    requires stack != [] && ClosersOnly(stack) && Scan(stack, u) >= 0
    ensures WellFormed(t)
    ensures u == Yield(t) + [stack[|stack| - 1]] + after
    ensures Scan(stack[..|stack| - 1], after) == Scan(stack, u) - |Yield(t)| - 1 >= 0
    decreases |u|
  {
    var rest: Nest;
    if u[0] == stack[|stack| - 1] {
      t, after := Empty, u[1..];
    } else if IsOpen(u[0]) {
      var pushed := stack + [CloseOf(u[0])];
      var inner, between := ScanSplits(pushed, u[1..]);
      assert pushed[..|pushed| - 1] == stack;
      rest, after := ScanSplits(stack, between);
      t := Group(u[0], inner, rest);
      GroupYield(u, inner, between, rest, stack[|stack| - 1], after);
    } else {
      rest, after := ScanSplits(stack, u[1..]);
      t := Plain(u[0], rest);
      assert u == [u[0]] + u[1..];
    }
  }

  lemma GroupYield(u: string, inner: Nest, between: string, rest: Nest, close: char, after: string)
    requires u != [] && IsOpen(u[0]) && WellFormed(inner) && WellFormed(rest)
    requires u[1..] == Yield(inner) + [CloseOf(u[0])] + between
    requires between == Yield(rest) + [close] + after
    ensures u == Yield(Group(u[0], inner, rest)) + [close] + after
  {
    assert u == [u[0]] + u[1..];
  }

  // The scan from a single closer finds s exactly when s is balanced and followed by it.
  lemma ScanDecides(close: char, u: string, s: string)
    requires IsClose(close)
    ensures Balanced(s) && s + [close] <= u <==> Scan([close], u) == |s| + 1 && s == u[..|s|]
  {
    if Balanced(s) && s + [close] <= u {
      var t :| WellFormed(t) && Yield(t) == s;
      var rest := u[|s|..];
      assert u == s + rest;
      ScanPassesBalanced(t, [close], rest);
    }
    if Scan([close], u) == |s| + 1 && s == u[..|s|] {
      var t, after := ScanSplits([close], u);
      assert Yield(t) == s;
    }
  }

  lemma ScanVerdict(text: string, start: nat)
    requires 0 < start <= |text| && IsOpen(text[start - 1])
    ensures forall s :: Delimits(text, start, s) <==>
                        Scan([CloseOf(text[start - 1])], text[start..]) == |s| + 1 && s == text[start..][..|s|]
  {
    forall s {
      ScanDecides(CloseOf(text[start - 1]), text[start..], s);
    }
  }

  // ---- The brackets themselves ----

  predicate IsPlain(s: string) {
    forall i :: 0 <= i < |s| ==> s[i] !in "(){}[]"
  }

  lemma {:induction false} PlainNest(s: string) returns (t: Nest)
    requires IsPlain(s)
    ensures WellFormed(t) && Yield(t) == s
  {
    if s == [] {
      return Empty;
    }
    var rest := PlainNest(s[1..]);
    t := Plain(s[0], rest);
    assert s == [s[0]] + s[1..] && s[0] !in "(){}[]";
  }

  // Around text without brackets, each opener is closed by its own closer and
  // makes nothing of the other two.
  lemma PairsMatch(before: string, i: nat, s: string, j: nat, after: string)
    requires i < 3 && j < 3 && IsPlain(s)
    ensures var text := before + ["({["[i]] + s + [")}]"[j]] + after;
            var start := |before| + 1;
            && IsOpen(text[start - 1]) && (i == j ==> Delimits(text, start, s))
            && (i != j ==> forall u :: !Delimits(text, start, u))
  {
    var text := before + ["({["[i]] + s + [")}]"[j]] + after;
    var start := |before| + 1;
    var close, other := CloseOf(text[start - 1]), ")}]"[j];
    assert close == ")}]"[i];
    var t := PlainNest(s);
    assert text[start..] == s + ([other] + after);
    ScanPassesBalanced(t, [close], [other] + after);
    ScanVerdict(text, start);
    assert i == j ==> s + [close] <= text[start..];
    hide Balanced, WellFormed, Yield;
  }

  lemma ScanEnd(stack: seq<char>, u: string)
    ensures stack == [] ==> Scan(stack, u) == 0
    ensures stack != [] && u == [] ==> Scan(stack, u) == -1
  {
  }

  // The loop's step: what remains to be read after one more character.
  lemma ScanStep(stack: seq<char>, text: string, position: nat)
    requires stack != [] && position < |text|
    ensures var c, top := text[position], stack[|stack| - 1];
            Scan(stack, text[position..]) ==
            if c == top then Later(Scan(stack[..|stack| - 1], text[position + 1..]))
            else if IsClose(c) then -1
            else if IsOpen(c) then Later(Scan(stack + [CloseOf(c)], text[position + 1..]))
            else Later(Scan(stack, text[position + 1..]))
  {
    assert text[position..][1..] == text[position + 1..];
  }

  // ---- The method: start is the end of the pattern's first match, if any ----

  method GetTextInside(text: string, start: Option<nat>) returns (r: Extract)
    requires start.Some? ==> start.value <= |text|
    ensures start.None? ==> r == NotFound
    ensures r == AssertionError <==>
            start.Some? && (start.value == 0 || !IsOpen(text[start.value - 1]))
    ensures start.Some? && r != AssertionError ==>
              forall s :: Delimits(text, start.value, s) <==> r == Inside(s)
  {
    hide Scan, Delimits;
    if start.None? {
      return NotFound;
    }
    var begin := start.value;
    if begin == 0 || !IsOpen(text[begin - 1]) {
      return AssertionError;
    }
    var close := CloseOf(text[begin - 1]);
    var stack := [close];
    var position := begin;
    ghost var total := Scan([close], text[begin..]);
    while stack != [] && position < |text|
      invariant begin <= position <= |text|
      invariant stack == [] ==> position > begin
      invariant total == if Scan(stack, text[position..]) < 0 then -1
                         else position - begin + Scan(stack, text[position..])
      decreases |text| - position
    {
      ScanStep(stack, text, position);
      if text[position] == stack[|stack| - 1] {
        stack := stack[..|stack| - 1];
      } else if IsClose(text[position]) {
        ScanVerdict(text, begin);
        return NotFound;
      } else if IsOpen(text[position]) {
        stack := stack + [CloseOf(text[position])];
      }
      position := position + 1;
    }
    ScanEnd(stack, text[position..]);
    ScanVerdict(text, begin);
    if stack != [] {
      return NotFound;
    }
    r := Inside(text[begin..position - 1]);
    assert r.text == text[begin..][..position - 1 - begin];
  }
}
