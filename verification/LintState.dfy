/** Which lint errors are printed and how they are counted (cpplint.py,
    _CppLintState, _ShouldPrintError, Error and _FunctionState.Check). */
module LintState {
  import opened Collections

  // ---- Filters ----

  const DEFAULT_FILTERS: seq<string> := ["-build/include_alpha"]

  predicate Signed(filter: string) {
    filter != [] && (filter[0] == '+' || filter[0] == '-')
  }

  predicate Matches(filter: string, category: string) {
    Signed(filter) && filter[1..] <= category
  }

  // i is the last filter that matches.
  predicate LastMatch(filters: seq<string>, category: string, i: int) {
    && 0 <= i < |filters| && Matches(filters[i], category)
    && forall j :: i < j < |filters| ==> !Matches(filters[j], category)
  }

  ghost predicate Filtered(filters: seq<string>, category: string) {
    exists i :: LastMatch(filters, category, i) && filters[i][0] == '-'
  }

  method IsFiltered(filters: seq<string>, category: string) returns (filtered: bool)
    requires forall i :: 0 <= i < |filters| ==> Signed(filters[i])
    ensures filtered <==> Filtered(filters, category)
  {
    filtered := false;
    ghost var last := -1;
    for k := 0 to |filters|
      invariant last < k && (last == -1 ==> !filtered && forall j :: 0 <= j < k ==> !Matches(filters[j], category))
      invariant last != -1 ==> 0 <= last && Matches(filters[last], category) && filtered == (filters[last][0] == '-')
      invariant last != -1 ==> forall j :: last < j < k ==> !Matches(filters[j], category)
    {
      if filters[k][0] == '-' {
        if filters[k][1..] <= category {
          filtered, last := true, k;
        }
      } else {
        if filters[k][1..] <= category {
          filtered, last := false, k;
        }
      }
    }
    if last != -1 {
      assert LastMatch(filters, category, last);
    }
  }

  predicate SameSign(filters: seq<string>, sign: char) {
    forall i :: 0 <= i < |filters| ==> Signed(filters[i]) && filters[i][0] == sign
  }

  predicate AnyMatches(filters: seq<string>, category: string) {
    exists i :: 0 <= i < |filters| && Matches(filters[i], category)
  }

  // Filters after a prefix decide as soon as one of them matches.
  lemma {:induction false} LaterFiltersDecide(a: seq<string>, b: seq<string>, category: string)
    ensures Filtered(a + b, category) <==>
            if AnyMatches(b, category) then Filtered(b, category) else Filtered(a, category)
  {
    var both := a + b;
    if AnyMatches(b, category) {
      var m := FindLast(b, category);
      forall j | |a| + m < j < |both| ensures !Matches(both[j], category) {
        assert both[j] == b[j - |a|];
      }
      assert LastMatch(both, category, |a| + m);
      UniqueLast(both, category, |a| + m);
      UniqueLast(b, category, m);
    } else {
      forall j | |a| <= j < |both| ensures !Matches(both[j], category) {
        assert both[j] == b[j - |a|];
      }
      if i :| LastMatch(both, category, i) && both[i][0] == '-' {
        assert i < |a| && both[i] == a[i];
        forall j | i < j < |a| ensures !Matches(a[j], category) {
          assert both[j] == a[j];
        }
        assert LastMatch(a, category, i);
      }
      if i :| LastMatch(a, category, i) && a[i][0] == '-' {
        forall j | i < j < |both| ensures !Matches(both[j], category) {
          assert both[j] == if j < |a| then a[j] else b[j - |a|];
        }
        assert LastMatch(both, category, i);
      }
    }
  }

  lemma UniqueLast(filters: seq<string>, category: string, i: int)
    requires LastMatch(filters, category, i)
    ensures Filtered(filters, category) <==> filters[i][0] == '-'
  {
    forall j | LastMatch(filters, category, j) ensures j == i {
    }
  }

  lemma {:induction false} FindLast(filters: seq<string>, category: string) returns (i: int)
    requires AnyMatches(filters, category)
    ensures LastMatch(filters, category, i)
  {
    var n := |filters| - 1;
    if Matches(filters[n], category) {
      return n;
    }
    i := FindLast(filters[..n], category);
  }

  // A command line flag that matches beats the defaults.
  lemma FlagsBeatDefaults(flags: seq<string>, category: string)
    requires AnyMatches(flags, category)
    ensures Filtered(DEFAULT_FILTERS + flags, category) <==> Filtered(flags, category)
  {
    LaterFiltersDecide(DEFAULT_FILTERS, flags, category);
  }

  // Within a stretch of filters of one sign the order does not matter.
  lemma OrderWithinSign(a: seq<string>, b: seq<string>, b': seq<string>, c: seq<string>, sign: char, category: string)
    requires SameSign(b, sign) && multiset(b) == multiset(b')
    ensures Filtered(a + b + c, category) <==> Filtered(a + b' + c, category)
  {
    SameSignFiltered(b, sign, category);
    forall i | 0 <= i < |b'| ensures b'[i] in b {
      assert b'[i] in multiset(b');
    }
    forall i | 0 <= i < |b| ensures b[i] in b' {
      assert b[i] in multiset(b);
    }
    SameSignFiltered(b', sign, category);
    LaterFiltersDecide(a + b, c, category);
    LaterFiltersDecide(a, b, category);
    LaterFiltersDecide(a + b', c, category);
    LaterFiltersDecide(a, b', category);
    assert AnyMatches(b, category) <==> AnyMatches(b', category);
  }

  lemma SameSignFiltered(b: seq<string>, sign: char, category: string)
    requires SameSign(b, sign)
    ensures Filtered(b, category) <==> sign == '-' && AnyMatches(b, category)
  {
    if AnyMatches(b, category) {
      var i := FindLast(b, category);
      UniqueLast(b, category, i);
    }
  }

  lemma SignedIff(filter: string)
    ensures Signed(filter) <==> "+" <= filter || "-" <= filter
  {
  }

  // One more filter decides for the categories that begin with it.
  lemma FilterAppended(filters: seq<string>, sign: char, prefix: string, category: string)
    requires sign == '+' || sign == '-'
    ensures !Filtered([], category)
    ensures Filtered(filters + [[sign] + prefix], category) <==>
            if prefix <= category then sign == '-' else Filtered(filters, category)
  {
    var last := [[sign] + prefix];
    assert last[0][1..] == prefix;
    LaterFiltersDecide(filters, last, category);
    assert AnyMatches(last, category) <==> prefix <= category;
    if prefix <= category {
      assert LastMatch(last, category, 0);
      UniqueLast(last, category, 0);
    }
  }

  // Without flags only the alphabetical check of includes is off.
  lemma DefaultsAlone(category: string)
    ensures Filtered(DEFAULT_FILTERS, category) <==> "build/include_alpha" <= category
  {
    FilterAppended([], '-', "build/include_alpha", category);
    assert ['-'] + "build/include_alpha" == "-build/include_alpha";
    assert [] + ["-build/include_alpha"] == DEFAULT_FILTERS;
  }

  // ---- Counts by category ----

  datatype Counting = Total | TopLevel | Detailed

  // category.split('/')[0]
  function Head(category: string): string {
    if category == [] || category[0] == '/' then [] else [category[0]] + Head(category[1..])
  }

  // The part before the first slash.
  lemma {:induction false} HeadIs(category: string)
    ensures forall i :: 0 <= i < |Head(category)| ==> Head(category)[i] != '/'
    ensures category == Head(category) || Head(category) + "/" <= category
  {
    if category != [] && category[0] != '/' {
      HeadIs(category[1..]);
      assert category == [category[0]] + category[1..];
    }
  }

  function Key(counting: Counting, category: string): string {
    if counting.TopLevel? then Head(category) else category
  }

  type Counts = map<string, nat>

  function Bump(counts: Counts, key: string): Counts {
    counts[key := (if key in counts then counts[key] else 0) + 1]
  }

  // The counts after errors of these categories, in this order.
  function CountsOf(counting: Counting, errors: seq<string>): Counts {
    if errors == [] || counting.Total? then map[]
    else Bump(CountsOf(counting, errors[..|errors| - 1]), Key(counting, errors[|errors| - 1]))
  }

  ghost function SumOver(keys: set<string>, counts: Counts): nat
    requires keys <= counts.Keys
  {
    if keys == {} then 0
    else var k :| k in keys; counts[k] + SumOver(keys - {k}, counts)
  }

  lemma {:induction false} SumRemove(keys: set<string>, counts: Counts, k: string)
    requires keys <= counts.Keys && k in keys
    ensures SumOver(keys, counts) == counts[k] + SumOver(keys - {k}, counts)
  {
    var j :| j in keys && SumOver(keys, counts) == counts[j] + SumOver(keys - {j}, counts);
    if j != k {
      SumRemove(keys - {j}, counts, k);
      SumRemove(keys - {k}, counts, j);
      assert keys - {j} - {k} == keys - {k} - {j};
    }
  }

  lemma {:induction false} SumSame(keys: set<string>, a: Counts, b: Counts)
    requires keys <= a.Keys && keys <= b.Keys && forall k :: k in keys ==> a[k] == b[k]
    ensures SumOver(keys, a) == SumOver(keys, b)
  {
    if keys != {} {
      var k :| k in keys;
      SumRemove(keys, a, k);
      SumRemove(keys, b, k);
      SumSame(keys - {k}, a, b);
    }
  }

  // One more error with key k adds one to the sum over any keys that include k.
  lemma SumBump(keys: set<string>, counts: Counts, k: string)
    requires k in keys && keys <= counts.Keys + {k}
    ensures SumOver(keys, Bump(counts, k)) == SumOver(keys * counts.Keys, counts) + 1
  {
    var rest := keys - {k};
    SumRemove(keys, Bump(counts, k), k);
    SumSame(rest, counts, Bump(counts, k));
    if k in counts {
      assert keys * counts.Keys == keys;
      SumRemove(keys, counts, k);
    } else {
      assert keys * counts.Keys == rest;
    }
  }

  // The counts by category add up to the number of errors.
  lemma {:induction false} CountsAddUp(counting: Counting, errors: seq<string>)
    requires !counting.Total?
    ensures SumOver(CountsOf(counting, errors).Keys, CountsOf(counting, errors)) == |errors|
  {
    if errors != [] {
      var n := |errors| - 1;
      var before, k := CountsOf(counting, errors[..n]), Key(counting, errors[n]);
      CountsAddUp(counting, errors[..n]);
      SumBump(before.Keys + {k}, before, k);
      assert (before.Keys + {k}) * before.Keys == before.Keys;
      assert CountsOf(counting, errors).Keys == before.Keys + {k};
    }
  }

  // In detail, each category is counted as often as it was met.
  lemma {:induction false} DetailedIsMultiset(errors: seq<string>, category: string)
    ensures var counts := CountsOf(Detailed, errors);
            && (category in counts <==> category in errors)
            && (category in counts ==> counts[category] == multiset(errors)[category])
  {
    if errors != [] {
      var n := |errors| - 1;
      DetailedIsMultiset(errors[..n], category);
      assert errors == errors[..n] + [errors[n]];
    }
  }

  ghost function Group(detailed: Counts, head: string): set<string> {
    set c | c in detailed && Head(c) == head
  }

  // The top level counts are the detailed ones, grouped by the part before the slash.
  lemma {:induction false} TopLevelGroups(errors: seq<string>, head: string)
    ensures var top, detailed := CountsOf(TopLevel, errors), CountsOf(Detailed, errors);
            && (head in top <==> Group(detailed, head) != {})
            && (head in top ==> top[head] == SumOver(Group(detailed, head), detailed))
  {
    if errors != [] {
      var n := |errors| - 1;
      var e := errors[n];
      var before := CountsOf(Detailed, errors[..n]);
      var after := CountsOf(Detailed, errors);
      TopLevelGroups(errors[..n], head);
      if Head(e) == head {
        assert Group(after, head) == Group(before, head) + {e};
        SumBump(Group(after, head), before, e);
        assert Group(after, head) * before.Keys == Group(before, head);
        assert e in Group(after, head);
      } else {
        assert Group(after, head) == Group(before, head);
        SumSame(Group(before, head), before, after);
      }
    }
  }

  lemma {:induction false} Counted(counting: Counting, errors: seq<string>, i: nat)
    requires !counting.Total? && i < |errors|
    ensures Key(counting, errors[i]) in CountsOf(counting, errors)
  {
    hide Key;
    if i < |errors| - 1 {
      Counted(counting, errors[..|errors| - 1], i);
    }
  }

  lemma {:induction false} TopLevelKeys(errors: seq<string>, key: string)
    requires key in CountsOf(TopLevel, errors)
    ensures Head(key) == key
  {
    var n := |errors| - 1;
    if key in CountsOf(TopLevel, errors[..n]) {
      TopLevelKeys(errors[..n], key);
    } else {
      HeadOfHead(errors[n]);
    }
  }

  predicate NoSlashes(errors: seq<string>) {
    forall i :: 0 <= i < |errors| ==> Head(errors[i]) == errors[i]
  }

  lemma {:induction false} SameCounts(errors: seq<string>)
    requires NoSlashes(errors)
    ensures CountsOf(TopLevel, errors) == CountsOf(Detailed, errors)
  {
    if errors != [] {
      SameCounts(errors[..|errors| - 1]);
    }
  }

  lemma {:induction false} HeadOfHead(category: string)
    ensures Head(Head(category)) == Head(category)
  {
    if category != [] && category[0] != '/' {
      HeadOfHead(category[1..]);
    }
  }

  // Two styles give the same counts exactly if they are the same, nothing was
  // counted, or both count by category and no category has a part after a slash.
  lemma SameCountsIff(a: Counting, b: Counting, errors: seq<string>)
    ensures CountsOf(a, errors) == CountsOf(b, errors) <==>
            a == b || errors == [] || (!a.Total? && !b.Total? && NoSlashes(errors))
  {
    hide Head, CountsOf;
    NothingCounted(a, errors);
    NothingCounted(b, errors);
    if errors != [] {
      Counted(TopLevel, errors, 0);
      Counted(Detailed, errors, 0);
    }
    if NoSlashes(errors) {
      SameCounts(errors);
    } else {
      var i :| 0 <= i < |errors| && Head(errors[i]) != errors[i];
      Counted(Detailed, errors, i);
      if errors[i] in CountsOf(TopLevel, errors) {
        TopLevelKeys(errors, errors[i]);
      }
    }
  }

  lemma NothingCounted(counting: Counting, errors: seq<string>)
    ensures counting.Total? || errors == [] ==> CountsOf(counting, errors) == map[]
  {
  }

  // ---- Function size ----

  function Pow2(n: nat): (p: nat)
    ensures p > 0
  {
    if n == 0 then 1 else 2 * Pow2(n - 1)
  }

  // int(math.log(n, 2)), exactly.
  function FloorLog2(n: nat): nat
    requires n > 0
  {
    if n < 2 then 0 else 1 + FloorLog2(n / 2)
  }

  lemma {:induction false} LogBounds(n: nat)
    requires n > 0
    ensures Pow2(FloorLog2(n)) <= n < Pow2(FloorLog2(n) + 1)
  {
    if n >= 2 {
      LogBounds(n / 2);
    }
  }

  lemma {:induction false} Pow2Monotone(m: nat, n: nat)
    requires m <= n
    ensures Pow2(m) <= Pow2(n)
  {
    if m < n {
      Pow2Monotone(m, n - 1);
    }
  }

  const NORMAL_TRIGGER: nat := 250
  const TEST_TRIGGER: nat := 400

  function Base(isTest: bool): (b: nat)
    ensures b > 0
  {
    if isTest then TEST_TRIGGER else NORMAL_TRIGGER
  }

  datatype SizeVerdict = Fits | TooLong(level: nat) | LogOfZero

  // The trigger is base * 2**verbosity, a fraction if the verbosity is negative.
  predicate Exceeds(lines: nat, base: nat, verbosity: int) {
    if verbosity >= 0 then lines > base * Pow2(verbosity) else lines * Pow2(-verbosity) > base
  }

  // The confidence of the size error, if the function is too long for the
  // verbosity. A negative verbosity lets a function shorter than the base pass
  // the trigger, and the logarithm of 0 raises.
  method CheckSize(lines: nat, isTest: bool, verbosity: int) returns (r: SizeVerdict)
    ensures r == Fits <==> !Exceeds(lines, Base(isTest), verbosity)
    ensures r == LogOfZero <==> Exceeds(lines, Base(isTest), verbosity) && lines < Base(isTest)
    ensures r == LogOfZero ==> verbosity < 0
    ensures r.TooLong? ==> r.level <= 5 && (r.level >= verbosity <==> verbosity <= 5)
    ensures r.TooLong? ==> Base(isTest) * Pow2(r.level) <= lines
    ensures r.TooLong? && r.level < 5 ==> lines < Base(isTest) * Pow2(r.level + 1)
    ensures verbosity == 0 ==> (r == Fits <==> lines <= if isTest then 400 else 250)
    ensures var n := lines / if isTest then 400 else 250;
            r.TooLong? ==> r.level == if n < 2 then 0 else if n < 4 then 1 else if n < 8 then 2
                                      else if n < 16 then 3 else if n < 32 then 4 else 5
  {
    var base := Base(isTest);
    Powers();
    AboveBase(lines, base, verbosity);
    if !Exceeds(lines, base, verbosity) {
      return Fits;
    }
    if lines / base == 0 {
      return LogOfZero;
    }
    SizeLevel(lines, base, if verbosity >= 0 then verbosity else 0);
    var errorLevel := FloorLog2(lines / base);
    if errorLevel > 5 {
      errorLevel := 5;
    }
    r := TooLong(errorLevel);
  }

  lemma Powers()
    ensures Pow2(0) == 1 && Pow2(1) == 2 && Pow2(2) == 4 && Pow2(3) == 8 && Pow2(4) == 16 && Pow2(5) == 32
  {
    assert Pow2(4) == 2 * Pow2(3) && Pow2(3) == 2 * Pow2(2) && Pow2(2) == 2 * Pow2(1);
  }

  lemma AboveBase(lines: nat, base: nat, verbosity: int)
    requires base > 0
    ensures verbosity >= 0 && Exceeds(lines, base, verbosity) ==> lines > base
    ensures lines / base == 0 <==> lines < base
  {
    if verbosity >= 0 {
      TimesAtMost(base, 1, Pow2(verbosity));
    }
  }

  lemma SizeLevel(lines: nat, base: nat, verbosity: nat)
    requires base > 0 && lines >= base * Pow2(verbosity)
    ensures lines / base > 0 && FloorLog2(lines / base) >= verbosity
    ensures forall l :: 0 <= l <= FloorLog2(lines / base) ==> base * Pow2(l) <= lines
    ensures lines < base * Pow2(FloorLog2(lines / base) + 1)
  {
    hide Pow2, FloorLog2;
    var q := lines / base;
    QuotientAtLeast(lines, base, Pow2(verbosity));
    var level := FloorLog2(q);
    LogBounds(q);
    if level < verbosity {
      Pow2Monotone(level + 1, verbosity);
    }
    forall l | 0 <= l <= level ensures base * Pow2(l) <= lines {
      Pow2Monotone(l, level);
      TimesAtMost(base, Pow2(l), q);
    }
    TimesAtMost(base, q + 1, Pow2(level + 1));
    assert base * (q + 1) == base * q + base;
  }

  lemma QuotientAtLeast(n: nat, d: nat, k: nat)
    requires d > 0 && n >= d * k
    ensures n / d >= k && d * (n / d) <= n < d * (n / d) + d
  {
    TimesStep(d, n / d, k);
  }

  lemma TimesStep(d: nat, a: nat, b: nat)
    ensures a < b ==> d * a + d <= d * b
  {
    if a < b {
      TimesAtMost(d, a + 1, b);
      assert d * (a + 1) == d * a + d;
    }
  }

  lemma TimesAtMost(d: nat, a: nat, b: nat)
    requires a <= b
    ensures d * a <= d * b
  {
  }

  // ---- The linter's global state ----

  function NonEmpty(parts: seq<string>): seq<string> {
    if parts == [] then []
    else if parts[|parts| - 1] == [] then NonEmpty(parts[..|parts| - 1])
    else NonEmpty(parts[..|parts| - 1]) + [parts[|parts| - 1]]
  }

  // The parts keep their order.
  lemma {:induction false} NonEmptyInOrder(a: seq<string>, part: string, b: seq<string>)
    ensures NonEmpty(a + [part] + b) == NonEmpty(a) + (if part == "" then [] else [part]) + NonEmpty(b)
    decreases |b|
  {
    var all := a + [part] + b;
    if b == [] {
      assert all[..|all| - 1] == a;
    } else {
      assert all[..|all| - 1] == a + [part] + b[..|b| - 1];
      NonEmptyInOrder(a, part, b[..|b| - 1]);
    }
  }

  class State {
    var verboseLevel: int
    var errorCount: nat
    var filters: seq<string>
    var counting: Counting
    var errorsByCategory: Counts
    ghost var printed: seq<string>   // the categories of the errors counted since the last reset

    ghost predicate Valid()
      reads this
    {
      && (forall i :: 0 <= i < |filters| ==> Signed(filters[i]))
      && errorCount == |printed| && errorsByCategory == CountsOf(counting, printed)
    }

    constructor ()
      ensures Valid() && filters == DEFAULT_FILTERS && printed == [] && verboseLevel == 1 && counting == Total
    {
      verboseLevel, errorCount, filters, counting := 1, 0, DEFAULT_FILTERS, Total;
      errorsByCategory, printed := map[], [];
    }

    // parts are the comma-separated filters, blanks stripped; not ok is a ValueError,
    // raised after the filters were replaced.
    method SetFilters(parts: seq<string>) returns (ok: bool)
      requires Valid()
      modifies this`filters
      ensures filters == DEFAULT_FILTERS + NonEmpty(parts)
      ensures ok <==> forall i :: 0 <= i < |filters| ==> Signed(filters[i])
      ensures ok ==> Valid()
    {
      filters := DEFAULT_FILTERS;
      for i := 0 to |parts|
        invariant filters == DEFAULT_FILTERS + NonEmpty(parts[..i])
      {
        assert parts[..i + 1][..i] == parts[..i];
        if parts[i] != [] {
          filters := filters + [parts[i]];
        }
      }
      assert parts[..|parts|] == parts;
      for i := 0 to |filters|
        invariant forall j :: 0 <= j < i ==> Signed(filters[j])
      {
        if !Signed(filters[i]) {
          return false;
        }
      }
      ok := true;
    }

    // The counts so far are not counted again, so they fit the new style only if
    // it would have given the same.
    method SetCountingStyle(style: Counting)
      requires Valid()
      modifies this`counting
      ensures counting == style
      ensures Valid() <==> style == old(counting) || printed == [] ||
                           (!style.Total? && !old(counting).Total? && NoSlashes(printed))
    {
      SameCountsIff(old(counting), style, printed);
      counting := style;
    }

    method SetVerboseLevel(level: int) returns (last: int)
      requires Valid()
      modifies this`verboseLevel
      ensures Valid() && verboseLevel == level && last == old(verboseLevel)
    {
      last, verboseLevel := verboseLevel, level;
    }

    method ResetErrorCounts()
      requires Valid()
      modifies this`errorCount, this`errorsByCategory, this`printed
      ensures Valid() && printed == []
    {
      errorCount, errorsByCategory, printed := 0, map[], [];
    }

    method IncrementErrorCount(category: string)
      requires Valid()
      modifies this`errorCount, this`errorsByCategory, this`printed
      ensures Valid() && printed == old(printed) + [category]
    {
      errorCount := errorCount + 1;
      if counting.TopLevel? || counting.Detailed? {
        var key := category;
        if !counting.Detailed? {
          key := Head(category);
        }
        if key !in errorsByCategory {
          errorsByCategory := errorsByCategory[key := 0];
        }
        errorsByCategory := errorsByCategory[key := errorsByCategory[key] + 1];
      }
      printed := printed + [category];
      assert printed[..|printed| - 1] == old(printed);
    }

    // suppressed tells whether a NOLINT comment covers the category on the line.
    method ShouldPrintError(category: string, confidence: nat, suppressed: bool) returns (shown: bool)
      requires Valid()
      ensures shown <==> !suppressed && confidence >= verboseLevel && !Filtered(filters, category)
    {
      if suppressed || confidence < verboseLevel {
        return false;
      }
      var filtered := IsFiltered(filters, category);
      shown := !filtered;
    }

    method Error(category: string, confidence: nat, suppressed: bool)
      requires Valid()
      modifies this`errorCount, this`errorsByCategory, this`printed
      ensures Valid()
      ensures printed == if !suppressed && confidence >= verboseLevel && !Filtered(filters, category)
                         then old(printed) + [category] else old(printed)
    {
      var p := ShouldPrintError(category, confidence, suppressed);
      if p {
        IncrementErrorCount(category);
      }
    }
  }
}
