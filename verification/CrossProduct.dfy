/** All combinations of elements of several sequences (packager.py, crossproduct). */
module CrossProduct {

  // Each tuple of front extended by each element of last, in that order.
  function Extend<T>(front: seq<seq<T>>, last: seq<T>): seq<seq<T>> {
    if front == [] then []
    else Extend(front[..|front| - 1], last) + seq(|last|, i requires 0 <= i < |last| => front[|front| - 1] + [last[i]])
  }

  function CrossProduct<T>(seqs: seq<seq<T>>): seq<seq<T>> {
    if |seqs| == 0 then []
    else if |seqs| == 1 then seq(|seqs[0]|, i requires 0 <= i < |seqs[0]| => [seqs[0][i]])
    else Extend(CrossProduct(seqs[..|seqs| - 1]), seqs[|seqs| - 1])
  }

  // ---- Positions as mixed-radix numbers ----

  function Product<T>(seqs: seq<seq<T>>): nat {
    if seqs == [] then 1 else Product(seqs[..|seqs| - 1]) * |seqs[|seqs| - 1]|
  }

  // The weight of digit j: the product of the lengths after it.
  function Weight<T>(seqs: seq<seq<T>>, j: nat): nat
    requires j < |seqs|
    decreases |seqs|
  {
    if j == |seqs| - 1 then 1 else Weight(seqs[..|seqs| - 1], j) * |seqs[|seqs| - 1]|
  }

  // The digits of k, the last sequence giving the lowest one.
  function Digits<T>(seqs: seq<seq<T>>, k: nat): (v: seq<nat>)
    requires Product(seqs) > 0
    ensures |v| == |seqs| && forall j :: 0 <= j < |v| ==> v[j] < |seqs[j]|
  {
    if seqs == [] then []
    else
      var n := |seqs| - 1;
      MulPos(Product(seqs[..n]), |seqs[n]|);
      Digits(seqs[..n], k / |seqs[n]|) + [k % |seqs[n]|]
  }

  predicate IsIndex<T>(seqs: seq<seq<T>>, v: seq<nat>) {
    |v| == |seqs| && forall j :: 0 <= j < |v| ==> v[j] < |seqs[j]|
  }

  // The position of an index vector.
  function Position<T>(seqs: seq<seq<T>>, v: seq<nat>): nat
    requires |v| == |seqs|
  {
    if seqs == [] then 0
    else
      var n := |seqs| - 1;
      Position(seqs[..n], v[..n]) * |seqs[n]| + v[n]
  }

  lemma MulPos(a: nat, b: nat)
    requires a * b > 0
    ensures a > 0 && b > 0
  {
  }

  lemma PosMul(a: nat, b: nat)
    requires a > 0 && b > 0
    ensures a * b > 0
  {
  }

  lemma {:induction false} ProductPositive<T>(seqs: seq<seq<T>>, j: nat)
    requires Product(seqs) > 0 && j < |seqs|
    ensures |seqs[j]| > 0 && Weight(seqs, j) > 0
    decreases |seqs|
  {
    var n := |seqs| - 1;
    MulPos(Product(seqs[..n]), |seqs[n]|);
    if j < n {
      ProductPositive(seqs[..n], j);
      PosMul(Weight(seqs[..n], j), |seqs[n]|);
    }
  }

  lemma MulStep(a: nat, b: nat, d: nat)
    ensures a < b ==> a * d + d <= b * d
    ensures a <= b ==> a * d <= b * d
  {
    if a < b {
      assert (a + 1) * d <= b * d;
      assert (a + 1) * d == a * d + d;
    }
  }

  lemma Euclid(k: nat, d: nat)
    requires d > 0
    ensures k == (k / d) * d + k % d && k % d < d
  {
  }

  lemma DivUnique(k: nat, d: nat, q: nat, r: nat)
    requires d > 0 && k == q * d + r && r < d
    ensures k / d == q && k % d == r
  {
    Euclid(k, d);
    MulStep(k / d, q, d);
    MulStep(q, k / d, d);
  }

  lemma Regroup(a: nat, w: nat, b: nat, n: nat)
    ensures (a * w + b) * n == a * (w * n) + b * n
  {
    assert (a * w + b) * n == (a * w) * n + b * n;
    assert (a * w) * n == a * (w * n);
  }

  lemma DigitBelow(b: nat, r: nat, w: nat, n: nat)
    requires b < w && r < n
    ensures b * n + r < w * n
  {
    MulStep(b, w, n);
  }

  lemma DivDivFrom(k: nat, n: nat, w: nat, q: nat, r: nat, a: nat, b: nat)
    requires k == q * n + r && r < n && q == a * w + b && b < w
    ensures w * n > 0 && k / (w * n) == a
  {
    Regroup(a, w, b, n);
    DigitBelow(b, r, w, n);
    DivUnique(k, w * n, a, b * n + r);
  }

  lemma DivDiv(k: nat, n: nat, w: nat)
    requires n > 0 && w > 0
    ensures w * n > 0 && (k / n) / w == k / (w * n)
  {
    Euclid(k, n);
    Euclid(k / n, w);
    DivDivFrom(k, n, w, k / n, k % n, (k / n) / w, (k / n) % w);
  }

  lemma {:induction false} ExtendAt<T>(front: seq<seq<T>>, last: seq<T>, k: nat)
    requires k < |front| * |last|
    ensures |last| > 0 && k / |last| < |front|
    ensures |Extend(front, last)| == |front| * |last|
    ensures Extend(front, last)[k] == front[k / |last|] + [last[k % |last|]]
  {
    var n, m := |last|, |front| - 1;
    MulPos(|front|, n);
    ExtendLength(front, last);
    ExtendLength(front[..m], last);
    assert |front| * n == m * n + n;
    if k < m * n {
      ExtendAt(front[..m], last, k);
    } else {
      DivUnique(k, n, m, k - m * n);
    }
  }

  lemma {:induction false} ExtendLength<T>(front: seq<seq<T>>, last: seq<T>)
    ensures |Extend(front, last)| == |front| * |last|
  {
    if front != [] {
      ExtendLength(front[..|front| - 1], last);
      assert |front| * |last| == (|front| - 1) * |last| + |last|;
    }
  }

  lemma {:induction false} Length<T>(seqs: seq<seq<T>>)
    requires seqs != []
    ensures |CrossProduct(seqs)| == Product(seqs)
  {
    var n := |seqs| - 1;
    if n > 0 {
      Length(seqs[..n]);
      ExtendLength(CrossProduct(seqs[..n]), seqs[n]);
    } else {
      assert Product(seqs[..0]) == 1;
    }
  }

  // The elements an index vector selects.
  function Select<T>(seqs: seq<seq<T>>, v: seq<nat>): seq<T>
    requires IsIndex(seqs, v)
  {
    if seqs == [] then [] else Select(seqs[..|seqs| - 1], v[..|v| - 1]) + [seqs[|seqs| - 1][v[|v| - 1]]]
  }

  lemma {:induction false} SelectAt<T>(seqs: seq<seq<T>>, v: seq<nat>, j: nat)
    requires IsIndex(seqs, v) && j < |seqs|
    ensures |Select(seqs, v)| == |seqs| && Select(seqs, v)[j] == seqs[j][v[j]]
  {
    var n := |seqs| - 1;
    if n > 0 {
      SelectAt(seqs[..n], v[..n], if j < n then j else 0);
    }
  }

  // Tuple k is the one its digits select.
  lemma {:induction false} TupleAt<T>(seqs: seq<seq<T>>, k: nat)
    requires seqs != [] && k < Product(seqs)
    ensures |CrossProduct(seqs)| == Product(seqs)
    ensures CrossProduct(seqs)[k] == Select(seqs, Digits(seqs, k))
  {
    var n := |seqs| - 1;
    var front, last := seqs[..n], seqs[n];
    Length(seqs);
    if n == 0 {
      assert Product(front) == 1;
      assert Select(front, []) == [];
      DivUnique(k, |last|, 0, k);
    } else {
      Length(front);
      ExtendAt(CrossProduct(front), last, k);
      TupleAt(front, k / |last|);
      assert Digits(seqs, k)[..n] == Digits(front, k / |last|);
    }
  }

  // Digit j is k divided by the lengths after j, modulo the length of j.
  lemma {:induction false} DigitAt<T>(seqs: seq<seq<T>>, k: nat, j: nat)
    requires j < |seqs| && Product(seqs) > 0
    ensures |seqs[j]| > 0 && Weight(seqs, j) > 0
    ensures Digits(seqs, k)[j] == (k / Weight(seqs, j)) % |seqs[j]|
    decreases |seqs|
  {
    var n := |seqs| - 1;
    ProductPositive(seqs, j);
    MulPos(Product(seqs[..n]), |seqs[n]|);
    if j < n {
      DigitAt(seqs[..n], k / |seqs[n]|, j);
      DivDiv(k, |seqs[n]|, Weight(seqs[..n], j));
    }
  }

  // Component j of tuple k, in closed form.
  lemma ComponentAt<T>(seqs: seq<seq<T>>, k: nat, j: nat)
    requires j < |seqs| && k < Product(seqs)
    ensures |CrossProduct(seqs)| == Product(seqs) && |CrossProduct(seqs)[k]| == |seqs|
    ensures |seqs[j]| > 0 && Weight(seqs, j) > 0
    ensures CrossProduct(seqs)[k][j] == seqs[j][(k / Weight(seqs, j)) % |seqs[j]|]
  {
    TupleAt(seqs, k);
    SelectAt(seqs, Digits(seqs, k), j);
    DigitAt(seqs, k, j);
  }

  lemma {:induction false} PositionOfDigits<T>(seqs: seq<seq<T>>, k: nat)
    requires k < Product(seqs)
    ensures Position(seqs, Digits(seqs, k)) == k
  {
    if seqs != [] {
      var n := |seqs| - 1;
      var m := |seqs[n]|;
      MulPos(Product(seqs[..n]), m);
      QuotientBelow(k, Product(seqs[..n]), m);
      PositionOfDigits(seqs[..n], k / m);
      assert Digits(seqs, k)[..n] == Digits(seqs[..n], k / m);
    }
  }

  lemma QuotientBelow(k: nat, a: nat, m: nat)
    requires m > 0 && k < a * m
    ensures k / m < a
  {
    Euclid(k, m);
    MulStep(a, k / m, m);
  }

  lemma DivMonotone(k: nat, k': nat, m: nat)
    requires m > 0 && k < k'
    ensures k / m <= k' / m && (k / m == k' / m ==> k % m < k' % m)
  {
    Euclid(k, m);
    Euclid(k', m);
    MulStep(k' / m, k / m, m);
  }

  lemma {:induction false} DigitsOfPosition<T>(seqs: seq<seq<T>>, v: seq<nat>)
    requires IsIndex(seqs, v)
    ensures Position(seqs, v) < Product(seqs) && Digits(seqs, Position(seqs, v)) == v
  {
    if seqs != [] {
      var n := |seqs| - 1;
      DigitsOfPosition(seqs[..n], v[..n]);
      var q, m := Position(seqs[..n], v[..n]), |seqs[n]|;
      DigitBelow(q, v[n], Product(seqs[..n]), m);
      DivUnique(q * m + v[n], m, q, v[n]);
    }
  }

  // Every combination of indices is at exactly one position, and the tuple there
  // is the one it selects.
  lemma EachCombinationOnce<T>(seqs: seq<seq<T>>, v: seq<nat>)
    requires seqs != [] && IsIndex(seqs, v)
    ensures Position(seqs, v) < Product(seqs) == |CrossProduct(seqs)|
    ensures CrossProduct(seqs)[Position(seqs, v)] == Select(seqs, v)
    ensures forall k: nat | k < Product(seqs) :: Digits(seqs, k) == v <==> k == Position(seqs, v)
  {
    Length(seqs);
    DigitsOfPosition(seqs, v);
    TupleAt(seqs, Position(seqs, v));
    forall k: nat | k < Product(seqs) && Digits(seqs, k) == v ensures k == Position(seqs, v) {
      PositionOfDigits(seqs, k);
    }
  }

  ghost predicate LexLess(u: seq<nat>, v: seq<nat>) {
    exists j :: 0 <= j < |u| && j < |v| && u[..j] == v[..j] && u[j] < v[j]
  }

  lemma LexExtend(u: seq<nat>, v: seq<nat>, a: nat, b: nat)
    requires |u| == |v| && (LexLess(u, v) || (u == v && a < b))
    ensures LexLess(u + [a], v + [b])
  {
    var u', v' := u + [a], v + [b];
    if LexLess(u, v) {
      var j :| 0 <= j < |u| && j < |v| && u[..j] == v[..j] && u[j] < v[j];
      assert u'[..j] == u[..j] && v'[..j] == v[..j];
    } else {
      assert u'[..|u|] == u && v'[..|u|] == v;
    }
  }

  // Later positions have lexicographically greater digits.
  lemma {:induction false} DigitsOrder<T>(seqs: seq<seq<T>>, k: nat, k': nat)
    requires k < k' < Product(seqs)
    ensures LexLess(Digits(seqs, k), Digits(seqs, k'))
    decreases |seqs|
  {
    hide LexLess, Product, Digits;
    LastSequence(seqs, k, k');
    var n := |seqs| - 1;
    var m, front := |seqs[n]|, seqs[..n];
    if k / m < k' / m {
      DigitsOrder(front, k / m, k' / m);
    }
    LexExtend(Digits(front, k / m), Digits(front, k' / m), k % m, k' % m);
  }

  // Of two tuples the later one is selected by the lexicographically greater indices.
  lemma LexicographicOrder<T>(seqs: seq<seq<T>>, k: nat, k': nat)
    requires k < k' < Product(seqs)
    ensures |CrossProduct(seqs)| == Product(seqs)
    ensures var u, v := Digits(seqs, k), Digits(seqs, k');
            LexLess(u, v) && CrossProduct(seqs)[k] == Select(seqs, u) && CrossProduct(seqs)[k'] == Select(seqs, v)
  {
    hide Product, CrossProduct, Digits, Select, LexLess;
    LastSequence(seqs, k, k');
    TupleAt(seqs, k);
    TupleAt(seqs, k');
    DigitsOrder(seqs, k, k');
  }

  // Two positions, seen as positions among the earlier sequences and a last digit.
  lemma LastSequence<T>(seqs: seq<seq<T>>, k: nat, k': nat)
    requires k < k' < Product(seqs)
    ensures seqs != []
    ensures var m, front := |seqs[|seqs| - 1]|, seqs[..|seqs| - 1];
            && m > 0 && k / m <= k' / m < Product(front) && (k / m == k' / m ==> k % m < k' % m)
            && Digits(seqs, k) == Digits(front, k / m) + [k % m]
            && Digits(seqs, k') == Digits(front, k' / m) + [k' % m]
  {
    var m, front := |seqs[|seqs| - 1]|, seqs[..|seqs| - 1];
    MulPos(Product(front), m);
    QuotientBelow(k', Product(front), m);
    DivMonotone(k, k', m);
  }

  lemma NoSequences<T>()
    ensures CrossProduct<T>([]) == []
  {
  }
}
