/** What several modules share: an optional value, and sequences without repetition. */
module Collections {

  datatype Option<T> = None | Some(value: T)

  predicate Distinct<T(==)>(s: seq<T>) {
    forall i, j :: 0 <= i < j < |s| ==> s[i] != s[j]
  }

  lemma DistinctAppend<T>(s: seq<T>, x: T)
    ensures Distinct(s + [x]) <==> Distinct(s) && x !in s
  {
    if Distinct(s + [x]) {
      forall i, j | 0 <= i < j < |s| ensures s[i] != s[j] {
        assert (s + [x])[i] != (s + [x])[j];
      }
      forall i | 0 <= i < |s| ensures s[i] != x {
        assert (s + [x])[i] != (s + [x])[|s|];
      }
    }
  }

  lemma PrefixOfLonger<T>(a: seq<T>, b: seq<T>, c: seq<T>)
    requires a <= b
    ensures a <= b + c
  {
    assert forall i :: 0 <= i < |a| ==> a[i] == b[i] == (b + c)[i];
  }

  lemma DistinctParts<T>(a: seq<T>, b: seq<T>)
    requires Distinct(a + b)
    ensures Distinct(a) && Distinct(b)
  {
    forall i, j | 0 <= i < j < |a| ensures a[i] != a[j] {
      assert (a + b)[i] != (a + b)[j];
    }
    forall i, j | 0 <= i < j < |b| ensures b[i] != b[j] {
      assert (a + b)[|a| + i] != (a + b)[|a| + j];
    }
  }
}
