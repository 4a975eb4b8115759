/** Shared by the modules of this project. */
module Common {

  datatype Option<+T> = None | Some(value: T)

  /** No element occurs twice. */
  predicate Distinct<T(==)>(s: seq<T>) {
    forall i, j :: 0 <= i < j < |s| ==> s[i] != s[j]
  }

  lemma DistinctSnoc<T>(s: seq<T>, x: T)
    requires Distinct(s) && x !in s
    ensures Distinct(s + [x])
  {
  }

  lemma DistinctConcat<T>(a: seq<T>, b: seq<T>)
    ensures Distinct(a + b) <==> Distinct(a) && Distinct(b) && forall x :: x in a ==> x !in b
  {
    var s := a + b;
    if Distinct(s) {
      forall i, j | 0 <= i < j < |b| ensures b[i] != b[j] {
        assert s[|a| + i] != s[|a| + j];
      }
      forall i, j | 0 <= i < |a| && 0 <= j < |b| ensures a[i] != b[j] {
        assert s[i] != s[|a| + j];
      }
      forall i, j | 0 <= i < j < |a| ensures a[i] != a[j] {
        assert s[i] != s[j];
      }
    } else if forall x :: x in a ==> x !in b {
      var i, j :| 0 <= i < j < |s| && s[i] == s[j];
      assert i < |a| ==> s[i] in a;
      assert j >= |a| ==> s[j] in b;
    }
  }
}
