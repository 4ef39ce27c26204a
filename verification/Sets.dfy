/** Totals of finite maps, and sequences without repetitions. */
module Sets {

  ghost function Pick<T>(s: set<T>): (x: T)
    requires s != {}
    ensures x in s
  {
    var x :| x in s; x
  }

  /** The sum of the values of a map. */
  ghost function Total<T>(m: map<T, int>): int {
    if m.Keys == {} then 0 else var x := Pick(m.Keys); m[x] + Total(m - {x})
  }

  lemma {:induction false} TotalWithout<T>(m: map<T, int>, x: T)
    requires x in m
    ensures Total(m) == m[x] + Total(m - {x})
    decreases |m|
  {
    var y := Pick(m.Keys);
    if x != y {
      TotalWithout(m - {y}, x);
      TotalWithout(m - {x}, y);
      assert m - {y} - {x} == m - {x} - {y};
    }
  }

  /** A map with one key more. */
  lemma TotalWith<T>(m: map<T, int>, x: T, v: int, m': map<T, int>)
    requires x !in m && m' == m[x := v]
    ensures Total(m') == Total(m) + v
  {
    TotalWithout(m', x);
    assert m' - {x} == m;
  }

  ghost predicate Distinct<T>(s: seq<T>) {
    forall i, j :: 0 <= i < j < |s| ==> s[i] != s[j]
  }
}
