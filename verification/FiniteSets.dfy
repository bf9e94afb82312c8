/** Sizes of finite sets, as counting arguments need them. */
module FiniteSets {

  /** The integers from `lo` up to, not including, `hi`. */
  function Range(lo: int, hi: int): (r: set<int>)
    ensures forall i :: i in r <==> lo <= i < hi
    ensures |r| == if lo <= hi then hi - lo else 0
    decreases hi - lo
  {
    if lo < hi then Range(lo, hi - 1) + {hi - 1} else {}
  }

  lemma Pick<T>(s: set<T>) returns (x: T)
    requires s != {}
    ensures x in s
  {
    x :| x in s;
  }

  lemma {:induction false} SubsetSize<T>(a: set<T>, b: set<T>)
    requires a <= b
    ensures |a| <= |b|
  {
    if a != {} {
      var x := Pick(a);
      SubsetSize(a - {x}, b - {x});
    }
  }

  /** Distinct indices with distinct elements: as many elements as indices. */
  lemma {:induction false} ImageSize<T>(s: seq<T>, idx: set<int>)
    requires forall i :: i in idx ==> 0 <= i < |s|
    requires forall i, j :: i in idx && j in idx && i != j ==> s[i] != s[j]
    ensures |set i | i in idx :: s[i]| == |idx|
    decreases |idx|
  {
    if idx != {} {
      var x := Pick(idx);
      ImageSize(s, idx - {x});
      assert (set i | i in idx :: s[i]) == (set i | i in idx - {x} :: s[i]) + {s[x]};
    }
  }

  lemma {:induction false} MaxOf(s: set<int>) returns (m: int)
    requires s != {}
    ensures m in s && forall i :: i in s ==> i <= m
    decreases |s|
  {
    m := Pick(s);
    var rest := s - {m};
    assert forall i :: i in s ==> i == m || i in rest;
    if rest != {} {
      var n := MaxOf(rest);
      if m < n {
        m := n;
      }
    }
  }
}
