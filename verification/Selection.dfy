/** Filtering a list: what is kept, where it came from, and in which order. */
module Selection {
  import opened Options

  /** The results of `f`, in order, where it has one. */
  function FilterMap<T, U>(xs: seq<T>, f: T -> Option<U>): seq<U> {
    if xs == [] then []
    else
      var last := f(xs[|xs| - 1]);
      FilterMap(xs[..|xs| - 1], f) + if last.Some? then [last.value] else []
  }

  /** The places of `xs` that were kept, in increasing order. */
  ghost predicate Picks<T, U>(xs: seq<T>, f: T -> Option<U>, ys: seq<U>, places: seq<nat>) {
    && |places| == |ys|
    && (forall i, j :: 0 <= i < j < |places| ==> places[i] < places[j])
    && (forall i :: 0 <= i < |places| ==> places[i] < |xs| && f(xs[places[i]]) == Some(ys[i]))
    && (forall j :: 0 <= j < |xs| && f(xs[j]).Some? ==> j in places)
  }

  lemma PicksSnoc<T, U>(xs: seq<T>, x: T, f: T -> Option<U>, ys: seq<U>, places: seq<nat>)
    requires Picks(xs, f, ys, places)
    ensures f(x).None? ==> Picks(xs + [x], f, ys, places)
    ensures f(x).Some? ==> Picks(xs + [x], f, ys + [f(x).value], places + [|xs|])
  {
    var more := xs + [x];
    assert forall j :: 0 <= j < |xs| ==> more[j] == xs[j];
    var further := places + [|xs|];
    assert further[|places|] == |xs|;
    forall j | 0 <= j < |xs| && f(xs[j]).Some?
      ensures j in further
    {
      assert j in places;
    }
  }

  lemma {:induction false} FilterMapPicks<T, U>(xs: seq<T>, f: T -> Option<U>) returns (places: seq<nat>)
    ensures Picks(xs, f, FilterMap(xs, f), places)
  {
    if xs == [] {
      places := [];
    } else {
      var front, x := xs[..|xs| - 1], xs[|xs| - 1];
      places := FilterMapPicks(front, f);
      PicksSnoc(front, x, f, FilterMap(front, f), places);
      assert xs == front + [x];
      if f(x).Some? {
        places := places + [|front|];
      }
    }
  }

  lemma FilterMapMember<T, U>(xs: seq<T>, f: T -> Option<U>, y: U)
    ensures y in FilterMap(xs, f) <==> exists x :: x in xs && f(x) == Some(y)
  {
    var places := FilterMapPicks(xs, f);
    if y in FilterMap(xs, f) {
      var i :| 0 <= i < |places| && FilterMap(xs, f)[i] == y;
      assert xs[places[i]] in xs;
    }
    if exists x :: x in xs && f(x) == Some(y) {
      var x :| x in xs && f(x) == Some(y);
      var j :| 0 <= j < |xs| && xs[j] == x;
      assert j in places;
    }
  }

  lemma FilterMapOne<T, U>(x: T, f: T -> Option<U>)
    ensures FilterMap([x], f) == if f(x).Some? then [f(x).value] else []
  {
    assert [x][..0] == [];
    assert FilterMap([x][..0], f) == [];
  }

  lemma {:induction false} FilterMapConcat<T, U>(a: seq<T>, b: seq<T>, f: T -> Option<U>)
    ensures FilterMap(a + b, f) == FilterMap(a, f) + FilterMap(b, f)
  {
    if b == [] {
      assert a + b == a;
    } else {
      assert (a + b)[..|a + b| - 1] == a + b[..|b| - 1];
      FilterMapConcat(a, b[..|b| - 1], f);
    }
  }
}
