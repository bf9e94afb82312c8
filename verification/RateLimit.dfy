/**
 The two request counters of the Redis tier. Both keep only a pruned, expiring
 remnant of the calls; the theorems are about the calls that were really made.

 Times are milliseconds of one monotone clock. Redis is free to treat a key as
 present or gone at the very instant it expires: `edge` decides each time.
 */
module RateLimit {
  import opened FiniteSets

  function WindowMs(windowSecs: nat): nat {
    windowSecs * 1000
  }

  /** Has a key that expires at `expireAt` gone by `now`? */
  predicate Gone(expireAt: int, now: int, edge: bool) {
    now > expireAt || (now == expireAt && edge)
  }

  // ------------------------------------------------------------------
  // Sliding window: a sorted set of members scored by their time
  // ------------------------------------------------------------------

  /** Member of the sorted set; its score is its time. */
  datatype Member = Member(at: int, suffix: nat)

  ghost predicate Ordered(h: seq<Member>) {
    forall i, j :: 0 <= i < j < |h| ==> h[i].at <= h[j].at
  }

  /** The members younger than `lo`. */
  ghost function Since(h: seq<Member>, lo: int): set<Member> {
    set m | m in h && m.at > lo
  }

  /** The number of calls younger than `lo`. */
  ghost function CallsSince(h: seq<Member>, lo: int): nat {
    if h == [] then 0
    else CallsSince(h[..|h| - 1], lo) + if h[|h| - 1].at > lo then 1 else 0
  }

  ghost predicate DistinctSince(h: seq<Member>, lo: int) {
    forall i, j :: 0 <= i < j < |h| && h[i].at > lo && h[j].at > lo ==> h[i] != h[j]
  }

  /** What Redis still holds after the calls of `h`: the key's entries and its expiry. */
  ghost predicate Remnant(h: seq<Member>, entries: set<Member>, expireAt: int, windowMs: nat) {
    if h == [] then
      entries == {}
    else
      var last := h[|h| - 1].at;
      entries == Since(h, last - windowMs) && expireAt == last + windowMs
  }

  function Prune(entries: set<Member>, cutoff: int): set<Member> {
    set m | m in entries && m.at > cutoff
  }

  class SlidingWindow {
    const windowSecs: nat
    var entries: set<Member>
    var expireAt: int
    /** Every call ever made on this key. */
    ghost var history: seq<Member>

    ghost predicate Valid()
      reads this
    {
      Ordered(history) && Remnant(history, entries, expireAt, WindowMs(windowSecs))
    }

    constructor (windowSecs: nat)
      ensures Valid() && history == [] && this.windowSecs == windowSecs
    {
      this.windowSecs := windowSecs;
      entries := {};
      expireAt := 0;
      history := [];
    }

    /** `increment_sliding_window`: add, prune, renew the expiry, count. */
    method Increment(now: int, suffix: nat, edge: bool) returns (count: nat)
      requires Valid()
      requires history == [] || history[|history| - 1].at <= now
      modifies this
      ensures Valid()
      ensures history == old(history) + [Member(now, suffix)]
      ensures count == |Since(history, now - WindowMs(windowSecs))|
    {
      var windowMs := windowSecs * 1000;
      var member := Member(now, suffix);
      SlideStep(history, entries, expireAt, member, windowMs);
      if entries != {} && Gone(expireAt, now, edge) {
        entries := {};
      }
      entries := entries + {member};
      var cutoff := now - windowMs;
      entries := Prune(entries, cutoff);
      expireAt := now + windowMs;
      count := |entries|;
      history := history + [member];
    }
  }

  /** Pruned or expired entries are too old to matter to the next call. */
  lemma SlideStep(h: seq<Member>, entries: set<Member>, expireAt: int, m: Member, windowMs: nat)
    requires Ordered(h) && Remnant(h, entries, expireAt, windowMs)
    requires h == [] || h[|h| - 1].at <= m.at
    ensures Ordered(h + [m])
    ensures Prune(entries + {m}, m.at - windowMs) == Since(h + [m], m.at - windowMs)
    ensures entries != {} && m.at >= expireAt ==>
              Prune({} + {m}, m.at - windowMs) == Since(h + [m], m.at - windowMs)
  {
    if h != [] {
      var last := h[|h| - 1].at;
      assert forall x :: x in h ==> x.at <= last;
    }
  }

  lemma DistinctStep(h: seq<Member>, m: Member, lo: int)
    ensures DistinctSince(h + [m], lo) <==> DistinctSince(h, lo) && (m.at > lo ==> m !in h)
  {
    var all := h + [m];
    if DistinctSince(all, lo) {
      assert forall i :: 0 <= i < |h| ==> all[i] == h[i] && all[|h|] == m;
    }
  }

  lemma SinceStep(h: seq<Member>, m: Member, lo: int)
    ensures Since(h + [m], lo) == Since(h, lo) + if m.at > lo then {m} else {}
    ensures m.at > lo ==> (m in Since(h, lo) <==> m in h)
  {
  }

  /** The count is the number of calls in the window exactly when no two of them share a member. */
  lemma {:induction false} CountIsCalls(h: seq<Member>, lo: int)
    ensures |Since(h, lo)| <= CallsSince(h, lo)
    ensures |Since(h, lo)| == CallsSince(h, lo) <==> DistinctSince(h, lo)
  {
    if h == [] {
      assert Since(h, lo) == {};
    } else {
      var front, last := h[..|h| - 1], h[|h| - 1];
      assert h == front + [last];
      CountIsCalls(front, lo);
      CountStep(front, last, lo);
    }
  }

  lemma CountStep(h: seq<Member>, m: Member, lo: int)
    requires |Since(h, lo)| <= CallsSince(h, lo)
    requires |Since(h, lo)| == CallsSince(h, lo) <==> DistinctSince(h, lo)
    ensures |Since(h + [m], lo)| <= CallsSince(h + [m], lo)
    ensures |Since(h + [m], lo)| == CallsSince(h + [m], lo) <==> DistinctSince(h + [m], lo)
  {
    SinceStep(h, m, lo);
    DistinctStep(h, m, lo);
    assert (h + [m])[..|h|] == h;
  }

  /** The count returned to the i-th call of a history. */
  ghost function SlidingCount(h: seq<Member>, i: nat, windowSecs: nat): nat
    requires i < |h|
  {
    |Since(h[..i + 1], h[i].at - WindowMs(windowSecs))|
  }

  /** The calls of a window of time that were told a count of at most `max`. */
  ghost function SlidingAdmitted(h: seq<Member>, windowSecs: nat, max: nat, lo: int): set<int> {
    set i | 0 <= i < |h| && lo < h[i].at <= lo + WindowMs(windowSecs) && SlidingCount(h, i, windowSecs) <= max
  }

  /** No window of time, wherever it starts, admits more than `max` calls. */
  lemma SlidingBound(h: seq<Member>, windowSecs: nat, max: nat, lo: int)
    requires Ordered(h)
    requires forall i, j :: 0 <= i < j < |h| ==> h[i] != h[j]
    ensures |SlidingAdmitted(h, windowSecs, max, lo)| <= max
  {
    var admitted := SlidingAdmitted(h, windowSecs, max, lo);
    if admitted != {} {
      var last := MaxOf(admitted);
      ImageSize(h, admitted);
      var members := set i | i in admitted :: h[i];
      var counted := Since(h[..last + 1], h[last].at - WindowMs(windowSecs));
      forall i | i in admitted
        ensures h[i] in counted
      {
        assert h[..last + 1][i] == h[i];
      }
      SubsetSize(members, counted);
    }
  }

  // ------------------------------------------------------------------
  // Fixed window: a counter that expires a window after its first call
  // ------------------------------------------------------------------

  datatype Counter = Absent | Present(count: nat, expireAt: int)

  datatype Hit = Hit(at: int, edge: bool)

  function Incr(k: Counter, now: int, edge: bool, window: nat): Counter {
    if k.Absent? || Gone(k.expireAt, now, edge) then Present(1, now + window)
    else Present(k.count + 1, k.expireAt)
  }

  /** The counter after a run of calls. */
  ghost function After(run: seq<Hit>, window: nat): Counter {
    if run == [] then Absent
    else Incr(After(run[..|run| - 1], window), run[|run| - 1].at, run[|run| - 1].edge, window)
  }

  class FixedWindow {
    const windowSecs: nat
    var key: Counter
    ghost var run: seq<Hit>

    ghost predicate Valid()
      reads this
    {
      key == After(run, WindowMs(windowSecs))
    }

    constructor (windowSecs: nat)
      ensures Valid() && run == [] && this.windowSecs == windowSecs
    {
      this.windowSecs := windowSecs;
      key := Absent;
      run := [];
    }

    /** `increment`: INCR, then EXPIRE when the count is one. */
    method Increment(now: int, edge: bool) returns (current: nat)
      requires Valid()
      modifies this
      ensures Valid()
      ensures run == old(run) + [Hit(now, edge)]
      ensures key.Present? && current == key.count
    {
      if key.Present? && Gone(key.expireAt, now, edge) {
        key := Absent;
      }
      current := if key.Present? then key.count + 1 else 1;
      var expireAt := if key.Present? then key.expireAt else now;
      if current == 1 {
        expireAt := now + windowSecs * 1000;
      }
      assert old(key).Present? ==> old(key).count >= 1 by { FixedShape(run, WindowMs(windowSecs)); }
      key := Present(current, expireAt);
      run := run + [Hit(now, edge)];
      assert run[..|run| - 1] == old(run);
    }
  }

  lemma FixedShape(run: seq<Hit>, window: nat)
    ensures run != [] ==> After(run, window).Present? && 1 <= After(run, window).count <= |run|
  {
  }

  ghost predicate InOrder(run: seq<Hit>) {
    forall i, j :: 0 <= i < j < |run| ==> run[i].at <= run[j].at
  }

  /** The count returned to the i-th call. */
  ghost function FixedCount(run: seq<Hit>, i: nat, window: nat): (c: nat)
    requires i < |run|
    ensures 1 <= c <= i + 1
  {
    FixedShape(run[..i + 1], window);
    After(run[..i + 1], window).count
  }

  /** The call that opened the window of the i-th call. */
  ghost function Opener(run: seq<Hit>, i: nat, window: nat): (s: nat)
    requires i < |run|
    ensures s <= i
  {
    i + 1 - FixedCount(run, i, window)
  }

  lemma {:induction false} OpenerExpiry(run: seq<Hit>, i: nat, window: nat)
    requires i < |run|
    ensures After(run[..i + 1], window).Present?
    ensures After(run[..i + 1], window).expireAt == run[Opener(run, i, window)].at + window
    ensures i == 0
         || Opener(run, i, window) == Opener(run, i - 1, window)
         || (Opener(run, i, window) == i && run[i].at >= run[Opener(run, i - 1, window)].at + window)
    decreases i
  {
    assert run[..i + 1][..i] == run[..i] && run[..i + 1][i] == run[i];
    if i > 0 {
      OpenerExpiry(run, i - 1, window);
      assert run[..i - 1 + 1] == run[..i];
    }
  }

  /** Different windows open at least a window apart, and do not overlap. */
  lemma {:induction false} OpenersApart(run: seq<Hit>, i: nat, j: nat, window: nat)
    requires InOrder(run)
    requires i <= j < |run|
    ensures Opener(run, i, window) <= Opener(run, j, window)
    ensures Opener(run, i, window) < Opener(run, j, window) ==>
              i < Opener(run, j, window) && run[Opener(run, j, window)].at >= run[Opener(run, i, window)].at + window
    decreases j - i
  {
    if i < j {
      OpenersApart(run, i, j - 1, window);
      OpenerExpiry(run, j, window);
    }
  }

  ghost function FixedAdmitted(run: seq<Hit>, window: nat, max: nat, lo: int): set<int> {
    set i | 0 <= i < |run| && lo <= run[i].at < lo + window && FixedCount(run, i, window) <= max
  }

  /** Of three different windows the middle one would have to lie inside the interval whole. */
  lemma NoThreeWindows(run: seq<Hit>, window: nat, lo: int, i: nat, j: nat, k: nat)
    requires InOrder(run)
    requires i < |run| && j < |run| && k < |run|
    requires lo <= run[i].at && run[k].at < lo + window
    ensures !(Opener(run, i, window) < Opener(run, j, window) < Opener(run, k, window))
  {
    if Opener(run, i, window) < Opener(run, j, window) < Opener(run, k, window) {
      Ascending(run, i, j, window);
      Ascending(run, j, k, window);
      OpenersApart(run, i, j, window);
      OpenersApart(run, j, k, window);
      assert false;
    }
  }

  lemma Ascending(run: seq<Hit>, i: nat, j: nat, window: nat)
    requires InOrder(run)
    requires i < |run| && j < |run|
    requires Opener(run, i, window) < Opener(run, j, window)
    ensures i < j
  {
    if j <= i {
      OpenersApart(run, j, i, window);
    }
  }

  /** Every half-open interval as long as the window admits at most 2 max - 1 calls. */
  lemma FixedBound(run: seq<Hit>, window: nat, max: nat, lo: int)
    requires InOrder(run)
    ensures |FixedAdmitted(run, window, max, lo)| <= if max == 0 then 0 else 2 * max - 1
  {
    var admitted := FixedAdmitted(run, window, max, lo);
    if admitted != {} {
      var a: nat :| a in admitted;
      if exists b: nat :: b in admitted && Opener(run, a, window) != Opener(run, b, window) {
        var b: nat :| b in admitted && Opener(run, a, window) != Opener(run, b, window);
        if Opener(run, a, window) < Opener(run, b, window) {
          TwoWindows(run, window, max, lo, a, b);
        } else {
          TwoWindows(run, window, max, lo, b, a);
        }
      } else {
        var s := Opener(run, a, window);
        SubsetSize(admitted, Range(s, s + max));
      }
    }
  }

  lemma TwoWindows(run: seq<Hit>, window: nat, max: nat, lo: int, a: nat, b: nat)
    requires InOrder(run)
    requires a in FixedAdmitted(run, window, max, lo) && b in FixedAdmitted(run, window, max, lo)
    requires Opener(run, a, window) < Opener(run, b, window)
    ensures |FixedAdmitted(run, window, max, lo)| <= 2 * max - 1
  {
    var admitted := FixedAdmitted(run, window, max, lo);
    var s, t := Opener(run, a, window), Opener(run, b, window);
    var early, late := Range(s + 1, s + max), Range(t, t + max);
    Ascending(run, a, b, window);
    OpenersApart(run, a, b, window);
    forall i: nat | i in admitted
      ensures i in early || i in late
    {
      var o := Opener(run, i, window);
      NoThreeWindows(run, window, lo, i, a, b);
      NoThreeWindows(run, window, lo, a, i, b);
      NoThreeWindows(run, window, lo, a, b, i);
      assert o == s || o == t;
      assert run[s].at < lo;
    }
    SubsetSize(admitted, early + late);
  }

  /** One call, then `max - 1` calls just before the window ends and `max` just after. */
  function Burst(max: nat, window: nat): seq<Hit>
    requires max >= 1
  {
    seq(2 * max, i => Hit(if i == 0 then 0 else if i < max then window - 1 else window + 1, false))
  }

  lemma {:induction false} BurstCounts(max: nat, window: nat, i: nat)
    requires max >= 1 && window >= 3 && i < 2 * max
    ensures After(Burst(max, window)[..i + 1], window)
         == if i < max then Present(i + 1, window) else Present(i + 1 - max, 2 * window + 1)
  {
    var run := Burst(max, window);
    assert run[..i + 1][..i] == run[..i] && run[..i + 1][i] == run[i];
    if i > 0 {
      BurstCounts(max, window, i - 1);
      assert run[..i - 1 + 1] == run[..i];
    }
  }

  /** The bound is reached, for every limit. */
  lemma FixedBoundReached(max: nat, windowSecs: nat)
    requires max >= 1 && windowSecs >= 1
    ensures var window := WindowMs(windowSecs);
      InOrder(Burst(max, window)) && |FixedAdmitted(Burst(max, window), window, max, 2)| == 2 * max - 1
  {
    BurstAdmitted(max, WindowMs(windowSecs));
  }

  lemma BurstAdmitted(max: nat, window: nat)
    requires max >= 1 && window >= 1000
    ensures InOrder(Burst(max, window)) && FixedAdmitted(Burst(max, window), window, max, 2) == Range(1, 2 * max)
  {
    var run := Burst(max, window);
    forall i: nat | i < 2 * max
      ensures FixedCount(run, i, window) <= max
    {
      BurstCounts(max, window, i);
    }
  }
}
