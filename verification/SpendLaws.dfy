/**
 What the ledger promises for whole runs: days add up to months and months to
 the lifetime, counters stay within their caps, and where either ends.
 */
module SpendLaws {
  import opened Options
  import opened SpendLedger
  import opened KeyLives
  import opened SpendRuns

  // ------------------------------------------------------------------
  // Days add up to months, months to the lifetime
  // ------------------------------------------------------------------

  ghost predicate Quiet(s: State) {
    forall i :: 0 <= i < |s.flights| ==> !s.flights[i].Draining?
  }

  /** The daily counters of month `m`, for days before `days`. */
  ghost function DailySum(cal: Calendar, s: State, m: nat, days: nat): int {
    if days == 0 then 0
    else DailySum(cal, s, m, days - 1) + if cal(days - 1) == m then Value(s, DailyKey(days - 1)) else 0
  }

  /** The monthly counters before month `months`. */
  ghost function MonthlySum(s: State, months: nat): int {
    if months == 0 then 0 else MonthlySum(s, months - 1) + Value(s, MonthlyKey(months - 1))
  }

  ghost function DayTotals(cal: Calendar, log: seq<Request>, m: nat, days: nat): int {
    if days == 0 then 0
    else DayTotals(cal, log, m, days - 1) + if cal(days - 1) == m then Total(cal, log, DailyKey(days - 1)) else 0
  }

  ghost function MonthTotals(cal: Calendar, log: seq<Request>, months: nat): int {
    if months == 0 then 0 else MonthTotals(cal, log, months - 1) + Total(cal, log, MonthlyKey(months - 1))
  }

  /** Admitted costs of the scope's period that a negative cap kept out of the counters of period `p`. */
  ghost function Unrecorded(cal: Calendar, log: seq<Request>, p: Period, scope: Key): int {
    if log == [] then 0
    else
      var r := log[|log| - 1];
      Unrecorded(cal, log[..|log| - 1], p, scope)
      + if scope == KeyOf(cal, scope.Kind(), r.at) && r.caps.Ignored(p) then r.cost else 0
  }

  lemma {:induction false} DayTotalsStep(cal: Calendar, log: seq<Request>, m: nat, days: nat)
    requires log != []
    ensures var r := log[|log| - 1];
      DayTotals(cal, log, m, days) == DayTotals(cal, log[..|log| - 1], m, days)
        + if r.at / DAY < days && cal(r.at / DAY) == m && !r.caps.Ignored(Daily) then r.cost else 0
  {
    if days > 0 {
      DayTotalsStep(cal, log, m, days - 1);
    }
  }

  lemma {:induction false} MonthTotalsStep(cal: Calendar, log: seq<Request>, months: nat)
    requires log != []
    ensures var r := log[|log| - 1];
      MonthTotals(cal, log, months) == MonthTotals(cal, log[..|log| - 1], months)
        + if cal(r.at / DAY) < months && !r.caps.Ignored(Monthly) then r.cost else 0
  {
    if months > 0 {
      MonthTotalsStep(cal, log, months - 1);
    }
  }

  lemma {:induction false} TotalsAddUp(cal: Calendar, log: seq<Request>, m: nat, days: nat, months: nat)
    requires forall i :: 0 <= i < |log| ==> log[i].at / DAY < days && cal(log[i].at / DAY) < months
    ensures DayTotals(cal, log, m, days) + Unrecorded(cal, log, Daily, MonthlyKey(m))
         == Total(cal, log, MonthlyKey(m)) + Unrecorded(cal, log, Monthly, MonthlyKey(m))
    ensures MonthTotals(cal, log, months) + Unrecorded(cal, log, Monthly, LifetimeKey)
         == Total(cal, log, LifetimeKey) + Unrecorded(cal, log, Lifetime, LifetimeKey)
  {
    if log == [] {
      NoTotals(cal, m, days);
      NoMonths(cal, months);
    } else {
      TotalsAddUp(cal, log[..|log| - 1], m, days, months);
      DayTotalsStep(cal, log, m, days);
      MonthTotalsStep(cal, log, months);
    }
  }

  lemma NoTotals(cal: Calendar, m: nat, days: nat)
    ensures DayTotals(cal, [], m, days) == 0
  {
  }

  lemma NoMonths(cal: Calendar, months: nat)
    ensures MonthTotals(cal, [], months) == 0
  {
  }

  /** Every call of the run begins with such caps. */
  ghost predicate Begun(acts: seq<Action>, good: Caps -> bool) {
    forall i :: 0 <= i < |acts| && acts[i].Begin? ==> good(acts[i].caps)
  }

  ghost function AnyCaps(): Caps -> bool {
    (caps: Caps) => true
  }

  ghost predicate Sound(s: State, good: Caps -> bool, r: Request) {
    r.at <= s.clock && good(r.caps)
  }

  /** Requests carry the caps and the times of the run's own beginnings. */
  ghost predicate Sourced(s: State, good: Caps -> bool) {
    && (forall i :: 0 <= i < |s.flights| ==> Sound(s, good, s.flights[i].req))
    && (forall i :: 0 <= i < |s.log| ==> Sound(s, good, s.log[i]))
  }

  lemma {:induction false} RunsAreSourced(cal: Calendar, acts: seq<Action>, good: Caps -> bool)
    requires Begun(acts, good)
    ensures Sourced(Run(cal, acts), good)
  {
    if acts != [] {
      var front, a := acts[..|acts| - 1], acts[|acts| - 1];
      assert forall i :: 0 <= i < |front| ==> acts[i] == front[i];
      RunsAreSourced(cal, front, good);
      assert a.Begin? ==> good(acts[|acts| - 1].caps);
    }
  }

  lemma QuietOwesNothing(fs: seq<Flight>, k: Key)
    requires forall i :: 0 <= i < |fs| ==> !fs[i].Draining?
    ensures Pending(fs, k) == 0
  {
  }

  lemma {:induction false} SumsFollowTotals(cal: Calendar, s: State, m: nat, days: nat, months: nat)
    requires forall k: Key :: Value(s, k) == Total(cal, s.log, k)
    ensures DailySum(cal, s, m, days) == DayTotals(cal, s.log, m, days)
    ensures MonthlySum(s, months) == MonthTotals(cal, s.log, months)
    decreases days + months
  {
    if days > 0 {
      SumsFollowTotals(cal, s, m, days - 1, months);
    } else if months > 0 {
      SumsFollowTotals(cal, s, m, days, months - 1);
    }
  }

  /** No counter of the run is charged after a gap of its TTL. */
  ghost predicate Steady(cal: Calendar, acts: seq<Action>) {
    forall k: Key :: !Gap(Touches(cal, acts, k), Ttl(k.Kind()))
  }

  /** The run has reached neither day `days` nor month `months`. */
  ghost predicate Before(cal: Calendar, s: State, days: nat, months: nat) {
    s.clock / DAY < days && forall d: nat :: d <= s.clock / DAY ==> cal(d) < months
  }

  /**
   The law of the ledger, for any caps: at rest, the month's counter exceeds the
   sum of its days by the month's costs that a negative daily cap hid from the
   days, less those that a negative monthly cap hid from the month. Likewise for
   the lifetime counter and the months.
   */
  lemma LedgerLaw(cal: Calendar, acts: seq<Action>, m: nat, days: nat, months: nat)
    requires Quiet(Run(cal, acts)) && Steady(cal, acts) && Before(cal, Run(cal, acts), days, months)
    ensures var s := Run(cal, acts);
      && Value(s, MonthlyKey(m)) - DailySum(cal, s, m, days)
         == Unrecorded(cal, s.log, Daily, MonthlyKey(m)) - Unrecorded(cal, s.log, Monthly, MonthlyKey(m))
      && Value(s, LifetimeKey) - MonthlySum(s, months)
         == Unrecorded(cal, s.log, Monthly, LifetimeKey) - Unrecorded(cal, s.log, Lifetime, LifetimeKey)
  {
    var s := Run(cal, acts);
    RunsAreSourced(cal, acts, AnyCaps());
    forall k: Key
      ensures Value(s, k) == Total(cal, s.log, k)
    {
      CountersExact(cal, acts, k);
      QuietOwesNothing(s.flights, k);
    }
    forall i | 0 <= i < |s.log|
      ensures s.log[i].at / DAY < days && cal(s.log[i].at / DAY) < months
    {
      assert Sound(s, AnyCaps(), s.log[i]);
      assert s.log[i].at / DAY <= s.clock / DAY;
    }
    SumsFollowTotals(cal, s, m, days, months);
    TotalsAddUp(cal, s.log, m, days, months);
  }

  ghost predicate NonNegative(caps: Caps) {
    forall p: Period :: !caps.Ignored(p)
  }

  lemma NothingUnrecorded(cal: Calendar, log: seq<Request>, p: Period, scope: Key)
    requires forall i :: 0 <= i < |log| ==> NonNegative(log[i].caps)
    ensures Unrecorded(cal, log, p, scope) == 0
  {
  }

  /**
   Conservation: whenever no follow-up is on its way, the daily counters of a
   month sum to the month's counter and the monthly counters to the lifetime
   counter, however the calls were interleaved and the caps changed between them.
   */
  lemma LedgerConserved(cal: Calendar, acts: seq<Action>, m: nat, days: nat, months: nat)
    requires Begun(acts, NonNegative)
    requires Quiet(Run(cal, acts)) && Steady(cal, acts) && Before(cal, Run(cal, acts), days, months)
    ensures var s := Run(cal, acts);
      && DailySum(cal, s, m, days) == Value(s, MonthlyKey(m))
      && MonthlySum(s, months) == Value(s, LifetimeKey)
  {
    var log := Run(cal, acts).log;
    RunsAreSourced(cal, acts, NonNegative);
    assert forall i :: 0 <= i < |log| ==> Sound(Run(cal, acts), NonNegative, log[i]);
    NothingUnrecorded(cal, log, Daily, MonthlyKey(m));
    NothingUnrecorded(cal, log, Monthly, MonthlyKey(m));
    NothingUnrecorded(cal, log, Monthly, LifetimeKey);
    NothingUnrecorded(cal, log, Lifetime, LifetimeKey);
    LedgerLaw(cal, acts, m, days, months);
  }

  /** Commands at most an hour behind, in the first ten years, leave no gap: then the conditions on the run are met. */
  lemma PunctualIsSteady(cal: Calendar, acts: seq<Action>)
    requires ValidCalendar(cal) && !Run(cal, acts).late && Run(cal, acts).clock < LIFETIME_TTL
    ensures Steady(cal, acts)
  {
    NothingLapses(cal, acts);
    forall k: Key
      ensures !Gap(Touches(cal, acts, k), Ttl(k.Kind()))
    {
      LapseExactly(cal, acts, k);
    }
  }

  // ------------------------------------------------------------------
  // Cap safety, for every interleaving
  // ------------------------------------------------------------------

  ghost function HasCap(p: Period): Caps -> bool {
    (caps: Caps) => caps.For(p).Some?
  }

  ghost function HasLimit(p: Period, limit: nat): Caps -> bool {
    (caps: Caps) => caps.For(p) == Some(limit)
  }

  /** Every request of the run carries some cap for the period `p`. */
  ghost predicate AlwaysCapped(acts: seq<Action>, p: Period) {
    Begun(acts, HasCap(p))
  }

  /** Every request of the run carries the cap `limit` for the period `p`. */
  ghost predicate FixedCap(acts: seq<Action>, p: Period, limit: nat) {
    Begun(acts, HasLimit(p, limit))
  }

  /** The cap under which the counter was last charged. */
  ghost function LastCap(cal: Calendar, log: seq<Request>, k: Key): Option<int> {
    if log == [] then None
    else
      var r := log[|log| - 1];
      if Charged(cal, r, k) then r.caps.For(k.Kind()) else LastCap(cal, log[..|log| - 1], k)
  }

  ghost predicate Capped(cal: Calendar, s: State, p: Period) {
    && (forall k | k in s.store && k.Kind() == p :: WithinLastCap(cal, s, k))
    && (forall i :: 0 <= i < |s.flights| ==> CappedFlight(s.flights[i], p))
  }

  ghost predicate WithinLastCap(cal: Calendar, s: State, k: Key)
    requires k in s.store
  {
    var cap := LastCap(cal, s.log, k);
    cap.Some? && s.store[k].value <= cap.value
  }

  ghost predicate CappedFlight(f: Flight, p: Period) {
    && f.req.caps.For(p).Some?
    && (f.Draining? ==> forall i :: 0 <= i < |f.todo| ==> f.todo[i].key.Kind() != p)
  }

  lemma {:induction false} RunsAreCapped(cal: Calendar, acts: seq<Action>, p: Period)
    requires AlwaysCapped(acts, p)
    ensures Capped(cal, Run(cal, acts), p)
  {
    if acts != [] {
      var front, a := acts[..|acts| - 1], acts[|acts| - 1];
      assert forall i :: 0 <= i < |front| ==> acts[i] == front[i];
      RunsAreCapped(cal, front, p);
      var s := Run(cal, front);
      match a
      case Tick(_) =>
      case Begin(_, _) =>
        assert acts[|acts| - 1].Begin?;
      case RunScript(id) =>
        if id < |s.flights| && s.flights[id].Ready? {
          ScriptCapped(cal, s, id, p);
        }
      case Send(id) =>
        if id < |s.flights| && s.flights[id].Draining? && s.flights[id].todo != [] {
          SendCapped(cal, s, id, p);
        }
    }
  }

  lemma SendCapped(cal: Calendar, s: State, id: nat, p: Period)
    requires Capped(cal, s, p)
    requires id < |s.flights| && s.flights[id].Draining? && s.flights[id].todo != []
    ensures Capped(cal, SendStep(s, id), p)
  {
    var t := SendStep(s, id);
    assert CappedFlight(s.flights[id], p) && s.flights[id].todo[0].key.Kind() != p;
    forall k | k in t.store && k.Kind() == p
      ensures WithinLastCap(cal, t, k)
    {
      assert k in s.store && WithinLastCap(cal, s, k);
    }
  }

  lemma ScriptCapped(cal: Calendar, s: State, id: nat, p: Period)
    requires Capped(cal, s, p)
    requires id < |s.flights| && s.flights[id].Ready?
    ensures Capped(cal, ScriptStep(cal, s, id), p)
  {
    var r := s.flights[id].req;
    var t := ScriptStep(cal, s, id);
    assert CappedFlight(s.flights[id], p);
    forall k | k in t.store && k.Kind() == p
      ensures WithinLastCap(cal, t, k)
    {
      ChargeWithinCap(cal, s, id, k);
    }
    FollowUpKinds(cal, r, p);
    assert CappedFlight(t.flights[id], p);
  }

  lemma ChargeWithinCap(cal: Calendar, s: State, id: nat, k: Key)
    requires id < |s.flights| && s.flights[id].Ready?
    requires k in s.store ==> WithinLastCap(cal, s, k)
    ensures var t := ScriptStep(cal, s, id); k in t.store ==> WithinLastCap(cal, t, k)
  {
    var r, t := s.flights[id].req, ScriptStep(cal, s, id);
    ScriptAllOrNothing(cal, s.store, s.clock, r, k);
    if Decide(cal, s.store, s.clock, r).Admitted? {
      assert t.log[..|s.log|] == s.log;
      assert Charged(cal, r, k) ==> !Over(cal, s.store, s.clock, r, k.Kind());
    }
  }

  lemma FollowUpKinds(cal: Calendar, r: Request, p: Period)
    requires r.caps.For(p).Some?
    ensures forall i :: 0 <= i < |FollowUp(cal, r)| ==> FollowUp(cal, r)[i].key.Kind() != p
  {
    var todo := FollowUp(cal, r);
    forall i | 0 <= i < |todo|
      ensures todo[i].key.Kind() != p
    {
      assert todo[i] in Follow(cal, r, Daily) || todo[i] in Follow(cal, r, Monthly) || todo[i] in Follow(cal, r, Lifetime);
    }
  }

  lemma CappedOwesNothing(fs: seq<Flight>, p: Period, k: Key)
    requires k.Kind() == p && forall i :: 0 <= i < |fs| ==> CappedFlight(fs[i], p)
    ensures Pending(fs, k) == 0
  {
    if fs != [] {
      var f := fs[|fs| - 1];
      assert CappedFlight(f, p);
      if f.Draining? {
        OtherKindsOweNothing(f.todo, f.req.cost, k);
      }
    }
  }

  lemma OtherKindsOweNothing(todo: seq<Command>, cost: int, k: Key)
    requires forall i :: 0 <= i < |todo| ==> todo[i].key.Kind() != k.Kind()
    ensures Owed(todo, cost, k) == 0
  {
  }

  /** Only the script touches the key of a capped period, and it charges and renews at once. */
  lemma {:induction false} CappedTouches(cal: Calendar, acts: seq<Action>, k: Key)
    requires AlwaysCapped(acts, k.Kind())
    ensures forall t :: t in Touches(cal, acts, k) ==> t.charges && t.renews
  {
    if acts != [] {
      var front, a := acts[..|acts| - 1], acts[|acts| - 1];
      assert forall i :: 0 <= i < |front| ==> acts[i] == front[i];
      CappedTouches(cal, front, k);
      RunsAreCapped(cal, front, k.Kind());
      var s := Run(cal, front);
      assert a.Send? && a.id < |s.flights| ==> CappedFlight(s.flights[a.id], k.Kind());
    }
  }

  /** Two neighbouring charges of the key are a TTL or more apart. */
  ghost predicate Idle(cal: Calendar, acts: seq<Action>, k: Key) {
    exists i :: ApartAt(Touches(cal, acts, k), Ttl(k.Kind()), i)
  }

  /** Under a cap, a counter is lost exactly when two neighbouring charges are a TTL or more apart. */
  lemma CappedLapse(cal: Calendar, acts: seq<Action>, k: Key)
    requires AlwaysCapped(acts, k.Kind())
    ensures k in Run(cal, acts).lapsed <==> Idle(cal, acts, k)
  {
    LapseExactly(cal, acts, k);
    RunTouchesFit(cal, acts, k);
    CappedTouches(cal, acts, k);
    GapOfCharges(Touches(cal, acts, k), Ttl(k.Kind()));
  }

  /**
   Under caps that may change from call to call, after every step of every
   interleaving each counter is within the cap under which it was last charged,
   and it is the sum of the costs admitted in its period exactly when no two
   neighbouring charges are a TTL or more apart.
   */
  lemma CapSafety(cal: Calendar, acts: seq<Action>, k: Key)
    requires AlwaysCapped(acts, k.Kind())
    ensures var s := Run(cal, acts);
      && (k in s.store ==> WithinLastCap(cal, s, k))
      && (Value(s, k) == Total(cal, s.log, k) <==> !Idle(cal, acts, k))
  {
    RunsAreCapped(cal, acts, k.Kind());
    CountersAgree(cal, acts, k);
    CappedLapse(cal, acts, k);
    CappedOwesNothing(Run(cal, acts).flights, k.Kind(), k);
  }

  /** With one fixed cap, no counter exceeds it, ever, and the admitted costs of a period do not unless it has lapsed. */
  lemma FixedCapSafety(cal: Calendar, acts: seq<Action>, limit: nat, k: Key)
    requires FixedCap(acts, k.Kind(), limit)
    ensures var s := Run(cal, acts);
      && Value(s, k) <= limit
      && (!Idle(cal, acts, k) ==> Total(cal, s.log, k) <= limit)
  {
    CapSafety(cal, acts, k);
    RunsAreSourced(cal, acts, HasLimit(k.Kind(), limit));
    LastCapIsFixed(cal, Run(cal, acts), k, limit);
  }

  lemma LastCapIsFixed(cal: Calendar, s: State, k: Key, limit: nat)
    requires Sourced(s, HasLimit(k.Kind(), limit))
    ensures LastCap(cal, s.log, k).Some? ==> LastCap(cal, s.log, k).value == limit
    decreases |s.log|
  {
    if s.log != [] {
      assert Sound(s, HasLimit(k.Kind(), limit), s.log[|s.log| - 1]);
      var t := s.(log := s.log[..|s.log| - 1]);
      forall i | 0 <= i < |t.log|
        ensures Sound(t, HasLimit(k.Kind(), limit), t.log[i])
      {
        assert Sound(s, HasLimit(k.Kind(), limit), s.log[i]);
      }
      LastCapIsFixed(cal, t, k, limit);
    }
  }

  // ------------------------------------------------------------------
  // What fits the budget is admitted
  // ------------------------------------------------------------------

  /** The cost fits what the admitted requests of the period have left of this cap. */
  ghost predicate WithinBudget(cal: Calendar, log: seq<Request>, r: Request, p: Period) {
    forall limit :: r.caps.For(p) == Some(limit) && limit >= 0 ==>
      Total(cal, log, KeyOf(cal, p, r.at)) + r.cost <= limit
  }

  /** The script of this call, run now, admits it. */
  ghost predicate AdmittedNow(cal: Calendar, s: State, id: nat)
    requires id < |s.flights| && s.flights[id].Ready?
  {
    ScriptStep(cal, s, id).log == s.log + [s.flights[id].req]
  }

  lemma AdmittedIsDecided(cal: Calendar, s: State, id: nat)
    requires id < |s.flights| && s.flights[id].Ready?
    ensures AdmittedNow(cal, s, id) <==> forall p: Period :: Affords(cal, s.store, s.clock, s.flights[id].req, p)
  {
    DecidesExactly(cal, s.store, s.clock, s.flights[id].req);
  }

  lemma {:induction false} PendingNotNegative(fs: seq<Flight>, k: Key)
    requires forall i :: 0 <= i < |fs| ==> fs[i].req.cost > 0
    ensures Pending(fs, k) >= 0
  {
    if fs != [] {
      PendingNotNegative(fs[..|fs| - 1], k);
      var f := fs[|fs| - 1];
      if f.Draining? {
        OwedNotNegative(f.todo, f.req.cost, k);
      }
    }
  }

  lemma {:induction false} OwedNotNegative(todo: seq<Command>, cost: int, k: Key)
    requires cost > 0
    ensures Owed(todo, cost, k) >= 0
  {
    if todo != [] {
      OwedNotNegative(todo[1..], cost, k);
    }
  }

  /** A counter never reads more than the admitted costs of its period. */
  lemma ReadWithinTotal(cal: Calendar, acts: seq<Action>, k: Key)
    ensures var s := Run(cal, acts); Read(s.store, s.clock, k) <= Value(s, k) <= Total(cal, s.log, k)
  {
    RunsArePositive(cal, acts);
    CountersAgree(cal, acts, k);
    PendingNotNegative(Run(cal, acts).flights, k);
  }

  /**
   In every run, whatever the other requests, their caps and the lapses: a
   request whose cost fits what is left of each of its own caps is admitted.
   */
  lemma BudgetAdmits(cal: Calendar, acts: seq<Action>, id: nat)
    requires id < |Run(cal, acts).flights| && Run(cal, acts).flights[id].Ready?
    requires forall p: Period :: WithinBudget(cal, Run(cal, acts).log, Run(cal, acts).flights[id].req, p)
    ensures AdmittedNow(cal, Run(cal, acts), id)
  {
    var s := Run(cal, acts);
    var r := s.flights[id].req;
    forall p: Period
      ensures Affords(cal, s.store, s.clock, r, p)
    {
      ReadWithinTotal(cal, acts, KeyOf(cal, p, r.at));
      assert WithinBudget(cal, s.log, r, p);
    }
    AdmittedIsDecided(cal, s, id);
  }

  /** Neither before nor by a charge right now would the key have been left alone for its TTL. */
  ghost predicate InUse(cal: Calendar, acts: seq<Action>, k: Key) {
    !Gap(Touches(cal, acts, k) + [Touch(Run(cal, acts).clock, true, true)], Ttl(k.Kind()))
  }

  lemma InUseIsLive(cal: Calendar, acts: seq<Action>, k: Key)
    requires InUse(cal, acts, k)
    ensures var s := Run(cal, acts); k !in s.lapsed && Read(s.store, s.clock, k) == Value(s, k)
  {
    var s, ts, now := Run(cal, acts), Touches(cal, acts, k), Touch(Run(cal, acts).clock, true, true);
    RunTouchesFit(cal, acts, k);
    TouchesSnoc(ts, now, s.clock);
    LapseExact(ts + [now], Ttl(k.Kind()));
    assert (ts + [now])[..|ts|] == ts;
    assert !LapsesAt(LifeIn(s, k), now);
  }

  /** Then a capped counter reads exactly the admitted costs of its period. */
  lemma InUseReadsTotal(cal: Calendar, acts: seq<Action>, k: Key)
    requires AlwaysCapped(acts, k.Kind()) && InUse(cal, acts, k)
    ensures var s := Run(cal, acts); Read(s.store, s.clock, k) == Total(cal, s.log, k)
  {
    InUseIsLive(cal, acts, k);
    CountersAgree(cal, acts, k);
    RunsAreCapped(cal, acts, k.Kind());
    CappedOwesNothing(Run(cal, acts).flights, k.Kind(), k);
  }

  /**
   Where every request carries a cap for the periods in question and their
   counters are in use, admission is exactly fitting the budget: the sum of the
   admitted costs decides, for each period against its own cap.
   */
  lemma BudgetExactly(cal: Calendar, acts: seq<Action>, id: nat)
    requires id < |Run(cal, acts).flights| && Run(cal, acts).flights[id].Ready?
    requires var r := Run(cal, acts).flights[id].req;
      forall p: Period :: r.caps.For(p).Some? ==> AlwaysCapped(acts, p) && InUse(cal, acts, KeyOf(cal, p, r.at))
    ensures var s := Run(cal, acts);
      AdmittedNow(cal, s, id) <==> forall p: Period :: WithinBudget(cal, s.log, s.flights[id].req, p)
  {
    var s := Run(cal, acts);
    var r := s.flights[id].req;
    forall p: Period
      ensures Affords(cal, s.store, s.clock, r, p) <==> WithinBudget(cal, s.log, r, p)
    {
      if r.caps.For(p).Some? {
        InUseReadsTotal(cal, acts, KeyOf(cal, p, r.at));
      }
    }
    AdmittedIsDecided(cal, s, id);
  }

  // ------------------------------------------------------------------
  // Where the guarantees end
  // ------------------------------------------------------------------

  lemma RunSnoc(cal: Calendar, acts: seq<Action>, a: Action)
    ensures Run(cal, acts + [a]) == Step(cal, Run(cal, acts), a)
  {
    assert (acts + [a])[..|acts|] == acts;
  }

  /** A charge, and a second one in the same period after `wait` seconds whose script runs `lag` seconds later. */
  function TwoCharges(caps: Caps, wait: nat, lag: nat): seq<Action> {
    [Begin(10, caps), RunScript(0), Tick(wait), Begin(10, caps), Tick(lag), RunScript(1)]
  }

  ghost function Again(cal: Calendar, s: State, caps: Caps, wait: nat, lag: nat): State {
    Step(cal, Step(cal, Step(cal, Step(cal, s, Tick(wait)), Begin(10, caps)), Tick(lag)), RunScript(1))
  }

  lemma TwoChargesRun(cal: Calendar, caps: Caps, wait: nat, lag: nat)
    ensures var c := TwoCharges(caps, wait, lag);
      var s := Step(cal, Step(cal, Init, Begin(10, caps)), RunScript(0));
      Run(cal, c) == Again(cal, s, caps, wait, lag)
  {
    var c := TwoCharges(caps, wait, lag);
    RunSnoc(cal, c[..0], c[0]);
    RunSnoc(cal, c[..1], c[1]);
    RunSnoc(cal, c[..2], c[2]);
    RunSnoc(cal, c[..3], c[3]);
    RunSnoc(cal, c[..4], c[4]);
    RunSnoc(cal, c[..5], c[5]);
    assert c[..0] + [c[0]] == c[..1] && c[..1] + [c[1]] == c[..2] && c[..2] + [c[2]] == c[..3];
    assert c[..3] + [c[3]] == c[..4] && c[..4] + [c[4]] == c[..5] && c[..5] + [c[5]] == c;
  }

  /** Once the key of the first charge is gone, the second one is admitted whatever the first has used up. */
  lemma SecondAdmitted(cal: Calendar, caps: Caps, p: Period, wait: nat, lag: nat)
    requires caps.For(p) == Some(10) && forall q: Period :: q != p ==> caps.For(q).None?
    requires KeyOf(cal, p, wait) == KeyOf(cal, p, 0)
    ensures var s := Run(cal, TwoCharges(caps, wait, lag));
      && s.late == (lag > SLACK)
      && Total(cal, s.log, KeyOf(cal, p, 0)) == if wait + lag >= Ttl(p) then 20 else 10
  {
    TwoChargesRun(cal, caps, wait, lag);
    FirstCharge(cal, caps, p);
    SecondCharge(cal, Step(cal, Step(cal, Init, Begin(10, caps)), RunScript(0)), caps, p, wait, lag);
  }

  lemma FirstCharge(cal: Calendar, caps: Caps, p: Period)
    requires caps.For(p) == Some(10) && forall q: Period :: q != p ==> caps.For(q).None?
    ensures var s := Step(cal, Step(cal, Init, Begin(10, caps)), RunScript(0));
      var k := KeyOf(cal, p, 0);
      && s.clock == 0 && |s.flights| == 1 && !s.late && k in s.store && s.store[k] == Cell(10, Some(Ttl(p)))
      && Total(cal, s.log, k) == 10
  {
    var begun := Step(cal, Init, Begin(10, caps));
    var first := Request(10, caps, 0);
    assert begun.flights == [Ready(first)];
    OnlyCapDecides(cal, begun, 0, first, p);
    TotalSnoc(cal, [], first, KeyOf(cal, p, 0));
  }

  lemma SecondCharge(cal: Calendar, s: State, caps: Caps, p: Period, wait: nat, lag: nat)
    requires caps.For(p) == Some(10) && forall q: Period :: q != p ==> caps.For(q).None?
    requires KeyOf(cal, p, wait) == KeyOf(cal, p, 0)
    requires s.clock == 0 && |s.flights| == 1 && KeyOf(cal, p, 0) in s.store
    requires s.store[KeyOf(cal, p, 0)] == Cell(10, Some(Ttl(p)))
    ensures var t := Again(cal, s, caps, wait, lag);
      var k := KeyOf(cal, p, 0);
      && t.late == (s.late || lag > SLACK)
      && Total(cal, t.log, k) == Total(cal, s.log, k) + if wait + lag >= Ttl(p) then 10 else 0
  {
    var second := Request(10, caps, wait);
    var later := Step(cal, Step(cal, Step(cal, s, Tick(wait)), Begin(10, caps)), Tick(lag));
    assert later.flights[1] == Ready(second) && later.store == s.store;
    OnlyCapDecides(cal, later, 1, second, p);
    TotalSnoc(cal, s.log, second, KeyOf(cal, p, 0));
  }

  /** With one cap of 10, a charge of 10 is admitted exactly when the counter reads nothing. */
  lemma OnlyCapDecides(cal: Calendar, s: State, id: nat, r: Request, p: Period)
    requires id < |s.flights| && s.flights[id] == Ready(r) && r.cost == 10
    requires r.caps.For(p) == Some(10) && forall q: Period :: q != p ==> r.caps.For(q).None?
    requires Read(s.store, s.clock, KeyOf(cal, p, r.at)) >= 0
    ensures var t := Step(cal, s, RunScript(id));
      var k := KeyOf(cal, p, r.at);
      && t.clock == s.clock && |t.flights| == |s.flights| && t.late == (s.late || Late(s, r))
      && if Read(s.store, s.clock, k) == 0 then
           t.log == s.log + [r] && k in t.store && t.store[k] == Cell(10, Some(s.clock + Ttl(p)))
         else
           t.log == s.log
  {
    ScriptAllOrNothing(cal, s.store, s.clock, r, KeyOf(cal, p, r.at));
    assert forall q: Period :: q != p ==> !Over(cal, s.store, s.clock, r, q);
  }

  /** One second more than the hour of slack, and a daily cap of 10 admits 20 in its day. */
  lemma LateChargeRestartsTheDay(cal: Calendar)
    ensures var acts := TwoCharges(Caps(Some(10), None, None), 86_399, 3_601);
      FixedCap(acts, Daily, 10) && Run(cal, acts).late && Total(cal, Run(cal, acts).log, DailyKey(0)) == 20
    ensures var acts := TwoCharges(Caps(Some(10), None, None), 86_399, 3_600);
      !Run(cal, acts).late && Total(cal, Run(cal, acts).log, DailyKey(0)) == 10
  {
    SecondAdmitted(cal, Caps(Some(10), None, None), Daily, 86_399, 3_601);
    SecondAdmitted(cal, Caps(Some(10), None, None), Daily, 86_399, 3_600);
  }

  /** The month's key is kept for 32 days after a charge, to the second. */
  lemma MonthKeptThirtyTwoDays(cal: Calendar)
    ensures var acts := TwoCharges(Caps(None, Some(10), None), 0, 32 * 86_400);
      Total(cal, Run(cal, acts).log, MonthlyKey(cal(0))) == 20
    ensures var acts := TwoCharges(Caps(None, Some(10), None), 0, 32 * 86_400 - 1);
      Total(cal, Run(cal, acts).log, MonthlyKey(cal(0))) == 10
  {
    SecondAdmitted(cal, Caps(None, Some(10), None), Monthly, 0, 32 * 86_400);
    SecondAdmitted(cal, Caps(None, Some(10), None), Monthly, 0, 32 * 86_400 - 1);
  }

  /** Ten idle years reset the lifetime counter, late or not. */
  lemma IdleDecadeResetsLifetime(cal: Calendar)
    ensures var acts := TwoCharges(Caps(None, None, Some(10)), 3_650 * 86_400, 0);
      FixedCap(acts, Lifetime, 10) && !Run(cal, acts).late && Total(cal, Run(cal, acts).log, LifetimeKey) == 20
    ensures var acts := TwoCharges(Caps(None, None, Some(10)), 3_650 * 86_400 - 1, 0);
      Total(cal, Run(cal, acts).log, LifetimeKey) == 10
  {
    SecondAdmitted(cal, Caps(None, None, Some(10)), Lifetime, 3_650 * 86_400, 0);
    SecondAdmitted(cal, Caps(None, None, Some(10)), Lifetime, 3_650 * 86_400 - 1, 0);
  }

  /**
   A negative daily cap is not enforced and not recorded: after one call of
   cost 10 the month has 10 and its days have nothing.
   */
  lemma NegativeCapLosesSpend(cal: Calendar)
    ensures var acts := [Begin(10, Caps(Some(-1), None, None)), RunScript(0), Send(0), Send(0), Send(0), Send(0)];
      var s := Run(cal, acts);
      && Quiet(s) && |s.log| == 1
      && Value(s, MonthlyKey(cal(0))) == 10 && Value(s, DailyKey(0)) == 0
  {
    var acts := [Begin(10, Caps(Some(-1), None, None)), RunScript(0), Send(0), Send(0), Send(0), Send(0)];
    RunSnoc(cal, acts[..0], acts[0]);
    RunSnoc(cal, acts[..1], acts[1]);
    RunSnoc(cal, acts[..2], acts[2]);
    RunSnoc(cal, acts[..3], acts[3]);
    RunSnoc(cal, acts[..4], acts[4]);
    RunSnoc(cal, acts[..5], acts[5]);
    assert acts[..0] + [acts[0]] == acts[..1] && acts[..1] + [acts[1]] == acts[..2] && acts[..2] + [acts[2]] == acts[..3];
    assert acts[..3] + [acts[3]] == acts[..4] && acts[..4] + [acts[4]] == acts[..5] && acts[..5] + [acts[5]] == acts;
    var m, r := MonthlyKey(cal(0)), Request(10, Caps(Some(-1), None, None), 0);
    NegativeBegun(cal, r);
    SendOne(cal, Run(cal, acts[..2]), r, [Incr(m), SetExpiry(m, MONTHLY_TTL), Incr(LifetimeKey), SetExpiry(LifetimeKey, LIFETIME_TTL)]);
    SendOne(cal, Run(cal, acts[..3]), r, [SetExpiry(m, MONTHLY_TTL), Incr(LifetimeKey), SetExpiry(LifetimeKey, LIFETIME_TTL)]);
    SendOne(cal, Run(cal, acts[..4]), r, [Incr(LifetimeKey), SetExpiry(LifetimeKey, LIFETIME_TTL)]);
    SendOne(cal, Run(cal, acts[..5]), r, [SetExpiry(LifetimeKey, LIFETIME_TTL)]);
  }

  lemma NegativeBegun(cal: Calendar, r: Request)
    requires r == Request(10, Caps(Some(-1), None, None), 0)
    ensures var s := Step(cal, Step(cal, Init, Begin(10, r.caps)), RunScript(0));
      var m := MonthlyKey(cal(0));
      && s.store == map[] && s.clock == 0 && s.log == [r]
      && s.flights == [Draining(r, [Incr(m), SetExpiry(m, MONTHLY_TTL), Incr(LifetimeKey), SetExpiry(LifetimeKey, LIFETIME_TTL)])]
  {
    var begun := Step(cal, Init, Begin(10, r.caps));
    assert begun.flights == [Ready(r)];
    assert Follow(cal, r, Daily) == [];
    assert FollowUp(cal, r) == Follow(cal, r, Monthly) + Follow(cal, r, Lifetime);
    assert AfterScript(cal, begun.store, 0, r) == map[];
    var m, todo := MonthlyKey(cal(0)), FollowUp(cal, r);
    assert 0 / DAY == 0;
    assert todo == [Incr(m), SetExpiry(m, MONTHLY_TTL), Incr(LifetimeKey), SetExpiry(LifetimeKey, LIFETIME_TTL)];
    var s := Step(cal, begun, RunScript(0));
    assert s.flights == [Draining(r, todo)];
    assert s.store == map[];
    assert s.log == [r];
  }

  lemma SendOne(cal: Calendar, s: State, r: Request, todo: seq<Command>)
    requires s.flights == [Draining(r, todo)] && todo != []
    ensures var t := Step(cal, s, Send(0));
      && t.store == Apply(s.store, s.clock, todo[0], r.cost) && t.clock == s.clock && t.log == s.log
      && t.flights == [if |todo| == 1 then Done(r) else Draining(r, todo[1..])]
  {
  }
}
