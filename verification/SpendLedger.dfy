/**
 The spend ledger of one token: what one call of `check_and_increment_spend`
 does to its Redis counters, command by command.

 Amounts are exact (micro-dollars); times are whole seconds of one clock. The
 calendar that assigns days to months is a parameter.
 */
module SpendLedger {
  import opened Options

  const DAY: nat := 86_400
  const DAILY_TTL: nat := 86_400 + 3_600
  const MONTHLY_TTL: nat := 86_400 * 32
  const LIFETIME_TTL: nat := 86_400 * 365 * 10

  /** How much longer than its day a daily key is kept. */
  const SLACK: nat := DAILY_TTL - DAY

  type Calendar = nat -> nat

  /** No month is longer than 31 days. */
  ghost predicate ValidCalendar(cal: Calendar) {
    forall a, b :: cal(a) == cal(b) ==> a <= b + 30
  }

  datatype Period = Daily | Monthly | Lifetime

  datatype Key = DailyKey(day: nat) | MonthlyKey(month: nat) | LifetimeKey {
    function Kind(): Period {
      match this
      case DailyKey(_) => Daily
      case MonthlyKey(_) => Monthly
      case LifetimeKey => Lifetime
    }
  }

  function KeyOf(cal: Calendar, p: Period, at: nat): (k: Key)
    ensures k.Kind() == p
  {
    match p
    case Daily => DailyKey(at / DAY)
    case Monthly => MonthlyKey(cal(at / DAY))
    case Lifetime => LifetimeKey
  }

  function Ttl(p: Period): nat {
    match p
    case Daily => DAILY_TTL
    case Monthly => MONTHLY_TTL
    case Lifetime => LIFETIME_TTL
  }

  datatype Caps = Caps(daily: Option<int>, monthly: Option<int>, lifetime: Option<int>) {
    function For(p: Period): Option<int> {
      match p
      case Daily => daily
      case Monthly => monthly
      case Lifetime => lifetime
    }

    /** The script enforces a cap that is present and not negative. */
    predicate Enforced(p: Period) {
      For(p).Some? && For(p).value >= 0
    }

    /** A negative cap is neither enforced by the script nor recorded after it. */
    predicate Ignored(p: Period) {
      For(p).Some? && For(p).value < 0
    }
  }

  // ------------------------------------------------------------------
  // Redis
  // ------------------------------------------------------------------

  datatype Cell = Cell(value: int, expireAt: Option<nat>) {
    predicate Live(clock: nat) {
      expireAt.None? || clock < expireAt.value
    }
  }

  /** A cell that has expired stays in the map; no command can see it. */
  type Store = map<Key, Cell>

  predicate Visible(s: Store, clock: nat, k: Key) {
    k in s && s[k].Live(clock)
  }

  function Read(s: Store, clock: nat, k: Key): int {
    if Visible(s, clock, k) then s[k].value else 0
  }

  function IncrBy(s: Store, clock: nat, k: Key, amount: int): Store {
    if Visible(s, clock, k) then s[k := s[k].(value := s[k].value + amount)] else s[k := Cell(amount, None)]
  }

  function Expire(s: Store, clock: nat, k: Key, ttl: nat): Store {
    if Visible(s, clock, k) then s[k := s[k].(expireAt := Some(clock + ttl))] else s
  }

  // ------------------------------------------------------------------
  // The script
  // ------------------------------------------------------------------

  datatype Verdict = Admitted | Exceeded(cap: Period)

  datatype Request = Request(cost: int, caps: Caps, at: nat)

  predicate Over(cal: Calendar, s: Store, clock: nat, r: Request, p: Period) {
    r.caps.Enforced(p) && Read(s, clock, KeyOf(cal, p, r.at)) + r.cost > r.caps.For(p).value
  }

  function Decide(cal: Calendar, s: Store, clock: nat, r: Request): Verdict {
    if Over(cal, s, clock, r, Lifetime) then Exceeded(Lifetime)
    else if Over(cal, s, clock, r, Monthly) then Exceeded(Monthly)
    else if Over(cal, s, clock, r, Daily) then Exceeded(Daily)
    else Admitted
  }

  /** The request fits what is left of this period's cap, if the period has one that is not negative. */
  ghost predicate Affords(cal: Calendar, s: Store, clock: nat, r: Request, p: Period) {
    forall limit :: r.caps.For(p) == Some(limit) && limit >= 0 ==>
      Read(s, clock, KeyOf(cal, p, r.at)) + r.cost <= limit
  }

  /** Lifetime comes before monthly, and monthly before daily. */
  predicate Higher(p: Period, q: Period) {
    (p == Lifetime && q != Lifetime) || (p == Monthly && q == Daily)
  }

  /** A request is admitted exactly when it fits every cap; otherwise the highest cap that it breaks is named. */
  lemma DecidesExactly(cal: Calendar, s: Store, clock: nat, r: Request)
    ensures Decide(cal, s, clock, r) == Admitted <==> forall p: Period :: Affords(cal, s, clock, r, p)
    ensures forall p: Period :: Decide(cal, s, clock, r) == Exceeded(p) <==>
      !Affords(cal, s, clock, r, p) && forall q: Period :: Higher(q, p) ==> Affords(cal, s, clock, r, q)
  {
    forall p: Period
      ensures Affords(cal, s, clock, r, p) <==> !Over(cal, s, clock, r, p)
    {
      OverExceeds(cal, s, clock, r, p);
    }
  }

  lemma OverExceeds(cal: Calendar, s: Store, clock: nat, r: Request, p: Period)
    ensures Over(cal, s, clock, r, p) <==> !Affords(cal, s, clock, r, p)
  {
    if r.caps.For(p).Some? {
      assert r.caps.For(p) == Some(r.caps.For(p).value);
    }
  }

  function ChargeOne(cal: Calendar, s: Store, clock: nat, r: Request, p: Period): Store {
    if r.caps.Enforced(p) then
      var k := KeyOf(cal, p, r.at);
      Expire(IncrBy(s, clock, k, r.cost), clock, k, Ttl(p))
    else
      s
  }

  function ChargeAll(cal: Calendar, s: Store, clock: nat, r: Request): Store {
    ChargeOne(cal, ChargeOne(cal, ChargeOne(cal, s, clock, r, Daily), clock, r, Monthly), clock, r, Lifetime)
  }

  function AfterScript(cal: Calendar, s: Store, clock: nat, r: Request): Store {
    if Decide(cal, s, clock, r).Admitted? then ChargeAll(cal, s, clock, r) else s
  }

  /** Does the script charge this key for the request? */
  predicate Charged(cal: Calendar, r: Request, k: Key) {
    r.caps.Enforced(k.Kind()) && k == KeyOf(cal, k.Kind(), r.at)
  }

  lemma ChargeOneAt(cal: Calendar, s: Store, clock: nat, r: Request, p: Period, k: Key)
    ensures var after := ChargeOne(cal, s, clock, r, p);
      if r.caps.Enforced(p) && k == KeyOf(cal, p, r.at)
      then k in after && after[k] == Cell(Read(s, clock, k) + r.cost, Some(clock + Ttl(p)))
      else (k in after <==> k in s) && (k in s ==> after[k] == s[k])
  {
  }

  /** The script charges every enforced counter and no other, or charges none and names the highest cap exceeded. */
  lemma ScriptAllOrNothing(cal: Calendar, s: Store, clock: nat, r: Request, k: Key)
    ensures var after := AfterScript(cal, s, clock, r);
      match Decide(cal, s, clock, r)
      case Admitted =>
        && !Over(cal, s, clock, r, k.Kind())
        && if Charged(cal, r, k)
           then k in after && after[k] == Cell(Read(s, clock, k) + r.cost, Some(clock + Ttl(k.Kind())))
           else (k in after <==> k in s) && (k in s ==> after[k] == s[k])
      case Exceeded(p) =>
        && after == s && Over(cal, s, clock, r, p)
        && (p == Daily ==> !Over(cal, s, clock, r, Monthly) && !Over(cal, s, clock, r, Lifetime))
        && (p == Monthly ==> !Over(cal, s, clock, r, Lifetime))
  {
    var s1 := ChargeOne(cal, s, clock, r, Daily);
    var s2 := ChargeOne(cal, s1, clock, r, Monthly);
    ChargeOneAt(cal, s, clock, r, Daily, k);
    ChargeOneAt(cal, s1, clock, r, Monthly, k);
    ChargeOneAt(cal, s2, clock, r, Lifetime, k);
  }

  // ------------------------------------------------------------------
  // The increments of the uncapped counters, two commands each
  // ------------------------------------------------------------------

  datatype Command = Incr(key: Key) | SetExpiry(key: Key, ttl: nat)

  function Follow(cal: Calendar, r: Request, p: Period): seq<Command> {
    if r.caps.For(p).None? then [Incr(KeyOf(cal, p, r.at)), SetExpiry(KeyOf(cal, p, r.at), Ttl(p))] else []
  }

  function FollowUp(cal: Calendar, r: Request): seq<Command> {
    Follow(cal, r, Daily) + Follow(cal, r, Monthly) + Follow(cal, r, Lifetime)
  }

  function Apply(s: Store, clock: nat, c: Command, cost: int): Store {
    match c
    case Incr(k) => IncrBy(s, clock, k, cost)
    case SetExpiry(k, ttl) => Expire(s, clock, k, ttl)
  }

  function ApplyAll(s: Store, clock: nat, cs: seq<Command>, cost: int): Store
    decreases |cs|
  {
    if cs == [] then s else ApplyAll(Apply(s, clock, cs[0], cost), clock, cs[1..], cost)
  }

  lemma {:induction false} ApplyConcat(s: Store, clock: nat, a: seq<Command>, b: seq<Command>, cost: int)
    ensures ApplyAll(s, clock, a + b, cost) == ApplyAll(ApplyAll(s, clock, a, cost), clock, b, cost)
    decreases |a|
  {
    if a == [] {
      assert a + b == b;
    } else {
      assert (a + b)[1..] == a[1..] + b;
      ApplyConcat(Apply(s, clock, a[0], cost), clock, a[1..], b, cost);
    }
  }

  lemma ApplyTwo(s: Store, clock: nat, c: Command, d: Command, cost: int)
    ensures ApplyAll(s, clock, [c, d], cost) == Apply(Apply(s, clock, c, cost), clock, d, cost)
  {
    assert [c, d][1..] == [d] && [d][1..] == [];
    assert ApplyAll(Apply(s, clock, c, cost), clock, [d], cost) == Apply(Apply(s, clock, c, cost), clock, d, cost);
  }

  /** The counters of one token, with the commands the gateway sends. */
  class Redis {
    var store: Store
    var clock: nat

    constructor ()
      ensures store == map[] && clock == 0
    {
      store, clock := map[], 0;
    }

    method Get(k: Key) returns (v: int)
      ensures v == Read(store, clock, k)
    {
      v := if k in store && store[k].Live(clock) then store[k].value else 0;
    }

    method IncrByFloat(k: Key, amount: int)
      modifies this`store
      ensures store == IncrBy(old(store), clock, k, amount)
    {
      if k in store && store[k].Live(clock) {
        store := store[k := Cell(store[k].value + amount, store[k].expireAt)];
      } else {
        store := store[k := Cell(amount, None)];
      }
    }

    method SetTtl(k: Key, ttl: nat)
      modifies this`store
      ensures store == Expire(old(store), clock, k, ttl)
    {
      if k in store && store[k].Live(clock) {
        store := store[k := Cell(store[k].value, Some(clock + ttl))];
      }
    }

    /** The Lua script: read, test, then charge all or none. */
    method Script(cal: Calendar, r: Request) returns (verdict: Verdict)
      modifies this`store
      ensures verdict == Decide(cal, old(store), clock, r)
      ensures verdict == Admitted <==> forall p: Period :: Affords(cal, old(store), clock, r, p)
      ensures store == AfterScript(cal, old(store), clock, r)
    {
      DecidesExactly(cal, store, clock, r);
      var dailyCur, monthlyCur, lifetimeCur := 0, 0, 0;
      if r.caps.Enforced(Daily) {
        dailyCur := Get(KeyOf(cal, Daily, r.at));
      }
      if r.caps.Enforced(Monthly) {
        monthlyCur := Get(KeyOf(cal, Monthly, r.at));
      }
      if r.caps.Enforced(Lifetime) {
        lifetimeCur := Get(KeyOf(cal, Lifetime, r.at));
      }
      var dailyExceeded := r.caps.Enforced(Daily) && dailyCur + r.cost > r.caps.daily.value;
      var monthlyExceeded := r.caps.Enforced(Monthly) && monthlyCur + r.cost > r.caps.monthly.value;
      var lifetimeExceeded := r.caps.Enforced(Lifetime) && lifetimeCur + r.cost > r.caps.lifetime.value;
      if !dailyExceeded && !monthlyExceeded && !lifetimeExceeded {
        if r.caps.Enforced(Daily) {
          IncrByFloat(KeyOf(cal, Daily, r.at), r.cost);
          SetTtl(KeyOf(cal, Daily, r.at), DAILY_TTL);
        }
        if r.caps.Enforced(Monthly) {
          IncrByFloat(KeyOf(cal, Monthly, r.at), r.cost);
          SetTtl(KeyOf(cal, Monthly, r.at), MONTHLY_TTL);
        }
        if r.caps.Enforced(Lifetime) {
          IncrByFloat(KeyOf(cal, Lifetime, r.at), r.cost);
          SetTtl(KeyOf(cal, Lifetime, r.at), LIFETIME_TTL);
        }
      }
      if lifetimeExceeded {
        return Exceeded(Lifetime);
      }
      if monthlyExceeded {
        return Exceeded(Monthly);
      }
      if dailyExceeded {
        return Exceeded(Daily);
      }
      return Admitted;
    }

    method TrackUncapped(cal: Calendar, r: Request, p: Period)
      modifies this`store
      ensures store == ApplyAll(old(store), clock, Follow(cal, r, p), r.cost)
    {
      if r.caps.For(p).None? {
        var key := KeyOf(cal, p, r.at);
        IncrByFloat(key, r.cost);
        SetTtl(key, Ttl(p));
        ApplyTwo(old(store), clock, Incr(key), SetExpiry(key, Ttl(p)), r.cost);
      }
    }

    /** `check_and_increment_spend`, undisturbed. */
    method CheckAndIncrementSpend(cal: Calendar, caps: Caps, cost: int) returns (verdict: Verdict)
      modifies this`store
      ensures cost <= 0 ==> verdict == Admitted && store == old(store)
      ensures cost > 0 ==>
        var r := Request(cost, caps, clock);
        && verdict == Decide(cal, old(store), clock, r)
        && store == if verdict.Admitted?
                    then ApplyAll(AfterScript(cal, old(store), clock, r), clock, FollowUp(cal, r), cost)
                    else old(store)
    {
      if cost <= 0 {
        return Admitted;
      }
      var r := Request(cost, caps, clock);
      verdict := Script(cal, r);
      if verdict.Exceeded? {
        return;
      }
      ApplyConcat(store, clock, Follow(cal, r, Daily) + Follow(cal, r, Monthly), Follow(cal, r, Lifetime), cost);
      ApplyConcat(store, clock, Follow(cal, r, Daily), Follow(cal, r, Monthly), cost);
      TrackUncapped(cal, r, Daily);
      TrackUncapped(cal, r, Monthly);
      TrackUncapped(cal, r, Lifetime);
    }
  }
}
