/**
 Many concurrent `check_and_increment_spend` calls against one ledger, as a
 step system. A call reads its caps and the time, later runs the script, and
 later still sends its follow-up commands one at a time; between any two of
 these steps other calls may act and time may pass.
 */
module SpendRuns {
  import opened Options
  import opened SpendLedger
  import opened KeyLives

  datatype Flight =
    | Ready(req: Request)
    | Draining(req: Request, todo: seq<Command>)
    | Done(req: Request)

  datatype State = State(
    clock: nat,
    store: Store,
    flights: seq<Flight>,
    /** The requests the script admitted, in order. */
    log: seq<Request>,
    /** Keys that were charged after they had expired, so that they restarted from zero. */
    lapsed: set<Key>,
    /** Some command came more than an hour after its request had read the time. */
    late: bool
  )

  const Init := State(0, map[], [], [], {}, false)

  datatype Action =
    | Tick(seconds: nat)
    /** A call with these caps begins; calls of no cost return at once. */
    | Begin(cost: int, caps: Caps)
    | RunScript(id: nat)
    | Send(id: nat)

  /** Keys among `ks` that exist but have expired. */
  ghost function Expired(s: State, ks: set<Key>): set<Key> {
    set k | k in ks && k in s.store && !s.store[k].Live(s.clock)
  }

  ghost function ChargedKeys(cal: Calendar, r: Request): set<Key> {
    set p: Period | r.caps.Enforced(p) :: KeyOf(cal, p, r.at)
  }

  ghost predicate Late(s: State, r: Request) {
    s.clock > r.at + SLACK
  }

  ghost function Step(cal: Calendar, s: State, a: Action): State {
    match a
    case Tick(seconds) => s.(clock := s.clock + seconds)
    case Begin(cost, caps) =>
      if cost <= 0 then s else s.(flights := s.flights + [Ready(Request(cost, caps, s.clock))])
    case RunScript(id) =>
      if id < |s.flights| && s.flights[id].Ready? then ScriptStep(cal, s, id) else s
    case Send(id) =>
      if id < |s.flights| && s.flights[id].Draining? && s.flights[id].todo != [] then SendStep(s, id) else s
  }

  ghost function ScriptStep(cal: Calendar, s: State, id: nat): State
    requires id < |s.flights| && s.flights[id].Ready?
  {
    var r := s.flights[id].req;
    if Decide(cal, s.store, s.clock, r).Admitted? then
      s.(store := AfterScript(cal, s.store, s.clock, r),
         flights := s.flights[id := if FollowUp(cal, r) == [] then Done(r) else Draining(r, FollowUp(cal, r))],
         log := s.log + [r],
         lapsed := s.lapsed + Expired(s, ChargedKeys(cal, r)),
         late := s.late || Late(s, r))
    else
      s.(flights := s.flights[id := Done(r)], late := s.late || Late(s, r))
  }

  ghost function SendStep(s: State, id: nat): State
    requires id < |s.flights| && s.flights[id].Draining? && s.flights[id].todo != []
  {
    var Draining(r, todo) := s.flights[id];
    s.(store := Apply(s.store, s.clock, todo[0], r.cost),
       flights := s.flights[id := if |todo| == 1 then Done(r) else Draining(r, todo[1..])],
       lapsed := s.lapsed + (if todo[0].Incr? then Expired(s, {todo[0].key}) else {}),
       late := s.late || Late(s, r))
  }

  ghost function Run(cal: Calendar, acts: seq<Action>): State {
    if acts == [] then Init else Step(cal, Run(cal, acts[..|acts| - 1]), acts[|acts| - 1])
  }

  // ------------------------------------------------------------------
  // A call that is not disturbed
  // ------------------------------------------------------------------

  /** One flight sends `n` commands in a row. */
  ghost function SendMany(cal: Calendar, s: State, id: nat, n: nat): State
    decreases n
  {
    if n == 0 then s else SendMany(cal, Step(cal, s, Send(id)), id, n - 1)
  }

  lemma {:induction false} SendsApply(cal: Calendar, s: State, id: nat, r: Request, todo: seq<Command>)
    requires id < |s.flights| && todo != [] && s.flights[id] == Draining(r, todo)
    ensures var t := SendMany(cal, s, id, |todo|);
      t.store == ApplyAll(s.store, s.clock, todo, r.cost) && t.flights == s.flights[id := Done(r)] && t.log == s.log
    decreases |todo|
  {
    var next := Step(cal, s, Send(id));
    if |todo| > 1 {
      SendsApply(cal, next, id, r, todo[1..]);
      assert next.flights[id := Done(r)] == s.flights[id := Done(r)];
    } else {
      assert todo[1..] == [];
      assert ApplyAll(next.store, s.clock, todo[1..], r.cost) == next.store;
      assert SendMany(cal, next, id, 0) == next;
    }
  }

  /** Without interference the steps of a call are the method `CheckAndIncrementSpend`. */
  lemma UndisturbedCall(cal: Calendar, s: State, cost: int, caps: Caps)
    requires cost > 0
    ensures var r := Request(cost, caps, s.clock);
      var ready := Step(cal, Step(cal, s, Begin(cost, caps)), RunScript(|s.flights|));
      var t := SendMany(cal, ready, |s.flights|, |FollowUp(cal, r)|);
      if Decide(cal, s.store, s.clock, r).Admitted? then
        && t.store == ApplyAll(AfterScript(cal, s.store, s.clock, r), s.clock, FollowUp(cal, r), cost)
        && t.flights == s.flights + [Done(r)] && t.log == s.log + [r]
      else
        ready.store == s.store && ready.flights == s.flights + [Done(r)] && ready.log == s.log
  {
    var r := Request(cost, caps, s.clock);
    var begun := Step(cal, s, Begin(cost, caps));
    var id := |s.flights|;
    assert begun.flights[id] == Ready(r);
    var ready := Step(cal, begun, RunScript(id));
    if Decide(cal, s.store, s.clock, r).Admitted? && FollowUp(cal, r) != [] {
      SendsApply(cal, ready, id, r, FollowUp(cal, r));
    }
  }

  // ------------------------------------------------------------------
  // What the counters should say
  // ------------------------------------------------------------------

  /** The last value of a counter, whether or not its key can still be read. */
  ghost function Value(s: State, k: Key): int {
    if k in s.store then s.store[k].value else 0
  }

  /** Does an admitted request count towards this counter? */
  ghost predicate Counts(cal: Calendar, r: Request, k: Key) {
    k == KeyOf(cal, k.Kind(), r.at) && !r.caps.Ignored(k.Kind())
  }

  /** The admitted costs of a counter's period. */
  ghost function Total(cal: Calendar, log: seq<Request>, k: Key): int {
    if log == [] then 0
    else
      var r := log[|log| - 1];
      Total(cal, log[..|log| - 1], k) + if Counts(cal, r, k) then r.cost else 0
  }

  /** What the commands still to be sent will add to a counter. */
  ghost function Owed(todo: seq<Command>, cost: int, k: Key): int {
    if todo == [] then 0 else (if todo[0] == Incr(k) then cost else 0) + Owed(todo[1..], cost, k)
  }

  ghost function FlightOwes(f: Flight, k: Key): int {
    if f.Draining? then Owed(f.todo, f.req.cost, k) else 0
  }

  ghost function Pending(flights: seq<Flight>, k: Key): int {
    if flights == [] then 0 else Pending(flights[..|flights| - 1], k) + FlightOwes(flights[|flights| - 1], k)
  }

  lemma {:induction false} PendingUpdate(fs: seq<Flight>, i: nat, f: Flight, k: Key)
    requires i < |fs|
    ensures Pending(fs[i := f], k) == Pending(fs, k) - FlightOwes(fs[i], k) + FlightOwes(f, k)
  {
    var n := |fs| - 1;
    if i == n {
      assert fs[i := f][..n] == fs[..n];
    } else {
      assert fs[i := f][..n] == fs[..n][i := f];
      PendingUpdate(fs[..n], i, f, k);
    }
  }

  lemma PendingAppend(fs: seq<Flight>, f: Flight, k: Key)
    ensures Pending(fs + [f], k) == Pending(fs, k) + FlightOwes(f, k)
  {
    assert (fs + [f])[..|fs|] == fs;
  }

  /** The follow-up commands owe each uncapped counter the cost, once. */
  lemma FollowUpOwes(cal: Calendar, r: Request, k: Key)
    ensures Owed(FollowUp(cal, r), r.cost, k)
         == if k == KeyOf(cal, k.Kind(), r.at) && r.caps.For(k.Kind()).None? then r.cost else 0
  {
    OwedConcat(Follow(cal, r, Daily) + Follow(cal, r, Monthly), Follow(cal, r, Lifetime), r.cost, k);
    OwedConcat(Follow(cal, r, Daily), Follow(cal, r, Monthly), r.cost, k);
    FollowOwes(cal, r, Daily, k);
    FollowOwes(cal, r, Monthly, k);
    FollowOwes(cal, r, Lifetime, k);
  }

  lemma FollowOwes(cal: Calendar, r: Request, p: Period, k: Key)
    ensures Owed(Follow(cal, r, p), r.cost, k) == if k == KeyOf(cal, p, r.at) && r.caps.For(p).None? then r.cost else 0
  {
    var todo := Follow(cal, r, p);
    if todo != [] {
      assert todo[1..][1..] == [];
      assert Owed(todo[1..], r.cost, k) == 0;
    }
  }

  lemma {:induction false} OwedConcat(a: seq<Command>, b: seq<Command>, cost: int, k: Key)
    ensures Owed(a + b, cost, k) == Owed(a, cost, k) + Owed(b, cost, k)
  {
    if a == [] {
      assert a + b == b;
    } else {
      assert (a + b)[1..] == a[1..] + b;
      OwedConcat(a[1..], b, cost, k);
    }
  }

  // ------------------------------------------------------------------
  // Conservation, for every interleaving
  // ------------------------------------------------------------------

  /** Costs and counters are positive. */
  ghost predicate Positive(s: State) {
    && (forall i :: 0 <= i < |s.flights| ==> s.flights[i].req.cost > 0)
    && (forall k | k in s.store :: s.store[k].value > 0)
  }

  lemma {:induction false} RunsArePositive(cal: Calendar, acts: seq<Action>)
    ensures Positive(Run(cal, acts))
  {
    if acts != [] {
      var front, a := acts[..|acts| - 1], acts[|acts| - 1];
      RunsArePositive(cal, front);
      var s := Run(cal, front);
      if a.RunScript? && a.id < |s.flights| && s.flights[a.id].Ready? {
        var r := s.flights[a.id].req;
        forall k | k in AfterScript(cal, s.store, s.clock, r)
          ensures AfterScript(cal, s.store, s.clock, r)[k].value > 0
        {
          ScriptAllOrNothing(cal, s.store, s.clock, r, k);
        }
      }
    }
  }

  /** Does this step charge the key after it has expired? */
  ghost predicate Restarts(cal: Calendar, s: State, a: Action, k: Key) {
    && k in s.store && !s.store[k].Live(s.clock)
    && TouchesOf(cal, s, a, k) != [] && TouchesOf(cal, s, a, k)[0].charges
  }

  /** A counter and what is on its way to it, against the admitted costs. */
  ghost function Balance(cal: Calendar, s: State, k: Key): int {
    Value(s, k) + Pending(s.flights, k) - Total(cal, s.log, k)
  }

  /** A step leaves the balance alone, unless it throws away the count of a key that has expired. */
  ghost predicate Balances(cal: Calendar, s: State, a: Action, t: State, k: Key) {
    && (k in t.lapsed <==> k in s.lapsed || Restarts(cal, s, a, k))
    && Balance(cal, t, k) == Balance(cal, s, k) - if Restarts(cal, s, a, k) then s.store[k].value else 0
  }

  /**
   Every counter holds the admitted costs of its period, but for what is still
   on its way, exactly as long as it has not lapsed; from then on it holds less.
   */
  lemma {:induction false} CountersAgree(cal: Calendar, acts: seq<Action>, k: Key)
    ensures var s := Run(cal, acts);
      Balance(cal, s, k) <= 0 && (Balance(cal, s, k) == 0 <==> k !in s.lapsed)
  {
    if acts != [] {
      var front, a := acts[..|acts| - 1], acts[|acts| - 1];
      CountersAgree(cal, front, k);
      RunsArePositive(cal, front);
      StepBalances(cal, Run(cal, front), a, k);
    }
  }

  lemma StepBalances(cal: Calendar, s: State, a: Action, k: Key)
    ensures Balances(cal, s, a, Step(cal, s, a), k)
  {
    match a
    case Tick(_) =>
    case Begin(cost, caps) => PendingAppend(s.flights, Ready(Request(cost, caps, s.clock)), k);
    case RunScript(id) =>
      if id < |s.flights| && s.flights[id].Ready? {
        ScriptConserves(cal, s, id, k);
      }
    case Send(id) =>
      if id < |s.flights| && s.flights[id].Draining? && s.flights[id].todo != [] {
        SendConserves(cal, s, id, k);
      }
  }

  lemma ScriptConserves(cal: Calendar, s: State, id: nat, k: Key)
    requires id < |s.flights| && s.flights[id].Ready?
    ensures Balances(cal, s, RunScript(id), ScriptStep(cal, s, id), k)
  {
    var r := s.flights[id].req;
    var t := ScriptStep(cal, s, id);
    PendingUpdate(s.flights, id, t.flights[id], k);
    if Decide(cal, s.store, s.clock, r).Admitted? {
      FollowUpOwes(cal, r, k);
      TotalSnoc(cal, s.log, r, k);
      ScriptAdds(cal, s, id, k);
    }
  }

  lemma TotalSnoc(cal: Calendar, log: seq<Request>, r: Request, k: Key)
    ensures Total(cal, log + [r], k) == Total(cal, log, k) + if Counts(cal, r, k) then r.cost else 0
  {
    assert (log + [r])[..|log|] == log;
  }

  /** What the script adds to a counter, on top of what was there or, after a lapse, of nothing. */
  lemma ScriptAdds(cal: Calendar, s: State, id: nat, k: Key)
    requires id < |s.flights| && s.flights[id].Ready? && Decide(cal, s.store, s.clock, s.flights[id].req).Admitted?
    ensures var r, t := s.flights[id].req, ScriptStep(cal, s, id);
      var restarts := Charged(cal, r, k) && k in s.store && !s.store[k].Live(s.clock);
      && Value(t, k) == (if restarts then 0 else Value(s, k)) + (if Charged(cal, r, k) then r.cost else 0)
      && (k in t.lapsed <==> k in s.lapsed || restarts)
  {
    var r := s.flights[id].req;
    ScriptAllOrNothing(cal, s.store, s.clock, r, k);
    assert k in ChargedKeys(cal, r) <==> Charged(cal, r, k);
  }

  lemma SendConserves(cal: Calendar, s: State, id: nat, k: Key)
    requires id < |s.flights| && s.flights[id].Draining? && s.flights[id].todo != []
    ensures Balances(cal, s, Send(id), SendStep(s, id), k)
  {
    var Draining(r, todo) := s.flights[id];
    PendingUpdate(s.flights, id, SendStep(s, id).flights[id], k);
    assert |todo| == 1 ==> Owed(todo[1..], r.cost, k) == 0;
  }

  // ------------------------------------------------------------------
  // The commands of a run on one key, and when its counter is lost
  // ------------------------------------------------------------------

  /** The command, if any, by which a step touches the key. */
  ghost function TouchesOf(cal: Calendar, s: State, a: Action, k: Key): seq<Touch> {
    match a
    case RunScript(id) =>
      if && id < |s.flights| && s.flights[id].Ready?
         && Decide(cal, s.store, s.clock, s.flights[id].req).Admitted? && Charged(cal, s.flights[id].req, k)
      then [Touch(s.clock, true, true)] else []
    case Send(id) =>
      if id < |s.flights| && s.flights[id].Draining? && s.flights[id].todo != [] && s.flights[id].todo[0].key == k
      then [Touch(s.clock, s.flights[id].todo[0].Incr?, s.flights[id].todo[0].SetExpiry?)] else []
    case _ => []
  }

  ghost function Touches(cal: Calendar, acts: seq<Action>, k: Key): seq<Touch> {
    if acts == [] then []
    else
      var front := acts[..|acts| - 1];
      Touches(cal, front, k) + TouchesOf(cal, Run(cal, front), acts[|acts| - 1], k)
  }

  ghost function LifeIn(s: State, k: Key): Life {
    if k !in s.store then Absent
    else match s.store[k].expireAt case None => Forever case Some(e) => Until(e)
  }

  /** An EXPIRE goes out right after the increment of the same key. */
  ghost predicate InPairs(store: Store, todo: seq<Command>) {
    && (todo != [] && todo[0].SetExpiry? ==> todo[0].key in store)
    && (forall i :: 0 < i < |todo| ==> AfterIncr(todo, i))
    && (forall c :: c in todo ==> CommandOf(c))
  }

  ghost predicate AfterIncr(todo: seq<Command>, i: int)
    requires 0 < i < |todo|
  {
    todo[i].SetExpiry? ==> todo[i - 1] == Incr(todo[i].key)
  }

  ghost predicate CommandOf(c: Command) {
    c.SetExpiry? ==> c.ttl == Ttl(c.key.Kind())
  }

  ghost predicate FlightsPaired(s: State) {
    forall i :: 0 <= i < |s.flights| && s.flights[i].Draining? ==> InPairs(s.store, s.flights[i].todo)
  }

  /** The touches tell the key's life and whether it lapsed. */
  ghost predicate TouchesFit(s: State, ts: seq<Touch>, k: Key) {
    && Proper(ts)
    && (forall t :: t in ts ==> t.at <= s.clock && (t.charges || t.renews))
    && LifeIn(s, k) == LifeOf(ts, Ttl(k.Kind()))
    && (k in s.lapsed <==> Lapses(ts, Ttl(k.Kind())))
    && (ts == [] ==> k !in s.store)
  }

  lemma FollowUpPaired(cal: Calendar, store: Store, r: Request)
    ensures InPairs(store, FollowUp(cal, r))
  {
  }

  lemma RestPaired(store: Store, after: Store, todo: seq<Command>)
    requires todo != [] && InPairs(store, todo) && store.Keys + {todo[0].key} <= after.Keys
    ensures InPairs(after, todo[1..])
  {
    var rest := todo[1..];
    assert |rest| > 0 ==> AfterIncr(todo, 1);
    forall i | 0 < i < |rest|
      ensures AfterIncr(rest, i)
    {
      assert AfterIncr(todo, i + 1);
    }
  }

  lemma StepPaired(cal: Calendar, s: State, a: Action)
    requires FlightsPaired(s)
    ensures FlightsPaired(Step(cal, s, a))
  {
    var t := Step(cal, s, a);
    KeysStay(cal, s, a);
    forall i | 0 <= i < |t.flights| && t.flights[i].Draining?
      ensures InPairs(t.store, t.flights[i].todo)
    {
      if s.flights[i].Ready? {
        FollowUpPaired(cal, t.store, s.flights[i].req);
      } else if a.Send? && a.id == i && s.flights[i].todo != [] {
        RestPaired(s.store, t.store, s.flights[i].todo);
      }
    }
  }

  lemma {:induction false} RunsArePaired(cal: Calendar, acts: seq<Action>)
    ensures FlightsPaired(Run(cal, acts))
  {
    if acts != [] {
      RunsArePaired(cal, acts[..|acts| - 1]);
      StepPaired(cal, Run(cal, acts[..|acts| - 1]), acts[|acts| - 1]);
    }
  }

  /** Keys are never dropped from the map, expired or not. */
  lemma KeysStay(cal: Calendar, s: State, a: Action)
    ensures s.store.Keys <= Step(cal, s, a).store.Keys
  {
    if a.RunScript? && a.id < |s.flights| {
      forall k | k in s.store
        ensures k in AfterScript(cal, s.store, s.clock, s.flights[a.id].req)
      {
        ScriptAllOrNothing(cal, s.store, s.clock, s.flights[a.id].req, k);
      }
    }
  }

  /** A command touches the key now, and makes of its life what `LifeAfter` says. */
  ghost predicate TouchedBy(s: State, t: State, k: Key, touch: Touch) {
    && touch.at == s.clock && (touch.charges || touch.renews)
    && (k !in s.store ==> touch.charges)
    && LifeIn(t, k) == LifeAfter(LifeIn(s, k), touch, Ttl(k.Kind()))
    && (k in t.lapsed <==> k in s.lapsed || LapsesAt(LifeIn(s, k), touch))
  }

  ghost predicate Touched(s: State, t: State, k: Key, now: seq<Touch>) {
    && s.clock <= t.clock
    && if now == [] then LifeIn(t, k) == LifeIn(s, k) && (k in t.lapsed <==> k in s.lapsed)
       else |now| == 1 && TouchedBy(s, t, k, now[0])
  }

  lemma StepTouches(cal: Calendar, s: State, a: Action, k: Key)
    requires FlightsPaired(s)
    ensures Touched(s, Step(cal, s, a), k, TouchesOf(cal, s, a, k))
  {
    match a
    case RunScript(id) =>
      if id < |s.flights| && s.flights[id].Ready? {
        ScriptTouches(cal, s, id, k);
      }
    case Send(id) =>
      if id < |s.flights| && s.flights[id].Draining? && s.flights[id].todo != [] {
        SendTouches(cal, s, id, k);
      }
    case _ =>
  }

  lemma ScriptTouches(cal: Calendar, s: State, id: nat, k: Key)
    requires id < |s.flights| && s.flights[id].Ready?
    ensures var t, ts := ScriptStep(cal, s, id), TouchesOf(cal, s, RunScript(id), k);
      if ts == [] then LifeIn(t, k) == LifeIn(s, k) && (k in t.lapsed <==> k in s.lapsed)
      else TouchedBy(s, t, k, ts[0])
  {
    var r := s.flights[id].req;
    ScriptAllOrNothing(cal, s.store, s.clock, r, k);
    assert k in ChargedKeys(cal, r) <==> Charged(cal, r, k);
  }

  lemma SendTouches(cal: Calendar, s: State, id: nat, k: Key)
    requires id < |s.flights| && s.flights[id].Draining? && s.flights[id].todo != []
    requires InPairs(s.store, s.flights[id].todo)
    ensures var t, ts := SendStep(s, id), TouchesOf(cal, s, Send(id), k);
      if ts == [] then LifeIn(t, k) == LifeIn(s, k) && (k in t.lapsed <==> k in s.lapsed)
      else TouchedBy(s, t, k, ts[0])
  {
    assert CommandOf(s.flights[id].todo[0]);
  }

  lemma StepFits(s: State, t: State, ts: seq<Touch>, now: seq<Touch>, k: Key)
    requires TouchesFit(s, ts, k) && Touched(s, t, k, now)
    ensures TouchesFit(t, ts + now, k)
  {
    if now == [] {
      assert ts + now == ts;
    } else {
      TouchesSnoc(ts, now[0], s.clock);
      assert ts + now == ts + [now[0]] && (ts + [now[0]])[..|ts|] == ts;
    }
  }

  lemma {:induction false} RunTouchesFit(cal: Calendar, acts: seq<Action>, k: Key)
    ensures TouchesFit(Run(cal, acts), Touches(cal, acts, k), k)
  {
    if acts != [] {
      var front := acts[..|acts| - 1];
      RunTouchesFit(cal, front, k);
      RunsArePaired(cal, front);
      var s, a := Run(cal, front), acts[|acts| - 1];
      StepTouches(cal, s, a, k);
      StepFits(s, Step(cal, s, a), Touches(cal, front, k), TouchesOf(cal, s, a, k), k);
    }
  }

  lemma TouchesSnoc(ts: seq<Touch>, t: Touch, clock: nat)
    requires Proper(ts) && (ts == [] ==> t.charges) && t.at == clock
    requires forall u :: u in ts ==> u.at <= clock
    ensures Proper(ts + [t])
  {
    assert forall i :: 0 <= i < |ts| ==> ts[i] in ts;
  }

  /**
   A counter is lost exactly when its key is charged a TTL or more after a
   renewal that no other renewal followed in time: read off the times of the
   run's commands, whatever the interleaving and the caps.
   */
  lemma LapseExactly(cal: Calendar, acts: seq<Action>, k: Key)
    ensures k in Run(cal, acts).lapsed <==> Gap(Touches(cal, acts, k), Ttl(k.Kind()))
  {
    RunTouchesFit(cal, acts, k);
    LapseExact(Touches(cal, acts, k), Ttl(k.Kind()));
  }

  /** So a counter agrees with the admitted costs exactly when the run left no such gap. */
  lemma CountersExact(cal: Calendar, acts: seq<Action>, k: Key)
    ensures Balance(cal, Run(cal, acts), k) == 0 <==> !Gap(Touches(cal, acts, k), Ttl(k.Kind()))
  {
    CountersAgree(cal, acts, k);
    LapseExactly(cal, acts, k);
  }

  // ------------------------------------------------------------------
  // Key lifetimes
  // ------------------------------------------------------------------

  /** An expiry that outlasts the key's period by an hour; the lifetime key has ten years. */
  ghost predicate KeptUntil(cal: Calendar, k: Key, e: nat) {
    match k
    case DailyKey(d) => e >= d * DAY + DAY + SLACK
    case MonthlyKey(m) => forall d: nat :: cal(d) == m ==> e >= d * DAY + DAY + SLACK
    case LifetimeKey => e >= LIFETIME_TTL
  }

  ghost predicate KeysKept(cal: Calendar, s: Store) {
    forall k | k in s && s[k].expireAt.Some? :: KeptUntil(cal, k, s[k].expireAt.value)
  }

  ghost predicate FlightOk(cal: Calendar, clock: nat, f: Flight) {
    && f.req.at <= clock
    && (f.Draining? ==> forall i :: 0 <= i < |f.todo| ==> OfRequest(cal, f.req, f.todo[i]))
  }

  ghost predicate OfRequest(cal: Calendar, r: Request, c: Command) {
    c.key == KeyOf(cal, c.key.Kind(), r.at) && CommandOf(c)
  }

  ghost predicate Timely(cal: Calendar, s: State) {
    && KeysKept(cal, s.store)
    && (forall i :: 0 <= i < |s.flights| ==> FlightOk(cal, s.clock, s.flights[i]))
  }

  /** A key renewed for a request outlasts that request's period. */
  lemma Renewed(cal: Calendar, k: Key, at: nat, clock: nat)
    requires ValidCalendar(cal)
    requires k == KeyOf(cal, k.Kind(), at) && at <= clock
    ensures KeptUntil(cal, k, clock + Ttl(k.Kind()))
  {
    if k.MonthlyKey? {
      forall d: nat | cal(d) == k.month
        ensures clock + MONTHLY_TTL >= d * DAY + DAY + SLACK
      {
        assert d <= at / DAY + 30;
      }
    }
  }

  /** A request that is not late finds its day's and its month's key alive. */
  lemma OnTime(cal: Calendar, k: Key, at: nat, clock: nat, e: nat)
    requires k == KeyOf(cal, k.Kind(), at) && k != LifetimeKey
    requires clock <= at + SLACK && KeptUntil(cal, k, e)
    ensures clock < e
  {
    assert at / DAY * DAY + DAY > at;
  }

  lemma {:induction false} RunsAreTimely(cal: Calendar, acts: seq<Action>)
    requires ValidCalendar(cal)
    ensures Timely(cal, Run(cal, acts))
  {
    if acts != [] {
      var front, a := acts[..|acts| - 1], acts[|acts| - 1];
      RunsAreTimely(cal, front);
      var s := Run(cal, front);
      match a
      case Tick(_) =>
      case Begin(_, _) =>
      case RunScript(id) =>
        if id < |s.flights| && s.flights[id].Ready? {
          ScriptTimely(cal, s, id);
        }
      case Send(id) =>
        if id < |s.flights| && s.flights[id].Draining? && s.flights[id].todo != [] {
          SendTimely(cal, s, id);
        }
    }
  }

  lemma ScriptTimely(cal: Calendar, s: State, id: nat)
    requires ValidCalendar(cal) && Timely(cal, s)
    requires id < |s.flights| && s.flights[id].Ready?
    ensures Timely(cal, ScriptStep(cal, s, id))
  {
    var r := s.flights[id].req;
    var t := ScriptStep(cal, s, id);
    assert FlightOk(cal, s.clock, s.flights[id]);
    if Decide(cal, s.store, s.clock, r).Admitted? {
      forall k | k in t.store && t.store[k].expireAt.Some?
        ensures KeptUntil(cal, k, t.store[k].expireAt.value)
      {
        ScriptAllOrNothing(cal, s.store, s.clock, r, k);
        if Charged(cal, r, k) {
          Renewed(cal, k, r.at, s.clock);
        }
      }
    }
  }

  lemma SendTimely(cal: Calendar, s: State, id: nat)
    requires ValidCalendar(cal) && Timely(cal, s)
    requires id < |s.flights| && s.flights[id].Draining? && s.flights[id].todo != []
    ensures Timely(cal, SendStep(s, id))
  {
    var Draining(r, todo) := s.flights[id];
    var k := todo[0].key;
    assert FlightOk(cal, s.clock, s.flights[id]) && OfRequest(cal, r, todo[0]);
    Renewed(cal, k, r.at, s.clock);
  }

  ghost predicate InPeriod(cal: Calendar, k: Key, day: nat) {
    match k
    case DailyKey(d) => d == day
    case MonthlyKey(m) => cal(day) == m
    case LifetimeKey => true
  }

  /** The touch comes on a day of the key's period, or in the hour after. */
  ghost predicate NearDay(cal: Calendar, k: Key, t: Touch, day: nat) {
    InPeriod(cal, k, day) && day * DAY <= t.at < day * DAY + DAY + SLACK
  }

  ghost predicate Near(cal: Calendar, k: Key, t: Touch) {
    exists day :: NearDay(cal, k, t, day)
  }

  /** While no command is late, a key is touched near its own period only. */
  lemma {:induction false} TouchesAreNear(cal: Calendar, acts: seq<Action>, k: Key)
    requires ValidCalendar(cal) && !Run(cal, acts).late
    ensures forall t :: t in Touches(cal, acts, k) ==> Near(cal, k, t)
  {
    if acts != [] {
      var front, a := acts[..|acts| - 1], acts[|acts| - 1];
      TouchesAreNear(cal, front, k);
      RunsAreTimely(cal, front);
      var s := Run(cal, front);
      if TouchesOf(cal, s, a, k) != [] {
        assert FlightOk(cal, s.clock, s.flights[a.id]);
        var at := s.flights[a.id].req.at;
        assert at / DAY * DAY <= at < at / DAY * DAY + DAY;
        assert NearDay(cal, k, TouchesOf(cal, s, a, k)[0], at / DAY);
      }
    }
  }

  lemma NearIsWithinTtl(cal: Calendar, k: Key, t: Touch, u: Touch)
    requires ValidCalendar(cal) && k != LifetimeKey && Near(cal, k, t) && Near(cal, k, u)
    ensures u.at < t.at + Ttl(k.Kind())
  {
    var d :| NearDay(cal, k, t, d);
    var e :| NearDay(cal, k, u, e);
    assert e <= d + 30;
  }

  /** With commands at most an hour behind, and before ten years are up, no counter is ever lost. */
  lemma NothingLapses(cal: Calendar, acts: seq<Action>)
    requires ValidCalendar(cal)
    requires !Run(cal, acts).late && Run(cal, acts).clock < LIFETIME_TTL
    ensures Run(cal, acts).lapsed == {}
  {
    forall k: Key
      ensures k !in Run(cal, acts).lapsed
    {
      var ts := Touches(cal, acts, k);
      RunTouchesFit(cal, acts, k);
      TouchesAreNear(cal, acts, k);
      forall i, j | 0 <= i < j < |ts|
        ensures ts[j].at < ts[i].at + Ttl(k.Kind())
      {
        assert ts[i] in ts && ts[j] in ts;
        if k != LifetimeKey {
          NearIsWithinTtl(cal, k, ts[i], ts[j]);
        }
      }
      NoGapWithin(ts, Ttl(k.Kind()));
      LapseExactly(cal, acts, k);
    }
  }

  /** Whatever the run, a day's key can be read throughout its day and a month's key throughout its month. */
  lemma ReadableInItsPeriod(cal: Calendar, acts: seq<Action>, p: Period)
    requires ValidCalendar(cal) && p != Lifetime
    ensures var s := Run(cal, acts);
      var k := KeyOf(cal, p, s.clock);
      Read(s.store, s.clock, k) == Value(s, k)
  {
    RunsAreTimely(cal, acts);
    var s := Run(cal, acts);
    var k := KeyOf(cal, p, s.clock);
    if k in s.store && s.store[k].expireAt.Some? {
      OnTime(cal, k, s.clock, s.clock, s.store[k].expireAt.value);
    }
  }
}
