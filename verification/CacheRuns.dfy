/**
 One key of the two-tier cache, with any number of processes. A set writes the
 local tier and later Redis; a read that misses locally sends GET and later
 TTL; an invalidation clears the local tier and later Redis. Between any two
 steps other processes may act.
 */
module CacheRuns {
  import opened Options
  import opened TieredCache
  import RateLimit

  /** A value, where its TTL started, and the TTL. */
  datatype Item = Item(value: string, writtenAt: nat, ttlSecs: nat) {
    function Deadline(): nat {
      writtenAt + ttlSecs * 1000
    }
  }

  /** A local copy: read from Redis at `fetchedAt` and stored at `filledAt`, or stored by a set. */
  datatype Copy = Copy(item: Item, expiresAt: nat, fetchedAt: nat, filledAt: nat)

  datatype Pending =
    | Setting(value: string, ttlSecs: nat)
    | Fetched(node: nat, item: Item, fetchedAt: nat)
    | Dropping
    | Over

  datatype Served = Served(node: nat, copy: Copy, at: nat)

  datatype State = State(
    clock: nat, locals: map<nat, Copy>, redis: Option<Item>, pending: seq<Pending>, served: seq<Served>)

  const Init := State(0, map[], None, [], [])

  datatype Action =
    | Tick(ms: nat)
    | Set(node: nat, value: string, ttlSecs: nat)
    | WriteRedis(op: nat)
    | Read(node: nat, edge: bool)
    | Fill(op: nat, edge: bool)
    | Drop(node: nat)
    | DropRedis(op: nat)
    | Evict(node: nat)

  predicate InRedis(s: State, edge: bool) {
    s.redis.Some? && !RateLimit.Gone(s.redis.value.Deadline(), s.clock, edge)
  }

  predicate HasCopy(s: State, node: nat) {
    node in s.locals && s.clock < s.locals[node].expiresAt
  }

  function Finish(s: State, op: nat): State
    requires op < |s.pending|
  {
    s.(pending := s.pending[op := Over])
  }

  /** What a fill keeps of a value it fetched: the TTL is that of whatever Redis holds by now. */
  function FillCopy(s: State, item: Item, fetchedAt: nat, edge: bool): Copy {
    var secs := if InRedis(s, edge) then KeepSecs(s.redis.value.Deadline(), s.clock) else DEFAULT_TTL_SECS;
    Copy(item, s.clock + secs * 1000, fetchedAt, s.clock)
  }

  function Step(s: State, a: Action): State {
    match a
    case Tick(ms) => s.(clock := s.clock + ms)
    case Set(node, value, ttlSecs) =>
      var item := Item(value, s.clock, ttlSecs);
      s.(locals := s.locals[node := Copy(item, item.Deadline(), s.clock, s.clock)],
         pending := s.pending + [Setting(value, ttlSecs)])
    case WriteRedis(op) =>
      if op < |s.pending| && s.pending[op].Setting? then
        Finish(s, op).(redis := Some(Item(s.pending[op].value, s.clock, s.pending[op].ttlSecs)))
      else s
    case Read(node, edge) =>
      if HasCopy(s, node) then s.(served := s.served + [Served(node, s.locals[node], s.clock)])
      else if InRedis(s, edge) then
        s.(locals := s.locals - {node}, pending := s.pending + [Fetched(node, s.redis.value, s.clock)])
      else s.(locals := s.locals - {node})
    case Fill(op, edge) =>
      if op < |s.pending| && s.pending[op].Fetched? then
        var Fetched(node, item, fetchedAt) := s.pending[op];
        var copy := FillCopy(s, item, fetchedAt, edge);
        Finish(s, op).(locals := s.locals[node := copy], served := s.served + [Served(node, copy, s.clock)])
      else s
    case Drop(node) => s.(locals := s.locals - {node}, pending := s.pending + [Dropping])
    case DropRedis(op) =>
      if op < |s.pending| && s.pending[op].Dropping? then Finish(s, op).(redis := None) else s
    case Evict(node) => if HasCopy(s, node) then s else s.(locals := s.locals - {node})
  }

  ghost function Run(s: State, acts: seq<Action>): State {
    if acts == [] then s else Step(Run(s, acts[..|acts| - 1]), acts[|acts| - 1])
  }

  // ------------------------------------------------------------------
  // How long a value outlives its TTL
  // ------------------------------------------------------------------

  /** All TTLs of the run are at most `max` seconds. */
  ghost predicate TtlsWithin(acts: seq<Action>, max: nat) {
    forall i :: 0 <= i < |acts| && acts[i].Set? ==> acts[i].ttlSecs <= max
  }

  function Extra(max: nat): nat {
    (if max > 60 then max else 60) * 1000
  }

  ghost predicate CopyOk(s: State, c: Copy, max: nat) {
    && c.fetchedAt <= c.filledAt <= s.clock
    && c.item.writtenAt <= c.fetchedAt <= c.item.Deadline()
    && c.expiresAt <= c.item.Deadline() + (c.filledAt - c.fetchedAt) + Extra(max)
  }

  ghost predicate Bounded(s: State, max: nat) {
    && (s.redis.Some? ==> s.redis.value.ttlSecs <= max && s.redis.value.writtenAt <= s.clock)
    && (forall n | n in s.locals :: CopyOk(s, s.locals[n], max))
    && (forall i :: 0 <= i < |s.pending| ==> PendingOk(s, s.pending[i], max))
    && (forall i :: 0 <= i < |s.served| ==> ServedOk(s, s.served[i], max))
  }

  ghost predicate PendingOk(s: State, p: Pending, max: nat) {
    && (p.Setting? ==> p.ttlSecs <= max)
    && (p.Fetched? ==> p.item.writtenAt <= p.fetchedAt <= p.item.Deadline() && p.fetchedAt <= s.clock)
  }

  ghost predicate ServedOk(s: State, r: Served, max: nat) {
    CopyOk(s, r.copy, max) && r.copy.filledAt <= r.at < r.copy.expiresAt && r.at <= s.clock
  }

  lemma FillBounded(s: State, item: Item, fetchedAt: nat, edge: bool, max: nat)
    requires Bounded(s, max)
    requires item.writtenAt <= fetchedAt <= item.Deadline() && fetchedAt <= s.clock
    ensures CopyOk(s, FillCopy(s, item, fetchedAt, edge), max)
  {
  }

  lemma StepBounded(s: State, a: Action, max: nat)
    requires Bounded(s, max) && (a.Set? ==> a.ttlSecs <= max)
    ensures Bounded(Step(s, a), max)
  {
    if a.Fill? && a.op < |s.pending| && s.pending[a.op].Fetched? {
      assert PendingOk(s, s.pending[a.op], max);
      FillBounded(s, s.pending[a.op].item, s.pending[a.op].fetchedAt, a.edge, max);
    }
    if a.WriteRedis? && a.op < |s.pending| {
      assert PendingOk(s, s.pending[a.op], max);
    }
    var t := Step(s, a);
    assert forall n | n in s.locals :: CopyOk(t, s.locals[n], max);
    assert forall i :: 0 <= i < |s.pending| ==> PendingOk(t, s.pending[i], max);
    assert forall i :: 0 <= i < |s.served| ==> ServedOk(t, s.served[i], max);
  }

  /**
   Whatever the interleaving, every read answers with a value earlier than its
   deadline plus the reader's delay between GET and TTL plus the longest TTL in
   use, or a minute if that is longer.
   */
  lemma {:induction false} ServedWithinBound(acts: seq<Action>, max: nat)
    requires TtlsWithin(acts, max)
    ensures Bounded(Run(Init, acts), max)
    ensures var s := Run(Init, acts);
      forall i :: 0 <= i < |s.served| ==>
        s.served[i].at < s.served[i].copy.item.Deadline()
                         + (s.served[i].copy.filledAt - s.served[i].copy.fetchedAt) + Extra(max)
  {
    if acts != [] {
      var front := acts[..|acts| - 1];
      assert forall i :: 0 <= i < |front| ==> front[i] == acts[i];
      ServedWithinBound(front, max);
      assert acts[|acts| - 1].Set? ==> acts[|acts| - 1].ttlSecs <= max;
      StepBounded(Run(Init, front), acts[|acts| - 1], max);
    }
    var s := Run(Init, acts);
    assert forall i :: 0 <= i < |s.served| ==> ServedOk(s, s.served[i], max);
  }

  /**
   A copy filled by a read outlives the value it holds exactly when what is
   left of that value is less than the TTL that Redis reports by then: rounded
   to seconds, of whatever is stored under the key, and a minute for nothing or
   for less than half a second. Unless the value was replaced, that is exactly
   when the rounding goes up or the TTL is down to nothing.
   */
  lemma FillOutlives(s: State, item: Item, fetchedAt: nat, edge: bool)
    ensures var copy, left := FillCopy(s, item, fetchedAt, edge), item.Deadline() - s.clock;
      && (!InRedis(s, edge) ==> (copy.expiresAt > item.Deadline() <==> left < 60_000))
      && (InRedis(s, edge) ==>
            var other := s.redis.value.Deadline() - s.clock;
            && (copy.expiresAt > item.Deadline() <==>
                  if other < 500 then left < 60_000 else left < (other + 500) / 1000 * 1000)
            && (s.redis.value == item ==> (copy.expiresAt > item.Deadline() <==> left < 500 || left % 1000 >= 500)))
  {
    if InRedis(s, edge) {
      Rounding(s.redis.value.Deadline() - s.clock);
    }
  }

  lemma Rounding(left: nat)
    ensures (left + 500) / 1000 == 0 <==> left < 500
    ensures (left + 500) / 1000 * 1000 > left <==> left % 1000 >= 500
  {
  }

  // ------------------------------------------------------------------
  // What an invalidation leaves behind
  // ------------------------------------------------------------------

  ghost predicate NoSets(acts: seq<Action>) {
    forall i :: 0 <= i < |acts| ==> !acts[i].Set?
  }

  predicate Fetching(p: Pending, node: nat) {
    p.Fetched? && p.node == node
  }

  /** Something this process can still answer with: its own copy, what Redis has, or a step that is on its way. */
  ghost predicate CanAnswer(s: State, node: nat) {
    || HasCopy(s, node)
    || InRedis(s, false)
    || exists i :: 0 <= i < |s.pending| && (s.pending[i].Setting? || Fetching(s.pending[i], node))
  }

  ghost predicate AnswersAt(s: State, t: State, node: nat) {
    exists i :: |s.served| <= i < |t.served| && t.served[i].node == node
  }

  /** A process that cannot answer stays silent until some process sets the key again. */
  lemma {:induction false} StaysSilent(s: State, acts: seq<Action>, node: nat)
    requires !CanAnswer(s, node) && NoSets(acts)
    ensures var t := Run(s, acts);
      !CanAnswer(t, node) && |s.served| <= |t.served| && !AnswersAt(s, t, node)
  {
    if acts != [] {
      var front, a := acts[..|acts| - 1], acts[|acts| - 1];
      assert forall i :: 0 <= i < |front| ==> front[i] == acts[i];
      StaysSilent(s, front, node);
      assert !acts[|acts| - 1].Set?;
      StepSilent(Run(s, front), a, node);
      var t, u := Run(s, front), Run(s, acts);
      forall i | |s.served| <= i < |u.served|
        ensures u.served[i].node != node
      {
        assert i < |t.served| ==> u.served[i] == t.served[i];
      }
    }
  }

  lemma StepSilent(s: State, a: Action, node: nat)
    requires !CanAnswer(s, node) && !a.Set?
    ensures var t := Step(s, a);
      && !CanAnswer(t, node) && |s.served| <= |t.served| <= |s.served| + 1 && s.served == t.served[..|s.served|]
      && (|t.served| > |s.served| ==> t.served[|s.served|].node != node)
  {
    var t := Step(s, a);
    forall i | 0 <= i < |t.pending|
      ensures !t.pending[i].Setting? && !Fetching(t.pending[i], node)
    {
      if i < |s.pending| {
        assert !s.pending[i].Setting? && !Fetching(s.pending[i], node);
      } else {
        assert t.pending[i].Dropping?;
      }
    }
    assert a.Fill? && a.op < |s.pending| ==> !Fetching(s.pending[a.op], node);
    assert a.WriteRedis? && a.op < |s.pending| ==> !s.pending[a.op].Setting?;
  }

  /**
   What an invalidation reaches: without a new set, a process still answers, at
   some later time, exactly when it holds an unexpired copy of its own, Redis
   still has the key, or a set or one of its own reads is on its way.
   */
  lemma AnswersExactly(s: State, node: nat)
    ensures (exists acts :: NoSets(acts) && AnswersAt(s, Run(s, acts), node)) <==> CanAnswer(s, node)
  {
    if CanAnswer(s, node) {
      var acts := AnswerWitness(s, node);
      assert NoSets(acts) && AnswersAt(s, Run(s, acts), node);
    }
    forall acts | NoSets(acts) && AnswersAt(s, Run(s, acts), node)
      ensures CanAnswer(s, node)
    {
      if !CanAnswer(s, node) {
        StaysSilent(s, acts, node);
      }
    }
  }

  lemma RunSnoc(s: State, acts: seq<Action>, a: Action)
    ensures Run(s, acts + [a]) == Step(Run(s, acts), a)
  {
    assert (acts + [a])[..|acts|] == acts;
  }

  /** A read, completed if it goes to Redis, answers. */
  lemma ReadAnswers(s: State, acts: seq<Action>, node: nat) returns (more: seq<Action>)
    requires NoSets(acts) && (HasCopy(Run(s, acts), node) || InRedis(Run(s, acts), false))
    requires |s.served| <= |Run(s, acts).served|
    ensures NoSets(more) && AnswersAt(s, Run(s, more), node)
  {
    var t := Run(s, acts);
    more := acts + [Read(node, false)];
    RunSnoc(s, acts, Read(node, false));
    if HasCopy(t, node) {
      assert Run(s, more).served[|t.served|].node == node;
    } else {
      more := acts + [Read(node, false)] + [Fill(|t.pending|, false)];
      RunSnoc(s, acts + [Read(node, false)], Fill(|t.pending|, false));
      assert Run(s, more).served[|t.served|].node == node;
    }
  }

  lemma AnswerWitness(s: State, node: nat) returns (acts: seq<Action>)
    requires CanAnswer(s, node)
    ensures NoSets(acts) && AnswersAt(s, Run(s, acts), node)
  {
    if HasCopy(s, node) || InRedis(s, false) {
      acts := ReadAnswers(s, [], node);
    } else {
      var i :| 0 <= i < |s.pending| && (s.pending[i].Setting? || Fetching(s.pending[i], node));
      if s.pending[i].Setting? {
        RunSnoc(s, [], WriteRedis(i));
        acts := ReadAnswers(s, [] + [WriteRedis(i)], node);
      } else {
        acts := [] + [Fill(i, false)];
        RunSnoc(s, [], Fill(i, false));
        assert Run(s, acts).served[|s.served|].node == node;
      }
    }
  }

  /** One process invalidates the key, in both tiers; another, which has a copy, still answers with the old value. */
  lemma InvalidationMissesOther(value: string, ttlSecs: nat)
    requires ttlSecs > 0
    ensures var acts := [] + [Set(0, value, ttlSecs)] + [WriteRedis(0)] + [Read(1, false)] + [Fill(1, false)]
                        + [Drop(0)] + [DropRedis(2)] + [Read(1, false)];
      var s := Run(Init, acts);
      s.redis.None? && 0 !in s.locals && |s.served| == 2 && s.served[1].node == 1 && s.served[1].copy.item.value == value
  {
    var a: seq<Action> := [];
    RunSnoc(Init, a, Set(0, value, ttlSecs));
    var b := a + [Set(0, value, ttlSecs)];
    RunSnoc(Init, b, WriteRedis(0));
    var c := b + [WriteRedis(0)];
    RunSnoc(Init, c, Read(1, false));
    var d := c + [Read(1, false)];
    RunSnoc(Init, d, Fill(1, false));
    var e := d + [Fill(1, false)];
    RunSnoc(Init, e, Drop(0));
    var f := e + [Drop(0)];
    RunSnoc(Init, f, DropRedis(2));
    RunSnoc(Init, f + [DropRedis(2)], Read(1, false));
  }

  // ------------------------------------------------------------------
  // The bound is reached
  // ------------------------------------------------------------------

  /** A read of a value at its last instant: GET has answered, TTL has yet to be asked. */
  function LastInstant(delay: nat): seq<Action> {
    [] + [Set(0, "old", 1)] + [WriteRedis(0)] + [Tick(1000)] + [Read(1, false)] + [Tick(delay)]
  }

  /**
   By the time the TTL is asked, another process may have set a new value with
   the longest TTL; or the key is gone, and the copy is kept for a minute.
   */
  function Meanwhile(max: nat): seq<Action> {
    if max > DEFAULT_TTL_SECS then [Set(0, "new", max), WriteRedis(2)] else []
  }

  function LateRead(max: nat, delay: nat): seq<Action> {
    LastInstant(delay) + Meanwhile(max) + [Fill(1, true)] + [Tick(Extra(max) - 1)] + [Read(1, false)]
  }

  lemma LastInstantRun(delay: nat)
    ensures var s := Run(Init, LastInstant(delay));
      var item := Item("old", 0, 1);
      && s.clock == 1000 + delay && s.redis == Some(item) && 1 !in s.locals && s.served == []
      && s.pending == [Over, Fetched(1, item, 1000)]
  {
    var a: seq<Action> := [];
    RunSnoc(Init, a, Set(0, "old", 1));
    var b := a + [Set(0, "old", 1)];
    RunSnoc(Init, b, WriteRedis(0));
    var c := b + [WriteRedis(0)];
    RunSnoc(Init, c, Tick(1000));
    var d := c + [Tick(1000)];
    RunSnoc(Init, d, Read(1, false));
    RunSnoc(Init, d + [Read(1, false)], Tick(delay));
  }

  lemma MeanwhileRun(max: nat, delay: nat)
    ensures var t, item := Run(Init, LastInstant(delay) + Meanwhile(max)), Item("old", 0, 1);
      && t.clock == 1000 + delay && t.served == [] && |t.pending| >= 2 && t.pending[1] == Fetched(1, item, 1000)
      && t.redis == Some(if max > DEFAULT_TTL_SECS then Item("new", t.clock, max) else item)
  {
    LastInstantRun(delay);
    var a := LastInstant(delay);
    if max > DEFAULT_TTL_SECS {
      RunSnoc(Init, a, Set(0, "new", max));
      RunSnoc(Init, a + [Set(0, "new", max)], WriteRedis(2));
      assert a + [Set(0, "new", max)] + [WriteRedis(2)] == a + Meanwhile(max);
    } else {
      assert a + Meanwhile(max) == a;
    }
  }

  /** The fill keeps what it fetched, and the process serves it until that copy expires. */
  lemma FilledAndServed(s: State, item: Item, fetchedAt: nat, keepMs: nat)
    requires |s.pending| >= 2 && s.pending[1] == Fetched(1, item, fetchedAt) && s.served == []
    requires keepMs > 0 && FillCopy(s, item, fetchedAt, true).expiresAt == s.clock + keepMs
    ensures var t := Step(Step(Step(s, Fill(1, true)), Tick(keepMs - 1)), Read(1, false));
      && |t.served| == 2 && t.served[1].at == s.clock + keepMs - 1
      && t.served[1].copy == FillCopy(s, item, fetchedAt, true)
  {
  }

  lemma LateReadTtls(max: nat, delay: nat)
    requires max > 0
    ensures TtlsWithin(LateRead(max, delay), max)
  {
  }

  /** Whatever the longest TTL and the reader's delay, some run serves a value up to the last instant of the bound. */
  lemma BoundReached(max: nat, delay: nat)
    requires max > 0
    ensures TtlsWithin(LateRead(max, delay), max)
    ensures var s := Run(Init, LateRead(max, delay));
      |s.served| == 2 &&
      var last := s.served[1];
      && last.copy.item == Item("old", 0, 1) && last.copy.filledAt - last.copy.fetchedAt == delay
      && last.at == last.copy.item.Deadline() + delay + Extra(max) - 1
  {
    LateReadTtls(max, delay);
    MeanwhileRun(max, delay);
    var a := LastInstant(delay) + Meanwhile(max);
    FilledAndServed(Run(Init, a), Item("old", 0, 1), 1000, Extra(max));
    RunSnoc(Init, a, Fill(1, true));
    RunSnoc(Init, a + [Fill(1, true)], Tick(Extra(max) - 1));
    RunSnoc(Init, a + [Fill(1, true)] + [Tick(Extra(max) - 1)], Read(1, false));
  }
}
