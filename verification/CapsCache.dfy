/**
 How stale the caps of one token can be: `load_spend_caps_cached` running in
 many processes at once, against upserts and deletes that write the database
 and then drop the cached copy.

 Every database read, cache command and lock operation is one step; time may
 pass between any two. Entries and results carry the revision they came from
 and the times at which it was read and stored, for the theorems only.
 */
module CapsCache {
  import opened Options
  import opened SpendLedger

  const CACHE_TTL: nat := 60

  /** The caps in the database since a given time. */
  datatype Revision = Revision(since: nat, caps: Caps)

  datatype Origin = Origin(rev: nat, readAt: nat, storedAt: nat, loader: nat)

  datatype Entry = Entry(caps: Caps, expireAt: nat, origin: Origin)

  datatype Phase =
    | Start
    | Waiting
    | Checking
    | Loading
    | Storing(caps: Caps, rev: nat, readAt: nat)
    | Returned(caps: Caps, at: nat, origin: Origin)

  datatype Loader = Loader(proc: nat, phase: Phase) {
    predicate HoldsLock() {
      phase.Checking? || phase.Loading? || phase.Storing?
    }
  }

  datatype State = State(
    clock: nat,
    /** The database's history; the last revision is the current one. */
    db: seq<Revision>,
    cache: Option<Entry>,
    loaders: seq<Loader>,
    /** For each process, the loader that holds the token's in-flight lock. */
    lock: map<nat, nat>,
    /** Writers that have written the database and not yet dropped the cached copy. */
    dropsDue: nat
  )

  function Init(caps: Caps): State {
    State(0, [Revision(0, caps)], None, [], map[], 0)
  }

  datatype Action =
    | Tick(seconds: nat)
    | Call(proc: nat)
    /** First look at the cache; `edge` lets an entry be gone at its very last instant. */
    | Look(id: nat, edge: bool)
    | Acquire(id: nat)
    | LookAgain(id: nat, edge: bool)
    | ReadDb(id: nat)
    | Store(id: nat)
    /** An upsert or a delete commits. */
    | Write(caps: Caps)
    | Drop

  predicate Hit(s: State, edge: bool) {
    s.cache.Some? && (s.clock < s.cache.value.expireAt || (s.clock == s.cache.value.expireAt && !edge))
  }

  function Move(s: State, id: nat, phase: Phase): State
    requires id < |s.loaders|
  {
    s.(loaders := s.loaders[id := s.loaders[id].(phase := phase)])
  }

  function Release(s: State, id: nat): State
    requires id < |s.loaders|
  {
    s.(lock := s.lock - {s.loaders[id].proc})
  }

  function FromCache(s: State): Phase
    requires s.cache.Some?
  {
    Returned(s.cache.value.caps, s.clock, s.cache.value.origin)
  }

  predicate At(s: State, id: nat, phase: Phase) {
    id < |s.loaders| && s.loaders[id].phase == phase
  }

  function Step(s: State, a: Action): State
    requires s.db != []
  {
    match a
    case Tick(seconds) => s.(clock := s.clock + seconds)
    case Call(proc) => s.(loaders := s.loaders + [Loader(proc, Start)])
    case Look(id, edge) =>
      if !At(s, id, Start) then s
      else Move(s, id, if Hit(s, edge) then FromCache(s) else Waiting)
    case Acquire(id) =>
      if !At(s, id, Waiting) || s.loaders[id].proc in s.lock then s
      else Move(s, id, Checking).(lock := s.lock[s.loaders[id].proc := id])
    case LookAgain(id, edge) =>
      if !At(s, id, Checking) then s
      else if Hit(s, edge) then Move(Release(s, id), id, FromCache(s))
      else Move(s, id, Loading)
    case ReadDb(id) =>
      if !At(s, id, Loading) then s
      else Move(s, id, Storing(s.db[|s.db| - 1].caps, |s.db| - 1, s.clock))
    case Store(id) =>
      if id < |s.loaders| && s.loaders[id].phase.Storing? then
        var Storing(caps, rev, readAt) := s.loaders[id].phase;
        var origin := Origin(rev, readAt, s.clock, id);
        Move(Release(s, id), id, Returned(caps, s.clock, origin))
          .(cache := Some(Entry(caps, s.clock + CACHE_TTL, origin)))
      else s
    case Write(caps) => s.(db := s.db + [Revision(s.clock, caps)], dropsDue := s.dropsDue + 1)
    case Drop => if s.dropsDue == 0 then s else s.(cache := None, dropsDue := s.dropsDue - 1)
  }

  ghost function Run(s: State, acts: seq<Action>): (t: State)
    requires s.db != []
    ensures t.db != []
  {
    if acts == [] then s else Step(Run(s, acts[..|acts| - 1]), acts[|acts| - 1])
  }

  // ------------------------------------------------------------------
  // One database load at a time in each process
  // ------------------------------------------------------------------

  ghost predicate Exclusive(s: State) {
    && (forall i :: 0 <= i < |s.loaders| && s.loaders[i].HoldsLock() ==>
          s.loaders[i].proc in s.lock && s.lock[s.loaders[i].proc] == i)
  }

  lemma {:induction false} RunsAreExclusive(caps: Caps, acts: seq<Action>)
    ensures Exclusive(Run(Init(caps), acts))
  {
    if acts != [] {
      RunsAreExclusive(caps, acts[..|acts| - 1]);
    }
  }

  /** Two loaders of one process are never both between acquiring the lock and answering. */
  lemma LoadsNeverOverlap(caps: Caps, acts: seq<Action>, i: nat, j: nat)
    requires var s := Run(Init(caps), acts);
      i < |s.loaders| && j < |s.loaders| && s.loaders[i].proc == s.loaders[j].proc
    ensures var s := Run(Init(caps), acts);
      s.loaders[i].HoldsLock() && s.loaders[j].HoldsLock() ==> i == j
  {
    RunsAreExclusive(caps, acts);
  }

  // ------------------------------------------------------------------
  // Bounded staleness
  // ------------------------------------------------------------------

  /** The database held these caps at time `t`. */
  ghost predicate Held(s: State, rev: nat, caps: Caps, t: nat) {
    && rev < |s.db|
    && s.db[rev].caps == caps
    && s.db[rev].since <= t <= s.clock
    && (rev + 1 < |s.db| ==> t <= s.db[rev + 1].since)
  }

  /** Read at `readAt`, stored at `storedAt` by `loader`, which answered with it there and then. */
  ghost predicate Sound(s: State, caps: Caps, o: Origin) {
    && Held(s, o.rev, caps, o.readAt)
    && o.readAt <= o.storedAt <= s.clock
    && o.loader < |s.loaders|
    && s.loaders[o.loader].phase == Returned(caps, o.storedAt, o)
  }

  ghost predicate SoundPhase(s: State, p: Phase) {
    match p
    case Storing(caps, rev, readAt) => Held(s, rev, caps, readAt)
    case Returned(caps, at, o) => Sound(s, caps, o) && o.storedAt <= at <= o.storedAt + CACHE_TTL
    case _ => true
  }

  ghost predicate Inv(s: State) {
    && s.db != [] && s.db[|s.db| - 1].since <= s.clock
    && (s.cache.Some? ==> Sound(s, s.cache.value.caps, s.cache.value.origin)
                          && s.cache.value.expireAt == s.cache.value.origin.storedAt + CACHE_TTL)
    && (forall i :: 0 <= i < |s.loaders| ==> SoundPhase(s, s.loaders[i].phase))
  }

  /** What has been read or returned stays sound when time passes, the database changes or other loaders move. */
  lemma SoundStays(s: State, t: State, p: Phase)
    requires Inv(s) && SoundPhase(s, p)
    requires s.clock <= t.clock && s.db <= t.db && |t.db| <= |s.db| + 1
    requires |t.db| > |s.db| ==> t.db[|s.db|].since >= s.clock
    requires |s.loaders| <= |t.loaders|
    requires forall i :: 0 <= i < |s.loaders| && s.loaders[i].phase.Returned? ==> t.loaders[i] == s.loaders[i]
    ensures SoundPhase(t, p)
  {
  }

  lemma StepKeepsLoader(s: State, a: Action, i: nat)
    requires Inv(s) && i < |Step(s, a).loaders|
    ensures SoundPhase(Step(s, a), Step(s, a).loaders[i].phase)
  {
    var t := Step(s, a);
    if i < |s.loaders| {
      if t.loaders[i] == s.loaders[i] || a.Store? {
        SoundStays(s, t, s.loaders[i].phase);
      } else if t.loaders[i].phase.Returned? {
        SoundStays(s, t, FromCache(s));
      }
    }
  }

  lemma StepKeepsInv(s: State, a: Action)
    requires Inv(s)
    ensures Inv(Step(s, a))
  {
    var t := Step(s, a);
    forall i | 0 <= i < |t.loaders|
      ensures SoundPhase(t, t.loaders[i].phase)
    {
      StepKeepsLoader(s, a, i);
    }
    if t.cache.Some? && t.cache == s.cache {
      var o := s.cache.value.origin;
      SoundStays(s, t, Returned(s.cache.value.caps, o.storedAt, o));
    }
  }

  lemma {:induction false} RunKeepsInv(s: State, acts: seq<Action>)
    requires Inv(s)
    ensures Inv(Run(s, acts))
  {
    if acts != [] {
      RunKeepsInv(s, acts[..|acts| - 1]);
      StepKeepsInv(Run(s, acts[..|acts| - 1]), acts[|acts| - 1]);
    }
  }

  /**
   Whatever the interleaving, caps that a call returned were in the database
   at most 60 seconds earlier, plus the time that the loader which cached
   them took from its read to its store.
   */
  lemma BoundedStaleness(caps: Caps, acts: seq<Action>, id: nat)
    requires id < |Run(Init(caps), acts).loaders| && Run(Init(caps), acts).loaders[id].phase.Returned?
    ensures var s := Run(Init(caps), acts);
      var Returned(v, at, o) := s.loaders[id].phase;
      && Held(s, o.rev, v, o.readAt)
      && o.loader < |s.loaders| && s.loaders[o.loader].phase == Returned(v, o.storedAt, o)
      && o.readAt <= at <= o.readAt + 60 + (o.storedAt - o.readAt)
  {
    RunKeepsInv(Init(caps), acts);
  }

  /**
   The second look spares the database: a loader that waited for the lock
   answers with what the one before it has cached, reads nothing, and passes
   the lock on.
   */
  lemma WaiterUsesCache(s: State, id: nat)
    requires s.db != [] && At(s, id, Waiting) && s.loaders[id].proc !in s.lock && Hit(s, false)
    ensures var t := Step(Step(s, Acquire(id)), LookAgain(id, false));
      && At(t, id, Returned(s.cache.value.caps, s.clock, s.cache.value.origin))
      && t.lock == s.lock && t.db == s.db && t.cache == s.cache && |t.loaders| == |s.loaders|
      && forall i :: 0 <= i < |s.loaders| && i != id ==> t.loaders[i] == s.loaders[i]
  {
    var held := Step(s, Acquire(id));
    assert held.lock - {s.loaders[id].proc} == s.lock;
  }

  // ------------------------------------------------------------------
  // When a finished upsert is seen
  // ------------------------------------------------------------------

  /** Every call still unanswered in `s` that is answered in `t` is answered with revision `w` or later. */
  ghost predicate Fresh(s: State, t: State, w: nat) {
    forall i | 0 <= i < |t.loaders| && t.loaders[i].phase.Returned? ::
      (i < |s.loaders| && s.loaders[i].phase.Returned?) || t.loaders[i].phase.origin.rev >= w
  }

  /** A loader has read a revision older than `w` and has yet to store it. */
  ghost predicate Caught(s: State, w: nat) {
    exists i :: 0 <= i < |s.loaders| && s.loaders[i].phase.Storing? && s.loaders[i].phase.rev < w
  }

  ghost predicate Current(s: State, t: State, w: nat) {
    && w < |t.db| && |s.loaders| <= |t.loaders|
    && (t.cache.Some? ==> t.cache.value.origin.rev >= w)
    && !Caught(t, w)
    && Fresh(s, t, w)
  }

  lemma {:induction false} StaysCurrent(s: State, acts: seq<Action>, w: nat)
    requires s.db != [] && w < |s.db| && s.cache.None? && !Caught(s, w)
    ensures Current(s, Run(s, acts), w)
  {
    if acts != [] {
      StaysCurrent(s, acts[..|acts| - 1], w);
      CurrentStep(s, Run(s, acts[..|acts| - 1]), acts[|acts| - 1], w);
    }
  }

  lemma CurrentStep(s: State, t: State, a: Action, w: nat)
    requires Current(s, t, w)
    ensures Current(s, Step(t, a), w)
  {
    var u := Step(t, a);
    forall i | 0 <= i < |u.loaders|
      ensures u.loaders[i].phase.Storing? ==> u.loaders[i].phase.rev >= w
      ensures u.loaders[i].phase.Returned? && !(i < |s.loaders| && s.loaders[i].phase.Returned?) ==>
                u.loaders[i].phase.origin.rev >= w
    {
      if i < |t.loaders| && t.loaders[i].phase.Storing? {
        assert t.loaders[i].phase.rev >= w;
      }
    }
    if a.Store? && a.id < |t.loaders| && t.loaders[a.id].phase.Storing? {
      assert t.loaders[a.id].phase.rev >= w;
    }
  }

  /**
   After the cached copy has been dropped, every call answered from then on
   sees the current caps exactly when no loader was caught between reading
   older ones and storing them.
   */
  lemma UpsertSeen(s: State)
    requires s.db != [] && s.cache.None?
    ensures (forall acts: seq<Action> :: Fresh(s, Run(s, acts), |s.db| - 1)) <==> !Caught(s, |s.db| - 1)
  {
    if Caught(s, |s.db| - 1) {
      var acts := CaughtIsStale(s, |s.db| - 1);
      assert !Fresh(s, Run(s, acts), |s.db| - 1);
    } else {
      forall acts: seq<Action>
        ensures Fresh(s, Run(s, acts), |s.db| - 1)
      {
        StaysCurrent(s, acts, |s.db| - 1);
      }
    }
  }

  lemma CaughtIsStale(s: State, w: nat) returns (acts: seq<Action>)
    requires s.db != [] && Caught(s, w)
    ensures !Fresh(s, Run(s, acts), w)
  {
    var i :| 0 <= i < |s.loaders| && s.loaders[i].phase.Storing? && s.loaders[i].phase.rev < w;
    acts := [Store(i)];
    RunSnoc(s, [], Store(i));
    assert [] + [Store(i)] == acts;
    var t := Step(s, Store(i));
    assert t.loaders[i].phase.Returned? && t.loaders[i].phase.origin.rev < w;
  }

  lemma RunSnoc(s: State, acts: seq<Action>, a: Action)
    requires s.db != []
    ensures Run(s, acts + [a]) == Step(Run(s, acts), a)
  {
    assert (acts + [a])[..|acts|] == acts;
  }

  const MISS: seq<Action> := [Call(0), Look(0, false), Acquire(0), LookAgain(0, false), ReadDb(0)]

  lemma MissRun(old': Caps)
    ensures Run(Init(old'), MISS)
         == Init(old').(loaders := [Loader(0, Storing(old', 0, 0))], lock := map[0 := 0])
  {
    var s := Init(old');
    RunSnoc(s, [], MISS[0]);
    RunSnoc(s, MISS[..1], MISS[1]);
    RunSnoc(s, MISS[..2], MISS[2]);
    RunSnoc(s, MISS[..3], MISS[3]);
    RunSnoc(s, MISS[..4], MISS[4]);
    assert [] + [MISS[0]] == MISS[..1] && MISS[..1] + [MISS[1]] == MISS[..2] && MISS[..2] + [MISS[2]] == MISS[..3];
    assert MISS[..3] + [MISS[3]] == MISS[..4] && MISS[..4] + [MISS[4]] == MISS;
  }

  /** It does happen: the upsert is complete, a new call begins, and it is told the old caps. */
  lemma UpsertMissed(old': Caps, new': Caps)
    ensures var acts := MISS + [Write(new')] + [Drop] + [Store(0)] + [Call(1)] + [Look(1, false)];
      var s := Run(Init(old'), acts);
      && s.db == [Revision(0, old'), Revision(0, new')] && s.dropsDue == 0
      && At(s, 1, Returned(old', 0, Origin(0, 0, 0, 0)))
  {
    var s := Init(old');
    MissRun(old');
    RunSnoc(s, MISS, Write(new'));
    RunSnoc(s, MISS + [Write(new')], Drop);
    RunSnoc(s, MISS + [Write(new')] + [Drop], Store(0));
    RunSnoc(s, MISS + [Write(new')] + [Drop] + [Store(0)], Call(1));
    RunSnoc(s, MISS + [Write(new')] + [Drop] + [Store(0)] + [Call(1)], Look(1, false));
  }
}
