/**
 Envelope rotation of stored credentials: one sequential cycle, and any number
 of schedulers and readers at once.

 Encryption is a parameter: what the randomness makes of a secret can always
 be decrypted to that secret. Every SQL statement is one step, and so is each
 encryption and decryption. The rotation also clears a cache key that nothing
 ever fills; readers select the row itself each time.
 */
module Rotation {
  import opened Options

  type Bytes = seq<bv8>

  datatype Envelope = Envelope(encryptedDek: Bytes, dekNonce: Bytes, encryptedSecret: Bytes, secretNonce: Bytes)

  datatype Vault = Vault(encrypt: (string, nat) -> Envelope, decrypt: Envelope -> Option<string>)

  ghost predicate Sound(v: Vault) {
    forall secret, random :: v.decrypt(v.encrypt(secret, random)) == Some(secret)
  }

  type Id = nat

  datatype Row = Row(version: int, envelope: Envelope)

  type Table = map<Id, Row>

  datatype LogRow = LogRow(id: Id, oldVersion: int, newVersion: int, success: bool)

  datatype Failure = DecryptionFailed | VersionConflict(expected: int)

  datatype Candidate = Candidate(id: Id, row: Row)

  // ------------------------------------------------------------------
  // One scheduler on its own
  // ------------------------------------------------------------------

  /** The conditional update takes effect only on the version that was read. */
  predicate VersionMatches(rows: Table, c: Candidate) {
    c.id in rows && rows[c.id].version == c.row.version
  }

  function Rotated(v: Vault, rows: Table, c: Candidate, random: nat): Table {
    match v.decrypt(c.row.envelope)
    case None => rows
    case Some(secret) =>
      if VersionMatches(rows, c) then rows[c.id := Row(c.row.version + 1, v.encrypt(secret, random))] else rows
  }

  /** The next version of what was read: the same secret, encrypted anew under this randomness. */
  ghost predicate Renewed(v: Vault, c: Candidate, random: nat, row: Row) {
    && row.version == c.row.version + 1
    && v.decrypt(c.row.envelope).Some? && row.envelope == v.encrypt(v.decrypt(c.row.envelope).value, random)
  }

  predicate Succeeds(v: Vault, rows: Table, c: Candidate) {
    v.decrypt(c.row.envelope).Some? && VersionMatches(rows, c)
  }

  function LogOf(v: Vault, rows: Table, c: Candidate): LogRow {
    if Succeeds(v, rows, c) then LogRow(c.id, c.row.version, c.row.version + 1, true)
    else LogRow(c.id, c.row.version, c.row.version, false)
  }

  /** The table, the new log rows and the number of successes after the first `n` candidates. */
  function Cycle(v: Vault, rows: Table, cs: seq<Candidate>, random: seq<nat>, n: nat): (Table, seq<LogRow>, nat)
    requires n <= |cs| == |random|
  {
    if n == 0 then
      (rows, [], 0)
    else
      var (t, log, k) := Cycle(v, rows, cs, random, n - 1);
      var c := cs[n - 1];
      (Rotated(v, t, c, random[n - 1]), log + [LogOf(v, t, c)], k + if Succeeds(v, t, c) then 1 else 0)
  }

  class Scheduler {
    const vault: Vault
    var rows: Table
    var log: seq<LogRow>

    constructor (vault: Vault, rows: Table)
      ensures this.vault == vault && this.rows == rows && log == []
    {
      this.vault, this.rows, log := vault, rows, [];
    }

    /** `rotate_credential`: decrypt, re-encrypt, update if the version still matches, log. */
    method RotateCredential(c: Candidate, random: nat) returns (r: Result<(), Failure>)
      modifies this
      ensures rows == Rotated(vault, old(rows), c, random)
      ensures r.Ok? <==> Succeeds(vault, old(rows), c)
      ensures r.Ok? <==>
        vault.decrypt(c.row.envelope).Some? && c.id in old(rows) && old(rows)[c.id].version == c.row.version
      ensures r.Ok? ==>
        rows == old(rows)[c.id := Row(c.row.version + 1, vault.encrypt(vault.decrypt(c.row.envelope).value, random))]
      ensures !r.Ok? ==> rows == old(rows)
      ensures log == if r.Ok? then old(log) + [LogRow(c.id, c.row.version, c.row.version + 1, true)] else old(log)
    {
      var plaintext := vault.decrypt(c.row.envelope);
      if plaintext.None? {
        return Err(DecryptionFailed);
      }
      var envelope := vault.encrypt(plaintext.value, random);
      var newVersion := c.row.version + 1;
      var rowsAffected := 0;
      if c.id in rows && rows[c.id].version == c.row.version {
        rows := rows[c.id := Row(newVersion, envelope)];
        rowsAffected := 1;
      }
      if rowsAffected == 0 {
        return Err(VersionConflict(c.row.version));
      }
      log := log + [LogRow(c.id, c.row.version, newVersion, true)];
      return Ok(());
    }

    /** `run_rotation_cycle`: each candidate in turn; failures are logged and do not stop the cycle. */
    method RunRotationCycle(cs: seq<Candidate>, random: seq<nat>) returns (rotated: nat)
      requires |cs| == |random|
      modifies this
      ensures old(log) <= log
      ensures (rows, log[|old(log)|..], rotated) == Cycle(vault, old(rows), cs, random, |cs|)
    {
      rotated := 0;
      ghost var added: seq<LogRow> := [];
      for i := 0 to |cs|
        invariant log == old(log) + added
        invariant (rows, added, rotated) == Cycle(vault, old(rows), cs, random, i)
      {
        var c := cs[i];
        added := added + [LogOf(vault, rows, c)];
        var outcome := RotateCredential(c, random[i]);
        match outcome
        case Ok(_) => rotated := rotated + 1;
        case Err(_) => log := log + [LogRow(c.id, c.row.version, c.row.version, false)];
      }
    }
  }

  /** A cycle over distinct, current candidates rotates all of them and keeps every secret. */
  lemma {:induction false} UndisturbedCycle(v: Vault, rows: Table, cs: seq<Candidate>, random: seq<nat>, n: nat)
    requires Sound(v) && n <= |cs| == |random| && AllCurrent(v, rows, cs)
    ensures var (t, log, k) := Cycle(v, rows, cs, random, n);
      k == n && AllRotated(v, rows, t, cs, n, log) && AllRenewed(v, t, cs, random, n)
  {
    if n > 0 {
      UndisturbedCycle(v, rows, cs, random, n - 1);
      var (t, log, _) := Cycle(v, rows, cs, random, n - 1);
      TurnRotates(v, rows, t, cs, random, n - 1, log);
    }
  }

  ghost predicate AllCurrent(v: Vault, rows: Table, cs: seq<Candidate>) {
    && (forall i, j :: 0 <= i < j < |cs| ==> cs[i].id != cs[j].id)
    && (forall i :: 0 <= i < |cs| ==> Current(v, rows, cs[i]))
  }

  ghost predicate Listed(cs: seq<Candidate>, n: nat, id: Id)
    requires n <= |cs|
  {
    exists i :: 0 <= i < n && cs[i].id == id
  }

  /** Each of the first `n` candidates is one version on and logged as such; secrets and every other row are as before. */
  ghost predicate AllRotated(v: Vault, rows: Table, t: Table, cs: seq<Candidate>, n: nat, log: seq<LogRow>)
    requires n <= |cs|
  {
    && |log| == n
    && (forall i :: 0 <= i < n ==> log[i] == LogRow(cs[i].id, cs[i].row.version, cs[i].row.version + 1, true))
    && t.Keys == rows.Keys
    && (forall id | id in rows :: v.decrypt(t[id].envelope) == v.decrypt(rows[id].envelope))
    && (forall id | id in rows :: Listed(cs, n, id) || t[id] == rows[id])
  }

  /** And each of their rows is an encryption of the old secret under the randomness of its turn. */
  ghost predicate AllRenewed(v: Vault, t: Table, cs: seq<Candidate>, random: seq<nat>, n: nat)
    requires n <= |cs| == |random|
  {
    forall i :: 0 <= i < n ==> cs[i].id in t && Renewed(v, cs[i], random[i], t[cs[i].id])
  }

  lemma TurnRotates(v: Vault, rows: Table, t: Table, cs: seq<Candidate>, random: seq<nat>, n: nat, log: seq<LogRow>)
    requires Sound(v) && n < |cs| == |random| && AllCurrent(v, rows, cs)
    requires AllRotated(v, rows, t, cs, n, log) && AllRenewed(v, t, cs, random, n)
    ensures Succeeds(v, t, cs[n])
    ensures AllRotated(v, rows, Rotated(v, t, cs[n], random[n]), cs, n + 1, log + [LogOf(v, t, cs[n])])
    ensures AllRenewed(v, Rotated(v, t, cs[n], random[n]), cs, random, n + 1)
  {
    var c := cs[n];
    assert Current(v, rows, c) && !Listed(cs, n, c.id);
    RotateCurrent(v, t, c, random[n]);
    forall id
      ensures Listed(cs, n + 1, id) <==> Listed(cs, n, id) || id == c.id
    {
      ListedMore(cs, n, id);
    }
  }

  lemma ListedMore(cs: seq<Candidate>, n: nat, id: Id)
    requires n < |cs|
    ensures Listed(cs, n + 1, id) <==> Listed(cs, n, id) || id == cs[n].id
  {
  }

  /** The table still holds the row the candidate was taken from. */
  ghost predicate Current(v: Vault, rows: Table, c: Candidate) {
    c.id in rows && rows[c.id] == c.row && v.decrypt(c.row.envelope).Some?
  }

  lemma RotateCurrent(v: Vault, rows: Table, c: Candidate, random: nat)
    requires Sound(v) && Current(v, rows, c)
    ensures Succeeds(v, rows, c)
    ensures LogOf(v, rows, c) == LogRow(c.id, c.row.version, c.row.version + 1, true)
    ensures var t := Rotated(v, rows, c, random);
      && t.Keys == rows.Keys
      && Renewed(v, c, random, t[c.id])
      && (forall id :: id in rows ==> v.decrypt(t[id].envelope) == v.decrypt(rows[id].envelope))
      && (forall id :: id in rows && id != c.id ==> t[id] == rows[id])
  {
  }

  // ------------------------------------------------------------------
  // Schedulers and readers at once
  // ------------------------------------------------------------------

  datatype Phase =
    | Holding
    /** The randomness is kept for the statements only. */
    | Encrypted(envelope: Envelope, random: nat)
    | Committed
    | Failed
    | Finished

  /** A scheduler's work on one candidate. */
  datatype Job = Job(cand: Candidate, phase: Phase)

  /** A request that needs a credential: it selects the row, and later decrypts what it selected. */
  datatype Reader =
    | Selected(id: Id, row: Row)
    | Opened(id: Id, row: Row, secret: Option<string>)

  /** An update that took effect: whose, of what, and what it stored under which randomness. */
  datatype Commit = Commit(job: nat, cand: Candidate, random: nat, stored: Envelope)

  datatype State = State(rows: Table, jobs: seq<Job>, readers: seq<Reader>, commits: seq<Commit>, log: seq<LogRow>)

  datatype Action =
    | Fetch(id: Id)
    | Encrypt(job: nat, random: nat)
    | Update(job: nat)
    | Log(job: nat)
    | Select(id: Id)
    | Open(reader: nat)

  function Start(rows: Table): State {
    State(rows, [], [], [], [])
  }

  function Advance(s: State, j: nat, phase: Phase): State
    requires j < |s.jobs|
  {
    s.(jobs := s.jobs[j := s.jobs[j].(phase := phase)])
  }

  function Step(v: Vault, s: State, a: Action): State {
    match a
    case Fetch(id) =>
      if id in s.rows then s.(jobs := s.jobs + [Job(Candidate(id, s.rows[id]), Holding)]) else s
    case Encrypt(j, random) =>
      if j < |s.jobs| && s.jobs[j].phase.Holding? then
        match v.decrypt(s.jobs[j].cand.row.envelope)
        case None => Advance(s, j, Failed)
        case Some(secret) => Advance(s, j, Encrypted(v.encrypt(secret, random), random))
      else s
    case Update(j) =>
      if j < |s.jobs| && s.jobs[j].phase.Encrypted? then
        var Job(c, Encrypted(envelope, random)) := s.jobs[j];
        if VersionMatches(s.rows, c) then
          Advance(s, j, Committed).(
            rows := s.rows[c.id := Row(c.row.version + 1, envelope)],
            commits := s.commits + [Commit(j, c, random, envelope)])
        else Advance(s, j, Failed)
      else s
    case Log(j) =>
      if j < |s.jobs| && (s.jobs[j].phase.Committed? || s.jobs[j].phase.Failed?) then
        var c := s.jobs[j].cand;
        Advance(s, j, Finished).(log := s.log +
          [if s.jobs[j].phase.Committed? then LogRow(c.id, c.row.version, c.row.version + 1, true)
           else LogRow(c.id, c.row.version, c.row.version, false)])
      else s
    case Select(id) => if id in s.rows then s.(readers := s.readers + [Selected(id, s.rows[id])]) else s
    case Open(i) =>
      if i < |s.readers| && s.readers[i].Selected? then
        var Selected(id, row) := s.readers[i];
        s.(readers := s.readers[i := Opened(id, row, v.decrypt(row.envelope))])
      else s
  }

  ghost function Run(v: Vault, rows: Table, acts: seq<Action>): State {
    if acts == [] then Start(rows) else Step(v, Run(v, rows, acts[..|acts| - 1]), acts[|acts| - 1])
  }

  /** Without interference the steps of a job, stale or not, are the method `RotateCredential` and the cycle's logging. */
  lemma UndisturbedRotation(v: Vault, s: State, j: nat, random: nat)
    requires j < |s.jobs| && s.jobs[j].phase.Holding?
    ensures var c := s.jobs[j].cand;
      var t := Step(v, Step(v, Step(v, s, Encrypt(j, random)), Update(j)), Log(j));
      && t.rows == Rotated(v, s.rows, c, random)
      && t.log == s.log + [LogOf(v, s.rows, c)]
      && LogOf(v, s.rows, c) == LogRow(c.id, c.row.version, c.row.version + if Succeeds(v, s.rows, c) then 1 else 0,
                                       Succeeds(v, s.rows, c))
      && t.jobs == s.jobs[j := Job(c, Finished)]
      && if Succeeds(v, s.rows, c) then
           var envelope := v.encrypt(v.decrypt(c.row.envelope).value, random);
           && t.rows == s.rows[c.id := Row(c.row.version + 1, envelope)]
           && t.commits == s.commits + [Commit(j, c, random, envelope)]
         else
           t.rows == s.rows && t.commits == s.commits
  {
    var c := s.jobs[j].cand;
    var a := Step(v, s, Encrypt(j, random));
    if a.jobs[j].phase.Encrypted? {
      assert a == s.(jobs := s.jobs[j := Job(c, Encrypted(a.jobs[j].phase.envelope, random))]);
      UndisturbedUpdate(v, a, j);
    }
  }

  lemma UndisturbedUpdate(v: Vault, s: State, j: nat)
    requires j < |s.jobs| && s.jobs[j].phase.Encrypted?
    ensures var c := s.jobs[j].cand;
      var t := Step(v, Step(v, s, Update(j)), Log(j));
      var Encrypted(envelope, random) := s.jobs[j].phase;
      && t.jobs == s.jobs[j := Job(c, Finished)]
      && if VersionMatches(s.rows, c) then
           && t.rows == s.rows[c.id := Row(c.row.version + 1, envelope)]
           && t.log == s.log + [LogRow(c.id, c.row.version, c.row.version + 1, true)]
           && t.commits == s.commits + [Commit(j, c, random, envelope)]
         else
           t.rows == s.rows && t.commits == s.commits && t.log == s.log + [LogRow(c.id, c.row.version, c.row.version, false)]
  {
    assert Step(v, s, Update(j)).jobs[j].cand == s.jobs[j].cand;
  }

  /** How many committed updates replaced a version of this credential. */
  ghost function CommitCount(commits: seq<Commit>, id: Id): nat {
    if commits == [] then 0
    else CommitCount(commits[..|commits| - 1], id) + if commits[|commits| - 1].cand.id == id then 1 else 0
  }

  /** An envelope of this credential, as old as it may be, still holds the original secret. */
  ghost predicate Genuine(v: Vault, rows: Table, s: State, id: Id, r: Row) {
    && id in rows && id in s.rows
    && v.decrypt(r.envelope) == v.decrypt(rows[id].envelope)
    && rows[id].version <= r.version <= s.rows[id].version
  }

  ghost predicate JobOk(v: Vault, rows: Table, s: State, j: Job) {
    && Genuine(v, rows, s, j.cand.id, j.cand.row)
    && (j.phase.Encrypted? ==> v.decrypt(j.phase.envelope) == v.decrypt(rows[j.cand.id].envelope))
    && (j.phase.Committed? ==> j.cand.row.version < s.rows[j.cand.id].version)
  }

  ghost predicate ReaderOk(v: Vault, rows: Table, s: State, r: Reader) {
    && Genuine(v, rows, s, r.id, r.row)
    && (r.Opened? ==> r.secret == v.decrypt(rows[r.id].envelope))
  }

  ghost predicate SecretsKept(v: Vault, rows: Table, s: State) {
    && s.rows.Keys == rows.Keys
    && (forall id | id in rows :: Genuine(v, rows, s, id, s.rows[id]))
    && (forall i :: 0 <= i < |s.jobs| ==> JobOk(v, rows, s, s.jobs[i]))
    && (forall i :: 0 <= i < |s.readers| ==> ReaderOk(v, rows, s, s.readers[i]))
  }

  /** Every stored or selected envelope decrypts to the original secret, whatever the interleaving. */
  lemma {:induction false} SecretsSurvive(v: Vault, rows: Table, acts: seq<Action>)
    requires Sound(v)
    ensures SecretsKept(v, rows, Run(v, rows, acts))
  {
    if acts != [] {
      SecretsSurvive(v, rows, acts[..|acts| - 1]);
      StepKeepsSecrets(v, rows, Run(v, rows, acts[..|acts| - 1]), acts[|acts| - 1]);
    }
  }

  /** Versions only grow, and then nothing already seen turns false. */
  ghost predicate VersionsGrow(s: State, t: State) {
    s.rows.Keys == t.rows.Keys && forall id | id in s.rows :: s.rows[id].version <= t.rows[id].version
  }

  lemma JobStays(v: Vault, rows: Table, s: State, t: State, j: Job)
    requires JobOk(v, rows, s, j) && VersionsGrow(s, t)
    ensures JobOk(v, rows, t, j)
  {
  }

  lemma StepKeepsSecrets(v: Vault, rows: Table, s: State, a: Action)
    requires Sound(v)
    requires SecretsKept(v, rows, s)
    ensures SecretsKept(v, rows, Step(v, s, a))
  {
    var t := Step(v, s, a);
    RowsStayGenuine(v, rows, s, a);
    forall i | 0 <= i < |t.jobs|
      ensures JobOk(v, rows, t, t.jobs[i])
    {
      if i < |s.jobs| {
        JobStays(v, rows, s, t, s.jobs[i]);
        JobMoves(v, rows, s, a, i);
      }
    }
    forall i | 0 <= i < |t.readers|
      ensures ReaderOk(v, rows, t, t.readers[i])
    {
      assert i < |s.readers| ==> ReaderOk(v, rows, s, s.readers[i]);
    }
  }

  /**
   A request that selected a row before, during or after any number of
   rotations, and decrypts it whenever it gets to it, obtains the original secret.
   */
  lemma ReadersGetTheSecret(v: Vault, rows: Table, acts: seq<Action>, i: nat)
    requires Sound(v)
    requires i < |Run(v, rows, acts).readers| && Run(v, rows, acts).readers[i].Opened?
    ensures var Opened(id, _, secret) := Run(v, rows, acts).readers[i];
      id in rows && secret == v.decrypt(rows[id].envelope)
  {
    SecretsSurvive(v, rows, acts);
    assert ReaderOk(v, rows, Run(v, rows, acts), Run(v, rows, acts).readers[i]);
  }

  lemma RowsStayGenuine(v: Vault, rows: Table, s: State, a: Action)
    requires SecretsKept(v, rows, s)
    ensures var t := Step(v, s, a);
      VersionsGrow(s, t) && forall id | id in rows :: Genuine(v, rows, t, id, t.rows[id])
  {
    var t := Step(v, s, a);
    if a.Update? && a.job < |s.jobs| {
      assert JobOk(v, rows, s, s.jobs[a.job]);
    }
    forall id | id in rows
      ensures Genuine(v, rows, t, id, t.rows[id])
    {
      assert Genuine(v, rows, s, id, s.rows[id]);
    }
  }

  lemma JobMoves(v: Vault, rows: Table, s: State, a: Action, i: nat)
    requires Sound(v)
    requires i < |s.jobs| && JobOk(v, rows, s, s.jobs[i])
    requires JobOk(v, rows, Step(v, s, a), s.jobs[i])
    ensures JobOk(v, rows, Step(v, s, a), Step(v, s, a).jobs[i])
  {
  }

  /** The version counts the committed updates. */
  lemma {:induction false} VersionsCountCommits(v: Vault, rows: Table, acts: seq<Action>, id: Id)
    requires id in rows
    ensures var s := Run(v, rows, acts);
      id in s.rows && s.rows[id].version == rows[id].version + CommitCount(s.commits, id)
  {
    if acts != [] {
      var front, a := acts[..|acts| - 1], acts[|acts| - 1];
      VersionsCountCommits(v, rows, front, id);
      CommitStep(v, Run(v, rows, front), a, id);
    }
  }

  lemma CommitStep(v: Vault, s: State, a: Action, id: Id)
    requires id in s.rows
    ensures var t := Step(v, s, a);
      id in t.rows && t.rows[id].version - CommitCount(t.commits, id) == s.rows[id].version - CommitCount(s.commits, id)
  {
    match a
    case Update(j) =>
      if j < |s.jobs| && s.jobs[j].phase.Encrypted? {
        var Job(c, Encrypted(envelope, random)) := s.jobs[j];
        CommitAdded(s.commits, Commit(j, c, random, envelope), id);
      }
    case _ =>
      RowsUntouched(v, s, a);
  }

  lemma RowsUntouched(v: Vault, s: State, a: Action)
    requires !a.Update?
    ensures Step(v, s, a).rows == s.rows && Step(v, s, a).commits == s.commits
  {
  }

  lemma CommitAdded(commits: seq<Commit>, c: Commit, id: Id)
    ensures CommitCount(commits + [c], id) == CommitCount(commits, id) + if c.cand.id == id then 1 else 0
  {
    assert (commits + [c])[..|commits|] == commits;
  }

  // ------------------------------------------------------------------
  // Every new version is a new encryption
  // ------------------------------------------------------------------

  /** What was read, encrypted under the randomness of an action of this very job. */
  ghost predicate Sealed(v: Vault, acts: seq<Action>, job: nat, c: Candidate, random: nat, envelope: Envelope) {
    && Encrypt(job, random) in acts
    && v.decrypt(c.row.envelope).Some? && envelope == v.encrypt(v.decrypt(c.row.envelope).value, random)
  }

  ghost predicate JobSealed(v: Vault, acts: seq<Action>, s: State, i: int)
    requires 0 <= i < |s.jobs|
  {
    s.jobs[i].phase.Encrypted? ==> Sealed(v, acts, i, s.jobs[i].cand, s.jobs[i].phase.random, s.jobs[i].phase.envelope)
  }

  /** The row of a credential after these commits. */
  ghost function LastRow(rows: Table, commits: seq<Commit>, id: Id): Row
    requires id in rows
  {
    if commits == [] then rows[id]
    else
      var last := commits[|commits| - 1];
      if last.cand.id == id then Row(last.cand.row.version + 1, last.stored) else LastRow(rows, commits[..|commits| - 1], id)
  }

  ghost predicate AllSealed(v: Vault, rows: Table, acts: seq<Action>, s: State) {
    && (forall i :: 0 <= i < |s.jobs| ==> JobSealed(v, acts, s, i))
    && (forall c :: c in s.commits ==> Sealed(v, acts, c.job, c.cand, c.random, c.stored))
    && s.rows.Keys == rows.Keys
    && (forall id | id in rows :: s.rows[id] == LastRow(rows, s.commits, id))
  }

  /**
   Every update that takes effect stores an encryption of the secret that its
   job has read, under the randomness of that job's own encryption; and the
   table holds, for each credential, what the last such update stored.
   */
  lemma {:induction false} UpdatesReencrypt(v: Vault, rows: Table, acts: seq<Action>)
    ensures AllSealed(v, rows, acts, Run(v, rows, acts))
  {
    if acts != [] {
      var front, a := acts[..|acts| - 1], acts[|acts| - 1];
      UpdatesReencrypt(v, rows, front);
      assert acts == front + [a];
      StepSealed(v, rows, front, Run(v, rows, front), a);
    }
  }

  lemma StepSealed(v: Vault, rows: Table, acts: seq<Action>, s: State, a: Action)
    requires AllSealed(v, rows, acts, s)
    ensures AllSealed(v, rows, acts + [a], Step(v, s, a))
  {
    var t := Step(v, s, a);
    assert forall b :: b in acts + [a] <==> b in acts || b == a;
    forall i | 0 <= i < |t.jobs|
      ensures JobSealed(v, acts + [a], t, i)
    {
      assert i < |s.jobs| ==> JobSealed(v, acts, s, i);
    }
    assert |t.commits| > |s.commits| ==> t.commits[..|s.commits|] == s.commits && JobSealed(v, acts, s, a.job);
    forall c | c in t.commits
      ensures Sealed(v, acts + [a], c.job, c.cand, c.random, c.stored)
    {
      assert c in s.commits ==> Sealed(v, acts, c.job, c.cand, c.random, c.stored);
    }
  }

  /** Different randomness gives different envelopes. */
  ghost predicate Injective(v: Vault) {
    forall secret, r, q :: v.encrypt(secret, r) == v.encrypt(secret, q) ==> r == q
  }

  /** No two encryptions of the run use the same randomness. */
  ghost predicate DistinctRandoms(acts: seq<Action>) {
    forall i, j :: 0 <= i < j < |acts| && acts[i].Encrypt? && acts[j].Encrypt? ==> acts[i].random != acts[j].random
  }

  ghost predicate Pending(j: Job) {
    j.phase.Encrypted?
  }

  /** Each randomness that was used belongs to one pending job or to one commit. */
  ghost predicate Spread(s: State) {
    && (forall i, j :: 0 <= i < j < |s.commits| ==> s.commits[i].random != s.commits[j].random)
    && (forall i, j :: 0 <= i < j < |s.jobs| && Pending(s.jobs[i]) && Pending(s.jobs[j]) ==>
          s.jobs[i].phase.random != s.jobs[j].phase.random)
    && (forall i, j :: 0 <= i < |s.commits| && 0 <= j < |s.jobs| && Pending(s.jobs[j]) ==>
          s.commits[i].random != s.jobs[j].phase.random)
  }

  ghost predicate NotUsed(s: State, random: nat) {
    && (forall i :: 0 <= i < |s.commits| ==> s.commits[i].random != random)
    && (forall i :: 0 <= i < |s.jobs| && Pending(s.jobs[i]) ==> s.jobs[i].phase.random != random)
  }

  lemma StepSpread(v: Vault, s: State, a: Action)
    requires Spread(s) && (a.Encrypt? ==> NotUsed(s, a.random))
    ensures Spread(Step(v, s, a))
  {
    match a
    case Encrypt(_, _) =>
    case Update(j) =>
      if j < |s.jobs| && Pending(s.jobs[j]) && VersionMatches(s.rows, s.jobs[j].cand) {
        UpdateSpread(v, s, j);
      }
    case _ =>
      StepWithoutRandoms(v, s, a);
  }

  lemma StepWithoutRandoms(v: Vault, s: State, a: Action)
    requires !a.Encrypt? && !a.Update?
    ensures var t := Step(v, s, a);
      && t.commits == s.commits && |s.jobs| <= |t.jobs|
      && (forall i :: 0 <= i < |s.jobs| && Pending(t.jobs[i]) ==> t.jobs[i] == s.jobs[i])
      && (forall i :: |s.jobs| <= i < |t.jobs| ==> !Pending(t.jobs[i]))
  {
  }

  lemma UpdateSpread(v: Vault, s: State, j: nat)
    requires Spread(s) && j < |s.jobs| && Pending(s.jobs[j]) && VersionMatches(s.rows, s.jobs[j].cand)
    ensures Spread(Step(v, s, Update(j)))
  {
    var t := Step(v, s, Update(j));
    assert !Pending(t.jobs[j]) && forall i :: 0 <= i < |s.jobs| && i != j ==> t.jobs[i] == s.jobs[i];
    assert t.commits[|s.commits|].random == s.jobs[j].phase.random;
  }

  lemma {:induction false} RandomsSpread(v: Vault, rows: Table, acts: seq<Action>)
    requires DistinctRandoms(acts)
    ensures Spread(Run(v, rows, acts))
  {
    if acts != [] {
      var front, a := acts[..|acts| - 1], acts[|acts| - 1];
      assert forall i :: 0 <= i < |front| ==> front[i] == acts[i];
      RandomsSpread(v, rows, front);
      if a.Encrypt? {
        NewRandom(v, rows, acts);
      }
      StepSpread(v, Run(v, rows, front), a);
    }
  }

  lemma NewRandom(v: Vault, rows: Table, acts: seq<Action>)
    requires DistinctRandoms(acts) && acts != [] && acts[|acts| - 1].Encrypt?
    ensures NotUsed(Run(v, rows, acts[..|acts| - 1]), acts[|acts| - 1].random)
  {
    var front, a := acts[..|acts| - 1], acts[|acts| - 1];
    var s := Run(v, rows, front);
    UpdatesReencrypt(v, rows, front);
    forall b | b in front && b.Encrypt?
      ensures b.random != a.random
    {
      var i :| 0 <= i < |front| && front[i] == b;
      assert acts[i] == b;
    }
    forall i | 0 <= i < |s.jobs| && Pending(s.jobs[i])
      ensures s.jobs[i].phase.random != a.random
    {
      assert JobSealed(v, front, s, i);
    }
    forall i | 0 <= i < |s.commits|
      ensures s.commits[i].random != a.random
    {
      assert s.commits[i] in s.commits;
    }
  }

  /**
   With injective encryption and fresh randomness no two versions of any
   credential are stored under the same envelope: each rotation leaves the old
   data key behind.
   */
  lemma EnvelopesNeverReused(v: Vault, rows: Table, acts: seq<Action>, i: nat, j: nat)
    requires Sound(v) && Injective(v) && DistinctRandoms(acts)
    requires i < j < |Run(v, rows, acts).commits|
    ensures Run(v, rows, acts).commits[i].stored != Run(v, rows, acts).commits[j].stored
  {
    var s := Run(v, rows, acts);
    RandomsSpread(v, rows, acts);
    UpdatesReencrypt(v, rows, acts);
    var a, b := s.commits[i], s.commits[j];
    assert a in s.commits && b in s.commits;
    var p, q := v.decrypt(a.cand.row.envelope).value, v.decrypt(b.cand.row.envelope).value;
    if a.stored == b.stored {
      assert v.decrypt(a.stored) == Some(p) && v.decrypt(b.stored) == Some(q);
    }
  }

  /** Nor under the envelope a credential started with, unless that was made with a randomness of the run. */
  lemma FirstEnvelopeReplaced(v: Vault, rows: Table, acts: seq<Action>, i: nat, id: Id)
    requires id in rows && i < |Run(v, rows, acts).commits|
    requires forall job, random, secret ::
      Encrypt(job, random) in acts ==> rows[id].envelope != v.encrypt(secret, random)
    ensures Run(v, rows, acts).commits[i].stored != rows[id].envelope
  {
    UpdatesReencrypt(v, rows, acts);
    var c := Run(v, rows, acts).commits[i];
    assert c in Run(v, rows, acts).commits;
    assert Encrypt(c.job, c.random) in acts;
  }

  // ------------------------------------------------------------------
  // The audit log
  // ------------------------------------------------------------------

  /** Success rows that say version `n` of `id` was replaced by the next. */
  ghost function SuccessRows(log: seq<LogRow>, id: Id, n: int): nat {
    if log == [] then 0
    else SuccessRows(log[..|log| - 1], id, n) + if log[|log| - 1] == LogRow(id, n, n + 1, true) then 1 else 0
  }

  ghost predicate AwaitsLog(j: Job, id: Id, n: int) {
    j.phase.Committed? && j.cand.id == id && j.cand.row.version == n
  }

  /** Jobs that have replaced version `n` of `id` and not yet logged it. */
  ghost function AwaitingLog(jobs: seq<Job>, id: Id, n: int): nat {
    if jobs == [] then 0
    else AwaitingLog(jobs[..|jobs| - 1], id, n) + if AwaitsLog(jobs[|jobs| - 1], id, n) then 1 else 0
  }

  lemma {:induction false} AwaitingUpdate(jobs: seq<Job>, i: nat, j: Job, id: Id, n: int)
    requires i < |jobs|
    ensures AwaitingLog(jobs[i := j], id, n) + (if AwaitsLog(jobs[i], id, n) then 1 else 0)
         == AwaitingLog(jobs, id, n) + if AwaitsLog(j, id, n) then 1 else 0
  {
    var m := |jobs| - 1;
    if i == m {
      assert jobs[i := j][..m] == jobs[..m];
    } else {
      assert jobs[i := j][..m] == jobs[..m][i := j];
      AwaitingUpdate(jobs[..m], i, j, id, n);
    }
  }

  ghost predicate Accounted(rows: Table, s: State, id: Id, n: int) {
    && id in rows && id in s.rows
    && SuccessRows(s.log, id, n) + AwaitingLog(s.jobs, id, n)
       == if rows[id].version <= n < s.rows[id].version then 1 else 0
  }

  ghost predicate SinceStart(rows: Table, s: State) {
    && s.rows.Keys == rows.Keys
    && (forall id | id in rows :: rows[id].version <= s.rows[id].version)
    && (forall i :: 0 <= i < |s.jobs| ==> FetchedSinceStart(rows, s.jobs[i]))
  }

  ghost predicate FetchedSinceStart(rows: Table, j: Job) {
    j.cand.id in rows && rows[j.cand.id].version <= j.cand.row.version
  }

  lemma StepAccounted(v: Vault, rows: Table, s: State, a: Action, id: Id, n: int)
    requires SinceStart(rows, s) && Accounted(rows, s, id, n)
    ensures Accounted(rows, Step(v, s, a), id, n)
  {
    if (a.Encrypt? || a.Update? || a.Log?) && a.job < |s.jobs| {
      JobAccounted(v, rows, s, a, a.job, id, n);
    } else {
      OthersAccounted(v, s, a, id, n);
    }
  }

  /** Fetching and reading touch neither versions nor log rows, and a new job has replaced nothing. */
  lemma OthersAccounted(v: Vault, s: State, a: Action, id: Id, n: int)
    requires (a.Encrypt? || a.Update? || a.Log?) ==> a.job >= |s.jobs|
    ensures var t := Step(v, s, a);
      t.rows == s.rows && t.log == s.log && AwaitingLog(t.jobs, id, n) == AwaitingLog(s.jobs, id, n)
  {
    var t := Step(v, s, a);
    assert |t.jobs| > |s.jobs| ==> t.jobs[..|s.jobs|] == s.jobs;
  }

  lemma JobAccounted(v: Vault, rows: Table, s: State, a: Action, j: nat, id: Id, n: int)
    requires SinceStart(rows, s) && Accounted(rows, s, id, n)
    requires (a.Encrypt? || a.Update? || a.Log?) && a.job == j < |s.jobs|
    ensures Accounted(rows, Step(v, s, a), id, n)
  {
    var t := Step(v, s, a);
    assert FetchedSinceStart(rows, s.jobs[j]);
    assert s.jobs[j := s.jobs[j]] == s.jobs && t.jobs == s.jobs[j := t.jobs[j]];
    AwaitingUpdate(s.jobs, j, t.jobs[j], id, n);
    if a.Log? {
      LogMoves(v, s, j, id, n);
    } else {
      assert t.log == s.log;
    }
  }

  /** Logging a committed job turns its wait into a success row; logging a failed one adds none. */
  lemma LogMoves(v: Vault, s: State, j: nat, id: Id, n: int)
    requires j < |s.jobs|
    ensures var t := Step(v, s, Log(j));
      && t.rows == s.rows && !AwaitsLog(t.jobs[j], id, n)
      && SuccessRows(t.log, id, n) == SuccessRows(s.log, id, n) + if AwaitsLog(s.jobs[j], id, n) then 1 else 0
  {
    var t := Step(v, s, Log(j));
    assert |t.log| > |s.log| ==> t.log[..|s.log|] == s.log;
  }

  /**
   Each version a credential has gone through was replaced exactly once: by one
   job, with one success row (n, n + 1), written or about to be. No other
   success rows exist.
   */
  lemma {:induction false} EachVersionReplacedOnce(v: Vault, rows: Table, acts: seq<Action>, id: Id, n: int)
    requires id in rows
    ensures Accounted(rows, Run(v, rows, acts), id, n)
  {
    if acts != [] {
      EachVersionReplacedOnce(v, rows, acts[..|acts| - 1], id, n);
      AllSinceStart(v, rows, acts[..|acts| - 1]);
      StepAccounted(v, rows, Run(v, rows, acts[..|acts| - 1]), acts[|acts| - 1], id, n);
    }
  }

  lemma {:induction false} AllSinceStart(v: Vault, rows: Table, acts: seq<Action>)
    ensures SinceStart(rows, Run(v, rows, acts))
  {
    if acts != [] {
      AllSinceStart(v, rows, acts[..|acts| - 1]);
      var s, a := Run(v, rows, acts[..|acts| - 1]), acts[|acts| - 1];
      assert a.Update? && a.job < |s.jobs| ==> FetchedSinceStart(rows, s.jobs[a.job]);
    }
  }
}
