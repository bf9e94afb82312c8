/**
 Plan and apply: the difference between a local configuration document and
 the live one, and the loop that brings spend caps into line.

 A map from periods to limits is a list of pairs with distinct periods, in key
 order. Limits are exact.
 */
module Plan {
  import opened Options
  import opened Json
  import opened Names

  datatype PolicySpec = PolicySpec(name: string, mode: string, phase: string, rules: Json, retry: Option<Json>)

  datatype Cap = Cap(period: string, limit: real)

  datatype TokenSpec = TokenSpec(
    name: string, upstreamUrl: string, policies: seq<string>, logLevel: Option<string>, spendCaps: seq<Cap>)

  datatype ConfigDoc = ConfigDoc(policies: seq<PolicySpec>, tokens: seq<TokenSpec>)

  datatype ChangeKind = Create | Update | Drift

  datatype Resource = Policy | Token | SpendCap

  datatype Change = Change(kind: ChangeKind, resource: Resource, name: string)

  // ------------------------------------------------------------------
  // Look-ups
  // ------------------------------------------------------------------

  /** Look-up in a map collected from a list: the last entry of a name wins. */
  function FindPolicy(ps: seq<PolicySpec>, name: string): (r: Option<PolicySpec>)
    ensures r.Some? ==> r.value in ps && r.value.name == name
    ensures r.None? ==> forall p :: p in ps ==> p.name != name
  {
    if ps == [] then None
    else if ps[|ps| - 1].name == name then Some(ps[|ps| - 1]) else FindPolicy(ps[..|ps| - 1], name)
  }

  function FindToken(ts: seq<TokenSpec>, name: string): (r: Option<TokenSpec>)
    ensures r.Some? ==> r.value in ts && r.value.name == name
    ensures r.None? ==> forall t :: t in ts ==> t.name != name
  {
    if ts == [] then None
    else if ts[|ts| - 1].name == name then Some(ts[|ts| - 1]) else FindToken(ts[..|ts| - 1], name)
  }

  /** `iter().find(...)`: the first entry of a name. */
  function FirstToken(ts: seq<TokenSpec>, name: string): (r: Option<TokenSpec>)
    ensures r.Some? ==> r.value in ts && r.value.name == name
    ensures r.None? ==> forall t :: t in ts ==> t.name != name
  {
    if ts == [] then None else if ts[0].name == name then Some(ts[0]) else FirstToken(ts[1..], name)
  }

  function LimitOf(caps: seq<Cap>, period: string): (r: Option<real>)
    ensures r.None? <==> forall c :: c in caps ==> c.period != period
  {
    if caps == [] then None else if caps[0].period == period then Some(caps[0].limit) else LimitOf(caps[1..], period)
  }

  ghost predicate UniqueTokens(ts: seq<TokenSpec>) {
    forall i, j :: 0 <= i < j < |ts| ==> ts[i].name != ts[j].name
  }

  ghost predicate UniquePolicies(ps: seq<PolicySpec>) {
    forall i, j :: 0 <= i < j < |ps| ==> ps[i].name != ps[j].name
  }

  ghost predicate UniquePeriods(caps: seq<Cap>) {
    forall i, j :: 0 <= i < j < |caps| ==> caps[i].period != caps[j].period
  }

  function Abs(x: real): real {
    if x < 0.0 then -x else x
  }

  predicate NeedsUpdate(limit: real, live: Option<real>) {
    match live
    case Some(l) => Abs(limit - l) > 0.001
    case None => true
  }

  // ------------------------------------------------------------------
  // The plan as a value
  // ------------------------------------------------------------------

  predicate SamePolicy(local: PolicySpec, live: PolicySpec) {
    local.mode == live.mode && local.phase == live.phase && local.rules == live.rules && local.retry == live.retry
  }

  predicate SameToken(local: TokenSpec, live: TokenSpec) {
    && local.upstreamUrl == live.upstreamUrl
    && Sort(local.policies) == Sort(live.policies)
    && local.logLevel == live.logLevel
  }

  function PolicyChange(p: PolicySpec, live: seq<PolicySpec>): seq<Change> {
    match FindPolicy(live, p.name)
    case Some(l) => if SamePolicy(p, l) then [] else [Change(Update, Policy, p.name)]
    case None => [Change(Create, Policy, p.name)]
  }

  function PolicyChanges(ps: seq<PolicySpec>, live: seq<PolicySpec>): seq<Change> {
    if ps == [] then [] else PolicyChanges(ps[..|ps| - 1], live) + PolicyChange(ps[|ps| - 1], live)
  }

  function CapName(token: string, period: string): string {
    token + ":" + period
  }

  function CapChanges(token: string, caps: seq<Cap>, live: seq<Cap>): seq<Change> {
    if caps == [] then []
    else
      var c := caps[|caps| - 1];
      CapChanges(token, caps[..|caps| - 1], live)
      + match LimitOf(live, c.period)
        case Some(l) => if Abs(c.limit - l) > 0.001 then [Change(Update, SpendCap, CapName(token, c.period))] else []
        case None => [Change(Create, SpendCap, CapName(token, c.period))]
  }

  function TokenChange(t: TokenSpec, live: seq<TokenSpec>): seq<Change> {
    match FindToken(live, t.name)
    case Some(l) =>
      (if SameToken(t, l) then [] else [Change(Update, Token, t.name)]) + CapChanges(t.name, t.spendCaps, l.spendCaps)
    case None => [Change(Create, Token, t.name)] + CapChanges(t.name, t.spendCaps, [])
  }

  function TokenChanges(ts: seq<TokenSpec>, live: seq<TokenSpec>): seq<Change> {
    if ts == [] then [] else TokenChanges(ts[..|ts| - 1], live) + TokenChange(ts[|ts| - 1], live)
  }

  function PolicyDrift(live: seq<PolicySpec>, local: seq<PolicySpec>): seq<Change> {
    if live == [] then []
    else
      var p := live[|live| - 1];
      PolicyDrift(live[..|live| - 1], local) + if FindPolicy(local, p.name).None? then [Change(Drift, Policy, p.name)] else []
  }

  function TokenDrift(live: seq<TokenSpec>, local: seq<TokenSpec>): seq<Change> {
    if live == [] then []
    else
      var t := live[|live| - 1];
      TokenDrift(live[..|live| - 1], local) + if FindToken(local, t.name).None? then [Change(Drift, Token, t.name)] else []
  }

  function PlanOf(local: ConfigDoc, live: ConfigDoc): seq<Change> {
    PolicyChanges(local.policies, live.policies) + PolicyDrift(live.policies, local.policies)
    + TokenChanges(local.tokens, live.tokens) + TokenDrift(live.tokens, local.tokens)
  }

  /** `Plan::is_empty`: nothing but drift. */
  predicate IsEmpty(changes: seq<Change>) {
    forall c :: c in changes ==> c.kind == Drift
  }

  function CountKind(changes: seq<Change>, kind: ChangeKind): nat {
    if changes == [] then 0
    else CountKind(changes[..|changes| - 1], kind) + if changes[|changes| - 1].kind == kind then 1 else 0
  }

  // ------------------------------------------------------------------
  // Computing the plan
  // ------------------------------------------------------------------

  datatype Field = Mode | Phase | Rules | Retry | Upstream | Policies | LogLevel

  /** `diff_policy`: the fields that differ. */
  method DiffPolicy(local: PolicySpec, live: PolicySpec) returns (diffs: seq<Field>)
    ensures diffs == [] <==> SamePolicy(local, live)
    ensures forall f :: f in diffs <==>
      (f == Mode && local.mode != live.mode) || (f == Phase && local.phase != live.phase)
      || (f == Rules && local.rules != live.rules) || (f == Retry && local.retry != live.retry)
  {
    diffs := [];
    if local.mode != live.mode {
      diffs := diffs + [Mode];
    }
    if local.phase != live.phase {
      diffs := diffs + [Phase];
    }
    if local.rules != live.rules {
      diffs := diffs + [Rules];
    }
    if local.retry != live.retry {
      diffs := diffs + [Retry];
    }
  }

  /** `diff_token`: lists of policies are compared sorted, which is to say as bags. */
  method DiffToken(local: TokenSpec, live: TokenSpec) returns (diffs: seq<Field>)
    ensures diffs == [] <==> SameToken(local, live)
    ensures forall f :: f in diffs <==>
      (f == Upstream && local.upstreamUrl != live.upstreamUrl)
      || (f == Policies && multiset(local.policies) != multiset(live.policies))
      || (f == LogLevel && local.logLevel != live.logLevel)
  {
    SortComparesBags(local.policies, live.policies);
    diffs := [];
    if local.upstreamUrl != live.upstreamUrl {
      diffs := diffs + [Upstream];
    }
    assert forall f :: f in diffs <==> f == Upstream && local.upstreamUrl != live.upstreamUrl;
    var localPolicies := Sort(local.policies);
    var livePolicies := Sort(live.policies);
    var samePolicies := localPolicies == livePolicies;
    assert samePolicies <==> multiset(local.policies) == multiset(live.policies);
    if !samePolicies {
      diffs := diffs + [Policies];
    }
    assert forall f :: f in diffs <==>
      (f == Upstream && local.upstreamUrl != live.upstreamUrl) || (f == Policies && !samePolicies);
    if local.logLevel != live.logLevel {
      diffs := diffs + [LogLevel];
    }
  }

  /** `diff_spend_caps`. */
  method DiffSpendCaps(token: string, localCaps: seq<Cap>, liveCaps: seq<Cap>, changes: seq<Change>)
    returns (r: seq<Change>)
    ensures r == changes + CapChanges(token, localCaps, liveCaps)
    ensures forall c :: c in r <==> c in changes || exists cap :: cap in localCaps && CapEntry(token, cap, liveCaps, c)
  {
    r := changes;
    for i := 0 to |localCaps|
      invariant r == changes + CapChanges(token, localCaps[..i], liveCaps)
    {
      var cap := localCaps[i];
      assert localCaps[..i + 1][..i] == localCaps[..i];
      match LimitOf(liveCaps, cap.period)
      case Some(live) =>
        if Abs(cap.limit - live) > 0.001 {
          r := r + [Change(Update, SpendCap, CapName(token, cap.period))];
        }
      case None =>
        r := r + [Change(Create, SpendCap, CapName(token, cap.period))];
    }
    assert localCaps[..|localCaps|] == localCaps;
    forall c
      ensures c in CapChanges(token, localCaps, liveCaps) <==>
        exists cap :: cap in localCaps && CapEntry(token, cap, liveCaps, c)
    {
      CapChangesMember(token, localCaps, liveCaps, c);
    }
  }

  method PlanPolicies(local: seq<PolicySpec>, live: seq<PolicySpec>) returns (changes: seq<Change>)
    ensures changes == PolicyChanges(local, live) + PolicyDrift(live, local)
  {
    changes := [];
    for i := 0 to |local|
      invariant changes == PolicyChanges(local[..i], live)
    {
      assert local[..i + 1][..i] == local[..i];
      match FindPolicy(live, local[i].name)
      case Some(livePolicy) =>
        var diffs := DiffPolicy(local[i], livePolicy);
        if diffs != [] {
          changes := changes + [Change(Update, Policy, local[i].name)];
        }
      case None =>
        changes := changes + [Change(Create, Policy, local[i].name)];
    }
    assert local[..|local|] == local;
    for i := 0 to |live|
      invariant changes == PolicyChanges(local, live) + PolicyDrift(live[..i], local)
    {
      assert live[..i + 1][..i] == live[..i];
      if FindPolicy(local, live[i].name).None? {
        changes := changes + [Change(Drift, Policy, live[i].name)];
      }
    }
    assert live[..|live|] == live;
  }

  method PlanToken(t: TokenSpec, live: seq<TokenSpec>, before: seq<Change>) returns (changes: seq<Change>)
    ensures changes == before + TokenChange(t, live)
  {
    changes := before;
    match FindToken(live, t.name)
    case Some(liveToken) =>
      var diffs := DiffToken(t, liveToken);
      if diffs != [] {
        changes := changes + [Change(Update, Token, t.name)];
      }
      changes := DiffSpendCaps(t.name, t.spendCaps, liveToken.spendCaps, changes);
    case None =>
      changes := changes + [Change(Create, Token, t.name)];
      changes := DiffSpendCaps(t.name, t.spendCaps, [], changes);
  }

  lemma TokenChangesStep(ts: seq<TokenSpec>, live: seq<TokenSpec>, i: nat, before: seq<Change>)
    requires i < |ts|
    ensures before + TokenChanges(ts[..i + 1], live)
         == before + TokenChanges(ts[..i], live) + TokenChange(ts[i], live)
  {
    var upTo := ts[..i + 1];
    assert upTo[..i] == ts[..i] && upTo[i] == ts[i] && upTo != [];
    assert TokenChanges(upTo, live) == TokenChanges(ts[..i], live) + TokenChange(ts[i], live);
  }

  method PlanTokens(local: seq<TokenSpec>, live: seq<TokenSpec>, before: seq<Change>) returns (changes: seq<Change>)
    ensures changes == before + TokenChanges(local, live)
  {
    changes := before;
    for i := 0 to |local|
      invariant changes == before + TokenChanges(local[..i], live)
    {
      TokenChangesStep(local, live, i, before);
      changes := PlanToken(local[i], live, changes);
    }
    assert local[..|local|] == local;
  }

  method PlanTokenDrift(local: seq<TokenSpec>, live: seq<TokenSpec>, before: seq<Change>) returns (changes: seq<Change>)
    ensures changes == before + TokenDrift(live, local)
  {
    changes := before;
    for i := 0 to |live|
      invariant changes == before + TokenDrift(live[..i], local)
    {
      assert live[..i + 1][..i] == live[..i];
      if FindToken(local, live[i].name).None? {
        changes := changes + [Change(Drift, Token, live[i].name)];
      }
    }
    assert live[..|live|] == live;
  }

  /** `compute_plan`. */
  method ComputePlan(local: ConfigDoc, live: ConfigDoc) returns (changes: seq<Change>)
    ensures changes == PlanOf(local, live)
  {
    changes := PlanPolicies(local.policies, live.policies);
    changes := PlanTokens(local.tokens, live.tokens, changes);
    changes := PlanTokenDrift(local.tokens, live.tokens, changes);
  }

  // ------------------------------------------------------------------
  // What an empty plan means
  // ------------------------------------------------------------------

  /** The live side has a limit for this period, at most a tenth of a cent away. */
  ghost predicate CapInSync(cap: Cap, live: seq<Cap>) {
    match LimitOf(live, cap.period)
    case None => false
    case Some(l) => cap.limit - 0.001 <= l <= cap.limit + 0.001
  }

  lemma InSyncNeedsNothing(cap: Cap, live: seq<Cap>)
    ensures CapInSync(cap, live) <==> !NeedsUpdate(cap.limit, LimitOf(live, cap.period))
  {
  }

  ghost predicate CapsInSync(caps: seq<Cap>, live: seq<Cap>) {
    forall i :: 0 <= i < |caps| ==> CapInSync(caps[i], live)
  }

  /** A live token with the same settings, the same bag of policies, and every local cap within tolerance. */
  ghost predicate TokenInSync(t: TokenSpec, live: seq<TokenSpec>) {
    match FindToken(live, t.name)
    case None => false
    case Some(l) =>
      && t.upstreamUrl == l.upstreamUrl && multiset(t.policies) == multiset(l.policies) && t.logLevel == l.logLevel
      && CapsInSync(t.spendCaps, l.spendCaps)
  }

  ghost predicate TokensInSync(ts: seq<TokenSpec>, live: seq<TokenSpec>) {
    forall i :: 0 <= i < |ts| ==> TokenInSync(ts[i], live)
  }

  lemma TokensInSyncSnoc(ts: seq<TokenSpec>, live: seq<TokenSpec>)
    requires ts != []
    ensures TokensInSync(ts, live) <==> TokensInSync(ts[..|ts| - 1], live) && TokenInSync(ts[|ts| - 1], live)
  {
    var front := ts[..|ts| - 1];
    if TokensInSync(front, live) && TokenInSync(ts[|ts| - 1], live) {
      forall i | 0 <= i < |ts|
        ensures TokenInSync(ts[i], live)
      {
        assert i < |front| ==> ts[i] == front[i];
      }
    }
    if TokensInSync(ts, live) {
      assert forall i :: 0 <= i < |front| ==> front[i] == ts[i];
    }
  }

  ghost predicate InSync(local: ConfigDoc, live: ConfigDoc) {
    && (forall i :: 0 <= i < |local.policies| ==> FindPolicy(live.policies, local.policies[i].name) == Some(local.policies[i]))
    && TokensInSync(local.tokens, live.tokens)
  }

  lemma {:induction false} CapChangesEmpty(token: string, caps: seq<Cap>, live: seq<Cap>)
    ensures IsEmpty(CapChanges(token, caps, live)) <==> CapsInSync(caps, live)
  {
    if caps != [] {
      var front, c := caps[..|caps| - 1], caps[|caps| - 1];
      CapChangesEmpty(token, front, live);
      var step := match LimitOf(live, c.period)
        case Some(l) => if Abs(c.limit - l) > 0.001 then [Change(Update, SpendCap, CapName(token, c.period))] else []
        case None => [Change(Create, SpendCap, CapName(token, c.period))];
      EmptyConcat(CapChanges(token, front, live), step);
      assert step != [] ==> step[0] in step;
      assert step == [] <==> CapInSync(c, live);
      assert IsEmpty(step) <==> step == [];
    }
  }

  lemma EmptyConcat(a: seq<Change>, b: seq<Change>)
    ensures IsEmpty(a + b) <==> IsEmpty(a) && IsEmpty(b)
  {
    assert forall c :: c in a + b <==> c in a || c in b;
  }

  lemma TokenChangeEmpty(t: TokenSpec, live: seq<TokenSpec>)
    ensures IsEmpty(TokenChange(t, live)) <==> TokenInSync(t, live)
  {
    match FindToken(live, t.name)
    case Some(l) =>
      SortComparesBags(t.policies, l.policies);
      CapChangesEmpty(t.name, t.spendCaps, l.spendCaps);
      var head := if SameToken(t, l) then [] else [Change(Update, Token, t.name)];
      EmptyConcat(head, CapChanges(t.name, t.spendCaps, l.spendCaps));
      assert head != [] ==> head[0] in head;
    case None =>
      assert TokenChange(t, live)[0] in TokenChange(t, live);
  }

  lemma {:induction false} TokenChangesEmpty(ts: seq<TokenSpec>, live: seq<TokenSpec>)
    ensures IsEmpty(TokenChanges(ts, live)) <==> TokensInSync(ts, live)
  {
    if ts != [] {
      var front, t := ts[..|ts| - 1], ts[|ts| - 1];
      TokensInSyncSnoc(ts, live);
      TokenChangesEmpty(front, live);
      TokenChangeEmpty(t, live);
      EmptyConcat(TokenChanges(front, live), TokenChange(t, live));
    }
  }

  lemma {:induction false} PolicyChangesEmpty(ps: seq<PolicySpec>, live: seq<PolicySpec>)
    ensures IsEmpty(PolicyChanges(ps, live)) <==> forall i :: 0 <= i < |ps| ==> FindPolicy(live, ps[i].name) == Some(ps[i])
  {
    if ps != [] {
      var front, p := ps[..|ps| - 1], ps[|ps| - 1];
      PolicyChangesEmpty(front, live);
      var step := PolicyChange(p, live);
      EmptyConcat(PolicyChanges(front, live), step);
      assert step != [] ==> step[0] in step;
    }
  }

  lemma {:induction false} PolicyDriftIsDrift(live: seq<PolicySpec>, local: seq<PolicySpec>)
    ensures forall c :: c in PolicyDrift(live, local) ==> c.kind == Drift && c.resource == Policy
    ensures forall n :: Change(Drift, Policy, n) in PolicyDrift(live, local) <==>
      (exists p :: p in live && p.name == n) && (forall p :: p in local ==> p.name != n)
  {
    if live != [] {
      var front, last := live[..|live| - 1], live[|live| - 1];
      PolicyDriftIsDrift(front, local);
      assert forall p :: p in live <==> p in front || p == last;
      var step := if FindPolicy(local, last.name).None? then [Change(Drift, Policy, last.name)] else [];
      assert forall c :: c in PolicyDrift(live, local) <==> c in PolicyDrift(front, local) || c in step;
    }
  }

  lemma {:induction false} TokenDriftIsDrift(live: seq<TokenSpec>, local: seq<TokenSpec>)
    ensures forall c :: c in TokenDrift(live, local) ==> c.kind == Drift && c.resource == Token
    ensures forall n :: Change(Drift, Token, n) in TokenDrift(live, local) <==>
      (exists t :: t in live && t.name == n) && (forall t :: t in local ==> t.name != n)
  {
    if live != [] {
      var front, last := live[..|live| - 1], live[|live| - 1];
      TokenDriftIsDrift(front, local);
      assert forall t :: t in live <==> t in front || t == last;
      var step := if FindToken(local, last.name).None? then [Change(Drift, Token, last.name)] else [];
      assert forall c :: c in TokenDrift(live, local) <==> c in TokenDrift(front, local) || c in step;
    }
  }

  /** The plan has nothing to do exactly when everything local has its equal among the live. */
  lemma EmptyPlanMeansInSync(local: ConfigDoc, live: ConfigDoc)
    ensures IsEmpty(PlanOf(local, live)) <==> InSync(local, live)
  {
    var a, b := PolicyChanges(local.policies, live.policies), PolicyDrift(live.policies, local.policies);
    var c, d := TokenChanges(local.tokens, live.tokens), TokenDrift(live.tokens, local.tokens);
    PolicyChangesEmpty(local.policies, live.policies);
    TokenChangesEmpty(local.tokens, live.tokens);
    PolicyDriftIsDrift(live.policies, local.policies);
    TokenDriftIsDrift(live.tokens, local.tokens);
    EmptyConcat(a, b);
    EmptyConcat(a + b, c);
    EmptyConcat(a + b + c, d);
  }

  /** `Plan::is_empty` is `creates() == 0 && updates() == 0`. */
  lemma {:induction false} EmptyByCounts(changes: seq<Change>)
    ensures IsEmpty(changes) <==> CountKind(changes, Create) == 0 && CountKind(changes, Update) == 0
    ensures CountKind(changes, Create) + CountKind(changes, Update) + CountKind(changes, Drift) == |changes|
  {
    if changes != [] {
      var front, c := changes[..|changes| - 1], changes[|changes| - 1];
      EmptyByCounts(front);
      assert forall x :: x in changes <==> x in front || x == c;
    }
  }

  lemma {:induction false} NoDriftInCaps(token: string, caps: seq<Cap>, live: seq<Cap>)
    ensures forall c :: c in CapChanges(token, caps, live) ==> c.kind != Drift
  {
    if caps != [] {
      NoDriftInCaps(token, caps[..|caps| - 1], live);
    }
  }

  lemma {:induction false} NoDriftInTokens(ts: seq<TokenSpec>, live: seq<TokenSpec>)
    ensures forall c :: c in TokenChanges(ts, live) ==> c.kind != Drift
  {
    if ts != [] {
      var t := ts[|ts| - 1];
      NoDriftInTokens(ts[..|ts| - 1], live);
      NoDriftInCaps(t.name, t.spendCaps, []);
      match FindToken(live, t.name)
      case Some(l) => NoDriftInCaps(t.name, t.spendCaps, l.spendCaps);
      case None =>
    }
  }

  lemma {:induction false} NoDriftInPolicies(ps: seq<PolicySpec>, live: seq<PolicySpec>)
    ensures forall c :: c in PolicyChanges(ps, live) ==> c.kind != Drift
  {
    if ps != [] {
      NoDriftInPolicies(ps[..|ps| - 1], live);
    }
  }

  /** Drift names exactly the live policies and tokens that are absent locally; it never names a cap. */
  lemma DriftExact(local: ConfigDoc, live: ConfigDoc, r: Resource, n: string)
    ensures Change(Drift, r, n) in PlanOf(local, live) <==>
      match r
      case Policy => (exists p :: p in live.policies && p.name == n) && (forall p :: p in local.policies ==> p.name != n)
      case Token => (exists t :: t in live.tokens && t.name == n) && (forall t :: t in local.tokens ==> t.name != n)
      case SpendCap => false
  {
    NoDriftInPolicies(local.policies, live.policies);
    NoDriftInTokens(local.tokens, live.tokens);
    PolicyDriftIsDrift(live.policies, local.policies);
    TokenDriftIsDrift(live.tokens, local.tokens);
    var c := Change(Drift, r, n);
    assert c in PlanOf(local, live) <==>
        c in PolicyDrift(live.policies, local.policies) || c in TokenDrift(live.tokens, local.tokens);
  }

  // ------------------------------------------------------------------
  // Exactly which entries a plan has
  // ------------------------------------------------------------------

  /** What the plan says of one local policy. */
  ghost predicate PolicyEntry(p: PolicySpec, live: seq<PolicySpec>, c: Change) {
    && c.resource == Policy && c.name == p.name
    && match FindPolicy(live, p.name)
       case None => c.kind == Create
       case Some(l) =>
         c.kind == Update && (p.mode != l.mode || p.phase != l.phase || p.rules != l.rules || p.retry != l.retry)
  }

  /** What it says of one local token, apart from its caps. */
  ghost predicate TokenEntry(t: TokenSpec, live: seq<TokenSpec>, c: Change) {
    && c.resource == Token && c.name == t.name
    && match FindToken(live, t.name)
       case None => c.kind == Create
       case Some(l) =>
         && c.kind == Update
         && (t.upstreamUrl != l.upstreamUrl || multiset(t.policies) != multiset(l.policies) || t.logLevel != l.logLevel)
  }

  /** What it says of one local cap, given the caps of the live token. */
  ghost predicate CapEntry(token: string, cap: Cap, live: seq<Cap>, c: Change) {
    && c.resource == SpendCap && c.name == token + ":" + cap.period
    && match LimitOf(live, cap.period)
       case None => c.kind == Create
       case Some(l) => c.kind == Update && (cap.limit - l > 0.001 || l - cap.limit > 0.001)
  }

  function CapsOf(live: seq<TokenSpec>, name: string): seq<Cap> {
    match FindToken(live, name) case Some(l) => l.spendCaps case None => []
  }

  ghost predicate SomeCapEntry(t: TokenSpec, live: seq<Cap>, c: Change) {
    exists cap :: cap in t.spendCaps && CapEntry(t.name, cap, live, c)
  }

  lemma {:induction false} CapChangesMember(token: string, caps: seq<Cap>, live: seq<Cap>, c: Change)
    ensures c in CapChanges(token, caps, live) <==> exists cap :: cap in caps && CapEntry(token, cap, live, c)
  {
    if caps != [] {
      var front, last := caps[..|caps| - 1], caps[|caps| - 1];
      CapChangesMember(token, front, live, c);
      assert forall cap :: cap in caps <==> cap in front || cap == last;
      CapChangesSnoc(token, front, last, live, c);
      assert caps == front + [last];
    }
  }

  lemma CapChangesSnoc(token: string, front: seq<Cap>, last: Cap, live: seq<Cap>, c: Change)
    ensures c in CapChanges(token, front + [last], live) <==> c in CapChanges(token, front, live) || CapEntry(token, last, live, c)
  {
    assert (front + [last])[..|front|] == front;
  }

  lemma TokenChangeMember(t: TokenSpec, live: seq<TokenSpec>, c: Change)
    ensures c in TokenChange(t, live) <==> TokenEntry(t, live, c) || SomeCapEntry(t, CapsOf(live, t.name), c)
  {
    CapChangesMember(t.name, t.spendCaps, CapsOf(live, t.name), c);
    match FindToken(live, t.name)
    case Some(l) => SortComparesBags(t.policies, l.policies);
    case None =>
  }

  ghost predicate SomeTokenEntry(ts: seq<TokenSpec>, live: seq<TokenSpec>, c: Change) {
    exists t :: t in ts && (TokenEntry(t, live, c) || SomeCapEntry(t, CapsOf(live, t.name), c))
  }

  lemma {:induction false} TokenChangesMember(ts: seq<TokenSpec>, live: seq<TokenSpec>, c: Change)
    ensures c in TokenChanges(ts, live) <==> SomeTokenEntry(ts, live, c)
  {
    if ts != [] {
      var front, last := ts[..|ts| - 1], ts[|ts| - 1];
      TokenChangesMember(front, live, c);
      TokenChangeMember(last, live, c);
      assert forall t :: t in ts <==> t in front || t == last;
    }
  }

  ghost predicate SomePolicyEntry(ps: seq<PolicySpec>, live: seq<PolicySpec>, c: Change) {
    exists p :: p in ps && PolicyEntry(p, live, c)
  }

  lemma {:induction false} PolicyChangesMember(ps: seq<PolicySpec>, live: seq<PolicySpec>, c: Change)
    ensures c in PolicyChanges(ps, live) <==> SomePolicyEntry(ps, live, c)
  {
    if ps != [] {
      var front, last := ps[..|ps| - 1], ps[|ps| - 1];
      PolicyChangesMember(front, live, c);
      assert forall p :: p in ps <==> p in front || p == last;
      assert c in PolicyChange(last, live) <==> PolicyEntry(last, live, c);
    }
  }

  /**
   The creations and updates of a plan, entry by entry: a policy, token or cap
   is created when the live side has none, updated when the live one differs (a
   token's policies as a bag, a cap by more than the tolerance), and not
   mentioned otherwise.
   */
  lemma PlanExactly(local: ConfigDoc, live: ConfigDoc, c: Change)
    requires c.kind != Drift
    ensures c in PlanOf(local, live) <==>
      match c.resource
      case Policy => exists p :: p in local.policies && PolicyEntry(p, live.policies, c)
      case Token => exists t :: t in local.tokens && TokenEntry(t, live.tokens, c)
      case SpendCap =>
        exists t, cap ::
          t in local.tokens && cap in t.spendCaps && CapEntry(t.name, cap, CapsOf(live.tokens, t.name), c)
  {
    PolicyChangesMember(local.policies, live.policies, c);
    TokenChangesMember(local.tokens, live.tokens, c);
    PolicyDriftIsDrift(live.policies, local.policies);
    TokenDriftIsDrift(live.tokens, local.tokens);
    assert c in PlanOf(local, live) <==>
        SomePolicyEntry(local.policies, live.policies, c) || SomeTokenEntry(local.tokens, live.tokens, c);
    if SomeTokenEntry(local.tokens, live.tokens, c) {
      var t :| t in local.tokens && (TokenEntry(t, live.tokens, c) || SomeCapEntry(t, CapsOf(live.tokens, t.name), c));
      if c.resource == SpendCap {
        var cap :| cap in t.spendCaps && CapEntry(t.name, cap, CapsOf(live.tokens, t.name), c);
      }
    }
    if c.resource == SpendCap {
      forall t, cap | t in local.tokens && cap in t.spendCaps && CapEntry(t.name, cap, CapsOf(live.tokens, t.name), c)
        ensures SomeTokenEntry(local.tokens, live.tokens, c)
      {
        assert SomeCapEntry(t, CapsOf(live.tokens, t.name), c);
      }
    }
  }

  /** With distinct names, finding a policy under its own name is being among the live ones. */
  lemma {:induction false} FindUniquePolicy(live: seq<PolicySpec>, p: PolicySpec)
    requires UniquePolicies(live)
    ensures FindPolicy(live, p.name) == Some(p) <==> p in live
  {
    if live != [] {
      FindUniquePolicy(live[..|live| - 1], p);
      assert p in live <==> p in live[..|live| - 1] || p == live[|live| - 1];
    }
  }

  lemma {:induction false} FindUniqueToken(ts: seq<TokenSpec>, i: nat)
    requires UniqueTokens(ts) && i < |ts|
    ensures FindToken(ts, ts[i].name) == Some(ts[i]) == FirstToken(ts, ts[i].name)
  {
    if i < |ts| - 1 {
      var front := ts[..|ts| - 1];
      FindLast(front, i);
    } else {
      assert ts[i] == ts[|ts| - 1];
    }
    FindFirst(ts, i);
  }

  lemma {:induction false} FindLast(ts: seq<TokenSpec>, i: nat)
    requires UniqueTokens(ts) && i < |ts|
    ensures FindToken(ts, ts[i].name) == Some(ts[i])
  {
    if i < |ts| - 1 {
      FindLast(ts[..|ts| - 1], i);
    }
  }

  lemma {:induction false} FindFirst(ts: seq<TokenSpec>, i: nat)
    requires UniqueTokens(ts) && i < |ts|
    ensures FirstToken(ts, ts[i].name) == Some(ts[i])
  {
    if i > 0 {
      FindFirst(ts[1..], i - 1);
    }
  }

  // ------------------------------------------------------------------
  // Applying spend caps
  // ------------------------------------------------------------------

  function SetLimit(caps: seq<Cap>, period: string, limit: real): seq<Cap> {
    if caps == [] then [Cap(period, limit)]
    else if caps[0].period == period then [Cap(period, limit)] + caps[1..]
    else [caps[0]] + SetLimit(caps[1..], period, limit)
  }

  /** The server's upsert, addressed by token name. */
  function UpsertCap(ts: seq<TokenSpec>, name: string, period: string, limit: real): (r: seq<TokenSpec>)
    ensures |r| == |ts|
  {
    seq(|ts|, i requires 0 <= i < |ts| =>
      if ts[i].name == name then ts[i].(spendCaps := SetLimit(ts[i].spendCaps, period, limit)) else ts[i])
  }

  /** The caps of one local token, sent where the live ones are missing or out of tolerance. */
  function ApplyCaps(ts: seq<TokenSpec>, name: string, caps: seq<Cap>, live: seq<Cap>): (r: seq<TokenSpec>)
    ensures |r| == |ts|
  {
    if caps == [] then ts
    else
      var before, c := ApplyCaps(ts, name, caps[..|caps| - 1], live), caps[|caps| - 1];
      if NeedsUpdate(c.limit, LimitOf(live, c.period)) then UpsertCap(before, name, c.period, c.limit) else before
  }

  function LiveCaps(refreshed: seq<TokenSpec>, name: string): seq<Cap> {
    match FirstToken(refreshed, name) case Some(t) => t.spendCaps case None => []
  }

  function ApplyTokens(refreshed: seq<TokenSpec>, local: seq<TokenSpec>): (r: seq<TokenSpec>)
    ensures |r| == |refreshed|
  {
    if local == [] then refreshed
    else
      var t := local[|local| - 1];
      ApplyCaps(ApplyTokens(refreshed, local[..|local| - 1]), t.name, t.spendCaps, LiveCaps(refreshed, t.name))
  }

  method ApplyTokenCaps(ts: seq<TokenSpec>, token: TokenSpec, liveCaps: seq<Cap>) returns (live: seq<TokenSpec>)
    ensures live == ApplyCaps(ts, token.name, token.spendCaps, liveCaps)
  {
    live := ts;
    var caps := token.spendCaps;
    for j := 0 to |caps|
      invariant live == ApplyCaps(ts, token.name, caps[..j], liveCaps)
    {
      assert caps[..j + 1][..j] == caps[..j];
      if NeedsUpdate(caps[j].limit, LimitOf(liveCaps, caps[j].period)) {
        live := UpsertCap(live, token.name, caps[j].period, caps[j].limit);
      }
    }
    assert caps[..|caps|] == caps;
  }

  method ApplyToken(refreshed: seq<TokenSpec>, ts: seq<TokenSpec>, token: TokenSpec)
    returns (ok: bool, live: seq<TokenSpec>)
    ensures ok <==> Addressable(refreshed, token)
    ensures ok ==> live == ApplyCaps(ts, token.name, token.spendCaps, LiveCaps(refreshed, token.name))
  {
    ok, live := true, ts;
    if token.spendCaps != [] {
      if FirstToken(refreshed, token.name).None? {
        FirstCapFails(token);
        return false, ts;
      }
      live := ApplyTokenCaps(ts, token, LiveCaps(refreshed, token.name));
    }
  }

  /** The apply loop over spend caps; sending one fails when the token does not exist. */
  method ApplySpendCaps(local: seq<TokenSpec>, refreshed: seq<TokenSpec>) returns (r: Result<seq<TokenSpec>, string>)
    ensures r.Ok? ==> r.value == ApplyTokens(refreshed, local)
    ensures r.Ok? <==> forall t :: t in local ==> Addressable(refreshed, t)
  {
    var live := refreshed;
    for i := 0 to |local|
      invariant live == ApplyTokens(refreshed, local[..i])
      invariant forall k :: 0 <= k < i ==> Addressable(refreshed, local[k])
    {
      assert local[..i + 1][..i] == local[..i];
      var ok;
      ok, live := ApplyToken(refreshed, live, local[i]);
      if !ok {
        return Err(local[i].name);
      }
    }
    assert local[..|local|] == local;
    return Ok(live);
  }

  /** Resolving the id of the token works, or is never needed. */
  predicate Addressable(refreshed: seq<TokenSpec>, t: TokenSpec) {
    t.spendCaps != [] ==> FirstToken(refreshed, t.name).Some?
  }

  /** Without live caps the first one needs an update, and resolving the token's id fails. */
  lemma FirstCapFails(t: TokenSpec)
    requires t.spendCaps != []
    ensures NeedsUpdate(t.spendCaps[0].limit, LimitOf([], t.spendCaps[0].period))
  {
  }

  // ------------------------------------------------------------------
  // Convergence
  // ------------------------------------------------------------------

  lemma {:induction false} LimitAfterSet(caps: seq<Cap>, period: string, limit: real, q: string)
    ensures LimitOf(SetLimit(caps, period, limit), q) == if q == period then Some(limit) else LimitOf(caps, q)
  {
    if caps != [] && caps[0].period != period {
      LimitAfterSet(caps[1..], period, limit, q);
    }
  }

  /** The caps of a live token after its local caps have been applied. */
  function Applied(caps: seq<Cap>, local: seq<Cap>, live: seq<Cap>): seq<Cap> {
    if local == [] then caps
    else
      var before, c := Applied(caps, local[..|local| - 1], live), local[|local| - 1];
      if NeedsUpdate(c.limit, LimitOf(live, c.period)) then SetLimit(before, c.period, c.limit) else before
  }

  lemma {:induction false} ApplyCapsAt(ts: seq<TokenSpec>, name: string, caps: seq<Cap>, live: seq<Cap>, i: nat)
    requires i < |ts|
    ensures ApplyCaps(ts, name, caps, live)[i]
         == if ts[i].name == name then ts[i].(spendCaps := Applied(ts[i].spendCaps, caps, live)) else ts[i]
  {
    if caps != [] {
      ApplyCapsAt(ts, name, caps[..|caps| - 1], live, i);
    }
  }

  lemma {:induction false} ApplyTokensAt(refreshed: seq<TokenSpec>, local: seq<TokenSpec>, i: nat)
    requires i < |refreshed| && UniqueTokens(refreshed) && UniqueTokens(local)
    ensures ApplyTokens(refreshed, local)[i]
         == match FindToken(local, refreshed[i].name)
            case None => refreshed[i]
            case Some(t) =>
              refreshed[i].(spendCaps := Applied(refreshed[i].spendCaps, t.spendCaps, refreshed[i].spendCaps))
  {
    if local != [] {
      var front, t := local[..|local| - 1], local[|local| - 1];
      ApplyTokensAt(refreshed, front, i);
      FindUniqueToken(refreshed, i);
      ApplyCapsAt(ApplyTokens(refreshed, front), t.name, t.spendCaps, LiveCaps(refreshed, t.name), i);
    }
  }

  lemma {:induction false} AppliedLimit(caps: seq<Cap>, local: seq<Cap>, live: seq<Cap>, q: string)
    requires UniquePeriods(local)
    ensures (forall c :: c in local ==> c.period != q) ==> LimitOf(Applied(caps, local, live), q) == LimitOf(caps, q)
    ensures forall c | c in local && c.period == q ::
      LimitOf(Applied(caps, local, live), q)
      == if NeedsUpdate(c.limit, LimitOf(live, q)) then Some(c.limit) else LimitOf(caps, q)
  {
    if local != [] {
      var front, last := local[..|local| - 1], local[|local| - 1];
      AppliedLimit(caps, front, live, q);
      LimitAfterSet(Applied(caps, front, live), last.period, last.limit, q);
      assert forall c :: c in local <==> c in front || c == last;
      assert forall c :: c in front ==> c.period != last.period;
    }
  }

  lemma AppliedIsInSync(local: seq<Cap>, live: seq<Cap>)
    requires UniquePeriods(local)
    ensures CapsInSync(local, Applied(live, local, live))
  {
    forall i | 0 <= i < |local|
      ensures CapInSync(local[i], Applied(live, local, live))
    {
      AppliedLimit(live, local, live, local[i].period);
      assert local[i] in local;
    }
  }

  /** What the import of policies and tokens has to achieve; the spend caps it leaves behind may be anything. */
  ghost predicate Imported(local: ConfigDoc, live: ConfigDoc) {
    && UniqueTokens(live.tokens)
    && (forall i :: 0 <= i < |local.policies| ==> FindPolicy(live.policies, local.policies[i].name) == Some(local.policies[i]))
    && (forall i :: 0 <= i < |local.tokens| ==> ImportedToken(local.tokens[i], live.tokens))
  }

  ghost predicate ImportedToken(t: TokenSpec, live: seq<TokenSpec>) {
    match FindToken(live, t.name)
    case None => false
    case Some(l) =>
      t.upstreamUrl == l.upstreamUrl && multiset(t.policies) == multiset(l.policies) && t.logLevel == l.logLevel
  }

  /** After the import and the apply loop the plan has nothing left to do, though caps within tolerance were not sent. */
  lemma ApplyConverges(local: ConfigDoc, live: ConfigDoc)
    requires Imported(local, live)
    requires UniqueTokens(local.tokens) && forall t :: t in local.tokens ==> UniquePeriods(t.spendCaps)
    ensures IsEmpty(PlanOf(local, live.(tokens := ApplyTokens(live.tokens, local.tokens))))
  {
    var final := live.(tokens := ApplyTokens(live.tokens, local.tokens));
    forall i: nat | i < |local.tokens|
      ensures TokenInSync(local.tokens[i], final.tokens)
    {
      AppliedToken(local, live, i);
    }
    EmptyPlanMeansInSync(local, final);
  }

  /** Every cap then stands on the live side within a tenth of a cent of what the document says. */
  lemma AppliedCapsWithinTolerance(local: ConfigDoc, live: ConfigDoc, t: TokenSpec, cap: Cap)
    requires Imported(local, live) && UniqueTokens(local.tokens)
    requires t in local.tokens && cap in t.spendCaps && UniquePeriods(t.spendCaps)
    ensures var l := FindToken(ApplyTokens(live.tokens, local.tokens), t.name);
      && l.Some? && LimitOf(l.value.spendCaps, cap.period).Some?
      && cap.limit - 0.001 <= LimitOf(l.value.spendCaps, cap.period).value <= cap.limit + 0.001
  {
    var i :| 0 <= i < |local.tokens| && local.tokens[i] == t;
    AppliedToken(local, live, i);
    var j :| 0 <= j < |t.spendCaps| && t.spendCaps[j] == cap;
    assert CapInSync(t.spendCaps[j], FindToken(ApplyTokens(live.tokens, local.tokens), t.name).value.spendCaps);
  }

  lemma AppliedToken(local: ConfigDoc, live: ConfigDoc, i: nat)
    requires Imported(local, live) && i < |local.tokens|
    requires UniqueTokens(local.tokens) && UniquePeriods(local.tokens[i].spendCaps)
    ensures TokenInSync(local.tokens[i], ApplyTokens(live.tokens, local.tokens))
  {
    var t := local.tokens[i];
    assert ImportedToken(t, live.tokens);
    var l := FindToken(live.tokens, t.name).value;
    var k :| 0 <= k < |live.tokens| && live.tokens[k] == l;
    var after := ApplyTokens(live.tokens, local.tokens);
    forall j: nat | j < |after|
      ensures after[j].name == live.tokens[j].name
    {
      ApplyTokensAt(live.tokens, local.tokens, j);
    }
    ApplyTokensAt(live.tokens, local.tokens, k);
    FindUniqueToken(local.tokens, i);
    FindUniqueToken(after, k);
    AppliedIsInSync(t.spendCaps, l.spendCaps);
  }

  /** A cap within tolerance keeps its live value. */
  lemma WithinToleranceUntouched(local: seq<Cap>, live: seq<Cap>, c: Cap)
    requires UniquePeriods(local) && c in local && CapInSync(c, live)
    ensures LimitOf(Applied(live, local, live), c.period) == LimitOf(live, c.period)
  {
    InSyncNeedsNothing(c, live);
    AppliedLimit(live, local, live, c.period);
  }
}
