/**
 The MCP registry: a map of connected servers and a name index beside it.
 Operations are sequential here. What a server answers during the handshake or
 a refresh is a parameter.
 */
module Registry {
  import opened Options
  import opened Selection
  import opened ToolNames

  type Id = nat

  datatype Status = Connected | Disconnected | Faulty(message: string)

  datatype Server = Server(project: nat, name: string, tools: seq<string>, status: Status)

  type Servers = map<Id, Server>

  type Index = map<string, Id>

  datatype RouteError = NotFound | NotConnected

  // ------------------------------------------------------------------
  // Operations on values
  // ------------------------------------------------------------------

  /** The ids the index knows for the requested names, in order. */
  function Resolve(index: Index, names: seq<string>): seq<Id> {
    FilterMap(names, Finder(index))
  }

  function Finder(index: Index): string -> Option<Id> {
    (name: string) => if name in index then Some(index[name]) else None
  }

  function ToolsOf(server: Server): seq<string> {
    seq(|server.tools|, i requires 0 <= i < |server.tools| => Namespaced(server.name, server.tools[i]))
  }

  /** The tools published for these servers: those of connected ones, in order. */
  function Offered(servers: Servers, ids: seq<Id>): seq<string> {
    if ids == [] then []
    else
      (if ids[0] in servers && servers[ids[0]].status == Connected then ToolsOf(servers[ids[0]]) else [])
      + Offered(servers, ids[1..])
  }

  /** Which server executes a call, if any. */
  function Route(servers: Servers, index: Index, name: string, project: nat): Result<Id, RouteError> {
    if name !in index || index[name] !in servers || servers[index[name]].project != project then Err(NotFound)
    else if servers[index[name]].status != Connected then Err(NotConnected)
    else Ok(index[name])
  }

  datatype Op =
    | Register(id: Id, server: Server)
    | Unregister(id: Id)
    | Refresh(id: Id, listing: Result<seq<string>, string>)

  datatype State = State(servers: Servers, index: Index)

  function Step(s: State, op: Op): State {
    match op
    case Register(id, server) => State(s.servers[id := server], s.index[server.name := id])
    case Unregister(id) =>
      if id in s.servers then State(s.servers - {id}, s.index - {s.servers[id].name}) else s
    case Refresh(id, listing) =>
      if id !in s.servers then s
      else match listing
        case Ok(tools) => s.(servers := s.servers[id := s.servers[id].(tools := tools, status := Connected)])
        case Err(e) => s.(servers := s.servers[id := s.servers[id].(status := Faulty(e))])
  }

  // ------------------------------------------------------------------
  // The registry object
  // ------------------------------------------------------------------

  class McpRegistry {
    var servers: Servers
    var nameIndex: Index

    constructor ()
      ensures servers == map[] && nameIndex == map[]
    {
      servers, nameIndex := map[], map[];
    }

    /** `register_with_client`: nothing changes unless the handshake lists tools. */
    method RegisterServer(id: Id, project: nat, name: string, handshake: Result<seq<string>, string>)
      returns (r: Result<seq<string>, string>)
      modifies this
      ensures r == handshake
      ensures State(servers, nameIndex)
           == match handshake
              case Ok(tools) =>
                Step(State(old(servers), old(nameIndex)), Register(id, Server(project, name, tools, Connected)))
              case Err(_) => State(old(servers), old(nameIndex))
    {
      r := handshake;
      if handshake.Ok? {
        servers := servers[id := Server(project, name, handshake.value, Connected)];
        nameIndex := nameIndex[name := id];
      }
    }

    /** `register_from_persisted`: the tools come from the database, the connection later. */
    method RegisterFromPersisted(id: Id, project: nat, name: string, cachedTools: Option<seq<string>>)
      modifies this
      ensures State(servers, nameIndex)
           == Step(State(old(servers), old(nameIndex)),
                   Register(id, Server(project, name, if cachedTools.Some? then cachedTools.value else [], Disconnected)))
    {
      var tools := if cachedTools.Some? then cachedTools.value else [];
      servers := servers[id := Server(project, name, tools, Disconnected)];
      nameIndex := nameIndex[name := id];
    }

    method UnregisterServer(id: Id) returns (removed: bool)
      modifies this
      ensures removed <==> id in old(servers)
      ensures State(servers, nameIndex) == Step(State(old(servers), old(nameIndex)), Unregister(id))
    {
      if id in servers {
        var state := servers[id];
        servers := servers - {id};
        nameIndex := nameIndex - {state.name};
        return true;
      }
      return false;
    }

    method RefreshServer(id: Id, listing: Result<seq<string>, string>)
      modifies this
      ensures State(servers, nameIndex) == Step(State(old(servers), old(nameIndex)), Refresh(id, listing))
    {
      if id !in servers {
        return;
      }
      match listing
      case Ok(tools) =>
        servers := servers[id := servers[id].(tools := tools, status := Connected)];
      case Err(e) =>
        servers := servers[id := servers[id].(status := Faulty(e))];
    }

    /** `get_openai_tools`: the published names of the tools. */
    method GetOpenAiTools(ids: seq<Id>) returns (tools: seq<string>)
      ensures tools == Offered(servers, ids)
    {
      tools := [];
      assert ids[0..] == ids;
      for i := 0 to |ids|
        invariant tools + Offered(servers, ids[i..]) == Offered(servers, ids)
      {
        OfferedStep(servers, ids, i, tools);
        if ids[i] in servers && servers[ids[i]].status == Connected {
          var added := PublishTools(servers[ids[i]]);
          tools := tools + added;
        }
      }
    }

    method PublishTools(state: Server) returns (added: seq<string>)
      ensures added == ToolsOf(state)
    {
      added := [];
      for j := 0 to |state.tools|
        invariant added == ToolsOf(state)[..j]
      {
        added := added + [Namespaced(state.name, state.tools[j])];
      }
    }

    method GetOpenAiToolsByName(names: seq<string>) returns (tools: seq<string>)
      ensures tools == Offered(servers, Resolve(nameIndex, names))
    {
      var ids := Resolve(nameIndex, names);
      tools := GetOpenAiTools(ids);
    }

    /** `execute_tool`: the server whose client is called. */
    method ExecuteTool(name: string, project: nat) returns (r: Result<Id, RouteError>)
      ensures r == Route(servers, nameIndex, name, project)
    {
      if name !in nameIndex {
        return Err(NotFound);
      }
      var id := nameIndex[name];
      if id !in servers {
        return Err(NotFound);
      }
      if servers[id].project != project {
        return Err(NotFound);
      }
      if servers[id].status != Connected {
        return Err(NotConnected);
      }
      return Ok(id);
    }
  }

  /** The next server's offer, put behind what has been offered so far. */
  lemma OfferedStep(servers: Servers, ids: seq<Id>, i: nat, tools: seq<string>)
    requires i < |ids|
    ensures var offer :=
        if ids[i] in servers && servers[ids[i]].status == Connected then ToolsOf(servers[ids[i]]) else [];
      tools + Offered(servers, ids[i..]) == tools + offer + Offered(servers, ids[i + 1..])
  {
    assert ids[i..][1..] == ids[i + 1..];
  }

  // ------------------------------------------------------------------
  // The index
  // ------------------------------------------------------------------

  /** Each index entry points to a live server of that name. */
  ghost predicate IndexSound(s: State) {
    forall n | n in s.index :: s.index[n] in s.servers && s.servers[s.index[n]].name == n
  }

  /** The index leads to this server. */
  ghost predicate Reachable(s: State, id: Id) {
    id in s.servers && s.servers[id].name in s.index && s.index[s.servers[id].name] == id
  }

  /** Registering keeps the index sound exactly when it does not rename a reachable server. */
  lemma RegisterKeepsIndex(s: State, id: Id, server: Server)
    requires IndexSound(s)
    ensures IndexSound(Step(s, Register(id, server))) <==> (Reachable(s, id) ==> s.servers[id].name == server.name)
  {
    var t := Step(s, Register(id, server));
    if Reachable(s, id) && s.servers[id].name != server.name {
      assert s.servers[id].name in t.index;
    }
  }

  /** Unregistering keeps the index sound, and hides every other server of the same name, reachable or not. */
  lemma UnregisterEffect(s: State, id: Id, other: Id)
    requires IndexSound(s) && id in s.servers && other != id
    ensures var t := Step(s, Unregister(id));
      && IndexSound(t)
      && (Reachable(t, other) <==> Reachable(s, other) && s.servers[other].name != s.servers[id].name)
  {
  }

  /** Registering under a name hides the server that had it. */
  lemma RegisterEffect(s: State, id: Id, server: Server, other: Id)
    requires other != id
    ensures var t := Step(s, Register(id, server));
      && Reachable(t, id)
      && (Reachable(t, other) <==> Reachable(s, other) && s.servers[other].name != server.name)
  {
  }

  ghost function Run(ops: seq<Op>): State {
    if ops == [] then State(map[], map[]) else Step(Run(ops[..|ops| - 1]), ops[|ops| - 1])
  }

  /** Every registration uses an id that is not in use. */
  ghost predicate FreshIds(ops: seq<Op>) {
    forall i :: 0 <= i < |ops| && ops[i].Register? ==> ops[i].id !in Run(ops[..i]).servers
  }

  /** Every registration uses a name that no live server has. */
  ghost predicate FreshNames(ops: seq<Op>) {
    forall i, id :: 0 <= i < |ops| && ops[i].Register? && id in Run(ops[..i]).servers ==>
      Run(ops[..i]).servers[id].name != ops[i].server.name
  }

  /** The index is sound after any history with fresh ids; with fresh names it reaches every live server. */
  lemma {:induction false} IndexOfHistory(ops: seq<Op>)
    requires FreshIds(ops)
    ensures IndexSound(Run(ops))
    ensures FreshNames(ops) ==> forall id | id in Run(ops).servers :: Reachable(Run(ops), id)
  {
    if ops != [] {
      var front, op := ops[..|ops| - 1], ops[|ops| - 1];
      assert forall i :: 0 <= i < |front| ==> front[i] == ops[i] && front[..i] == ops[..i];
      IndexOfHistory(front);
      var s := Run(front);
      match op
      case Register(id, server) => RegisterKeepsIndex(s, id, server);
      case Unregister(_) =>
      case Refresh(_, _) =>
    }
  }

  /** The operation takes the name away from whichever server had it: a registration under it, or the end of a server of that name. */
  ghost predicate Takes(ops: seq<Op>, j: nat, name: string)
    requires j < |ops|
  {
    match ops[j]
    case Register(_, server) => server.name == name
    case Unregister(id) => id in Run(ops[..j]).servers && Run(ops[..j]).servers[id].name == name
    case Refresh(_, _) => false
  }

  /** Operation `i` registered this server under this name, and it has been live ever since. */
  ghost predicate LiveSince(ops: seq<Op>, i: nat, id: Id, name: string) {
    && i < |ops| && ops[i].Register? && ops[i].id == id && ops[i].server.name == name
    && forall j: nat | i < j <= |ops| :: LiveAfter(ops, j, id)
  }

  ghost predicate LiveAfter(ops: seq<Op>, j: nat, id: Id)
    requires j <= |ops|
  {
    id in Run(ops[..j]).servers
  }

  ghost predicate NameTaken(ops: seq<Op>, i: nat, name: string) {
    exists j: nat :: i < j < |ops| && Takes(ops, j, name)
  }

  lemma TakesPrefix(ops: seq<Op>, n: nat, j: nat, name: string)
    requires j < n <= |ops|
    ensures Takes(ops[..n], j, name) <==> Takes(ops, j, name)
  {
    assert ops[..n][..j] == ops[..j];
  }

  lemma NameTakenSnoc(ops: seq<Op>, i: nat, name: string)
    requires i + 1 < |ops|
    ensures NameTaken(ops, i, name) <==> NameTaken(ops[..|ops| - 1], i, name) || Takes(ops, |ops| - 1, name)
  {
    var n := |ops| - 1;
    forall j: nat | j < n
      ensures Takes(ops[..n], j, name) <==> Takes(ops, j, name)
    {
      TakesPrefix(ops, n, j, name);
    }
    if NameTaken(ops, i, name) {
      var j: nat :| i < j < |ops| && Takes(ops, j, name);
      assert j < n ==> Takes(ops[..n], j, name);
    }
    if NameTaken(ops[..n], i, name) {
      var j: nat :| i < j < n && Takes(ops[..n], j, name);
      assert Takes(ops, j, name);
    }
  }

  lemma FreshPrefix(ops: seq<Op>)
    requires ops != [] && FreshIds(ops)
    ensures FreshIds(ops[..|ops| - 1])
    ensures ops[|ops| - 1].Register? ==> ops[|ops| - 1].id !in Run(ops[..|ops| - 1]).servers
  {
    var front := ops[..|ops| - 1];
    assert forall i :: 0 <= i < |front| ==> front[i] == ops[i] && front[..i] == ops[..i];
  }

  lemma LivePrefix(ops: seq<Op>, i: nat, id: Id, name: string)
    requires i + 1 < |ops|
    ensures LiveSince(ops, i, id, name) <==> LiveSince(ops[..|ops| - 1], i, id, name) && id in Run(ops).servers
  {
    var front := ops[..|ops| - 1];
    assert ops[..|ops|] == ops;
    forall j: nat | j < |ops|
      ensures LiveAfter(front, j, id) <==> LiveAfter(ops, j, id)
    {
      assert front[..j] == ops[..j];
    }
    assert LiveAfter(ops, |ops|, id) <==> id in Run(ops).servers;
  }

  /**
   Over any history with fresh ids, a live server can be reached by its name
   exactly when no later operation took the name.
   */
  lemma {:induction false} ReachableExactly(ops: seq<Op>, i: nat, id: Id, name: string)
    requires FreshIds(ops) && LiveSince(ops, i, id, name)
    ensures id in Run(ops).servers && Run(ops).servers[id].name == name
    ensures Reachable(Run(ops), id) <==> !NameTaken(ops, i, name)
    decreases |ops|
  {
    assert ops[..|ops|] == ops;
    if i < |ops| - 1 {
      FreshPrefix(ops);
      LivePrefix(ops, i, id, name);
      ReachableExactly(ops[..|ops| - 1], i, id, name);
      IndexOfHistory(ops[..|ops| - 1]);
      NameTakenSnoc(ops, i, name);
      LastStep(ops, id, name);
    }
  }

  lemma LastStep(ops: seq<Op>, id: Id, name: string)
    requires ops != [] && id in Run(ops).servers
    requires ops[|ops| - 1].Register? ==> ops[|ops| - 1].id !in Run(ops[..|ops| - 1]).servers
    requires var front := ops[..|ops| - 1];
      IndexSound(Run(front)) && id in Run(front).servers && Run(front).servers[id].name == name
    ensures Run(ops).servers[id].name == name
    ensures Reachable(Run(ops), id) <==> Reachable(Run(ops[..|ops| - 1]), id) && !Takes(ops, |ops| - 1, name)
  {
    var s, op := Run(ops[..|ops| - 1]), ops[|ops| - 1];
    match op
    case Register(other, server) => RegisterEffect(s, other, server, id);
    case Unregister(other) =>
      if other in s.servers {
        UnregisterEffect(s, other, id);
      }
    case Refresh(_, _) =>
  }

  /** Every live server has been so since some registration: the condition applies to each of them. */
  lemma {:induction false} LiveSinceSome(ops: seq<Op>, id: Id) returns (i: nat)
    requires FreshIds(ops) && id in Run(ops).servers
    ensures LiveSince(ops, i, id, Run(ops).servers[id].name)
    decreases |ops|
  {
    var front := ops[..|ops| - 1];
    FreshPrefix(ops);
    if id in Run(front).servers {
      i := LiveSinceSome(front, id);
      LivePrefix(ops, i, id, Run(front).servers[id].name);
    } else {
      i := |ops| - 1;
      assert ops[..|ops|] == ops;
    }
  }

  // ------------------------------------------------------------------
  // From the offer back to the server
  // ------------------------------------------------------------------

  lemma {:induction false} OfferedBy(servers: Servers, ids: seq<Id>, k: nat) returns (id: Id, j: nat)
    requires k < |Offered(servers, ids)|
    ensures id in ids && id in servers && servers[id].status == Connected
    ensures j < |servers[id].tools| && Offered(servers, ids)[k] == Namespaced(servers[id].name, servers[id].tools[j])
  {
    var here := if ids[0] in servers && servers[ids[0]].status == Connected then ToolsOf(servers[ids[0]]) else [];
    if k < |here| {
      id, j := ids[0], k;
    } else {
      id, j := OfferedBy(servers, ids[1..], k - |here|);
    }
  }

  /** And conversely: every tool of every connected server that was asked for is offered. */
  lemma {:induction false} AllOffered(servers: Servers, ids: seq<Id>, id: Id, tool: string)
    requires id in ids && id in servers && servers[id].status == Connected && tool in servers[id].tools
    ensures Namespaced(servers[id].name, tool) in Offered(servers, ids)
  {
    if ids[0] == id {
      var j :| 0 <= j < |servers[id].tools| && servers[id].tools[j] == tool;
      assert ToolsOf(servers[id])[j] in Offered(servers, ids);
    } else {
      AllOffered(servers, ids[1..], id, tool);
    }
  }

  lemma ResolvedBy(index: Index, names: seq<string>, id: Id) returns (name: string)
    requires id in Resolve(index, names)
    ensures name in names && name in index && index[name] == id
  {
    FilterMapMember(names, Finder(index), id);
    name :| name in names && Finder(index)(name) == Some(id);
  }

  /** Every requested name that the index knows is resolved, and no other, in the order of the request. */
  lemma ResolvedExactly(index: Index, names: seq<string>) returns (places: seq<nat>)
    ensures |places| == |Resolve(index, names)|
    ensures forall i, j :: 0 <= i < j < |places| ==> places[i] < places[j]
    ensures forall i :: 0 <= i < |places| ==>
      && places[i] < |names| && names[places[i]] in index
      && Resolve(index, names)[i] == index[names[places[i]]]
    ensures forall j :: 0 <= j < |names| ==> (j in places <==> names[j] in index)
  {
    places := FilterMapPicks(names, Finder(index));
  }

  /** The offer is that of each server in turn. */
  lemma {:induction false} OfferedInOrder(servers: Servers, a: seq<Id>, b: seq<Id>)
    ensures Offered(servers, a + b) == Offered(servers, a) + Offered(servers, b)
  {
    if a == [] {
      assert a + b == b;
    } else {
      assert (a + b)[1..] == a[1..] + b;
      OfferedInOrder(servers, a[1..], b);
    }
  }

  /** What one server offers: all its tools in order while it is connected, and nothing otherwise. */
  lemma OfferedOfOne(servers: Servers, id: Id)
    ensures var offer := Offered(servers, [id]);
      if id in servers && servers[id].status == Connected then
        && |offer| == |servers[id].tools|
        && forall i :: 0 <= i < |offer| ==> offer[i] == "mcp__" + servers[id].name + "__" + servers[id].tools[i]
      else
        offer == []
  {
    assert [id][1..] == [];
  }

  /** A registered server offers its tools at once if it is connected; a call of its project then reaches it. */
  lemma RegisteredIsServed(s: State, id: Id, server: Server)
    ensures var t := Step(s, Register(id, server));
      && id in t.servers && t.servers[id] == server
      && (server.status == Connected ==> Route(t.servers, t.index, server.name, server.project) == Ok(id))
      && forall other | other != id ::
           && (other in t.servers <==> other in s.servers)
           && (other in s.servers ==> t.servers[other] == s.servers[other])
  {
  }

  /**
   A refresh that lists tools replaces the tools and connects the server; one
   that fails leaves the tools, withdraws the offer and refuses calls. Nothing
   else changes.
   */
  lemma RefreshEffect(s: State, id: Id, listing: Result<seq<string>, string>)
    requires id in s.servers
    ensures var t, server := Step(s, Refresh(id, listing)), s.servers[id];
      && t.index == s.index && t.servers.Keys == s.servers.Keys
      && (forall other | other in s.servers && other != id :: t.servers[other] == s.servers[other])
      && t.servers[id].project == server.project && t.servers[id].name == server.name
      && (listing.Ok? ==> t.servers[id].tools == listing.value && t.servers[id].status == Connected)
      && (listing.Err? ==> t.servers[id].tools == server.tools && Offered(t.servers, [id]) == [])
      && (Reachable(s, id) ==>
            Route(t.servers, t.index, server.name, server.project) == if listing.Ok? then Ok(id) else Err(NotConnected))
  {
    OfferedOfOne(Step(s, Refresh(id, listing)).servers, id);
  }

  /**
   Every tool offered by name belongs to a live server of a requested name.
   Its published name parses back to that server and tool, exactly when the
   server's name is readable and the tool has a name; and a call for the
   server's own project is then routed to that very server.
   */
  lemma OfferRoutesBack(s: State, names: seq<string>, k: nat) returns (id: Id, tool: string)
    requires IndexSound(s)
    requires k < |Offered(s.servers, Resolve(s.index, names))|
    ensures id in s.servers && s.servers[id].name in names && tool in s.servers[id].tools
    ensures var published := Offered(s.servers, Resolve(s.index, names))[k];
      var name := s.servers[id].name;
      && published == Namespaced(name, tool)
      && (ParseToolName(published) == Some((name, tool)) <==> Readable(name) && tool != "")
      && Route(s.servers, s.index, name, s.servers[id].project) == Ok(id)
  {
    var ids := Resolve(s.index, names);
    var j;
    id, j := OfferedBy(s.servers, ids, k);
    tool := s.servers[id].tools[j];
    var name := ResolvedBy(s.index, names, id);
    RoundTrip(s.servers[id].name, tool);
  }

  /** Nothing is executed for another project, on a server that is down, or on one that is not registered under the name. */
  lemma RouteExact(s: State, name: string, project: nat, id: Id)
    requires IndexSound(s)
    ensures Route(s.servers, s.index, name, project) == Ok(id)
       <==> && Reachable(s, id) && s.servers[id].name == name
            && s.servers[id].project == project && s.servers[id].status == Connected
  {
  }

  /** A call that is not executed is refused as down exactly when the server is the right one and not connected. */
  lemma RouteErrors(s: State, name: string, project: nat)
    requires IndexSound(s)
    ensures Route(s.servers, s.index, name, project) == Err(NotConnected)
       <==> exists id :: IsDown(s, id, name, project)
  {
    if Route(s.servers, s.index, name, project) == Err(NotConnected) {
      assert IsDown(s, s.index[name], name, project);
    }
  }

  ghost predicate IsDown(s: State, id: Id, name: string, project: nat) {
    && Reachable(s, id) && s.servers[id].name == name
    && s.servers[id].project == project && s.servers[id].status != Connected
  }
}
