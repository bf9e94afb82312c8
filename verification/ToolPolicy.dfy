/**
 MCP tool calls in a model's response: extracted, checked against the token's
 allow and block lists, and routed.
 */
module ToolPolicy {
  import opened Options
  import opened Json
  import opened Glob
  import opened Selection
  import opened ToolNames
  import Registry

  /** A pattern admits a name literally or as a glob. */
  predicate Matches(pattern: string, name: string) {
    pattern == name || EngineGlob(pattern, name).0
  }

  /** Denied by any block pattern; allowed by no list, or by some pattern of the list. */
  predicate Permitted(name: string, allowed: Option<seq<string>>, blocked: Option<seq<string>>) {
    && !(blocked.Some? && exists p :: p in blocked.value && Matches(p, name))
    && (allowed.None? || exists p :: p in allowed.value && Matches(p, name))
  }

  method AnyMatches(patterns: seq<string>, name: string) returns (r: bool)
    ensures r <==> exists p :: p in patterns && Matches(p, name)
  {
    for i := 0 to |patterns|
      invariant forall j :: 0 <= j < i ==> !Matches(patterns[j], name)
    {
      var fits, _ := GlobMatchIterative(patterns[i], name);
      if patterns[i] == name || fits {
        assert Matches(patterns[i], name);
        return true;
      }
    }
    return false;
  }

  /** `is_tool_permitted`. */
  method IsToolPermitted(name: string, allowed: Option<seq<string>>, blocked: Option<seq<string>>) returns (r: bool)
    ensures r <==> Permitted(name, allowed, blocked)
  {
    if blocked.Some? {
      var hit := AnyMatches(blocked.value, name);
      if hit {
        return false;
      }
    }
    match allowed
    case None => return true;
    case Some(patterns) =>
      if patterns == [] {
        return false;
      }
      r := AnyMatches(patterns, name);
  }

  /** For lists and names of ordinary length, matching is fitting; only slash-star admits more. */
  lemma MatchesMeaning(pattern: string, name: string)
    requires IterationBound(pattern, name) <= GLOB_MAX_ITERATIONS
    ensures Matches(pattern, name) <==> pattern == "/*" || Fits(pattern, name)
  {
    EngineGlobExact(pattern, name);
    SelfFits(pattern);
  }

  // ------------------------------------------------------------------
  // Offering and calling
  // ------------------------------------------------------------------

  predicate Keeps(name: string, allowed: Option<seq<string>>, blocked: Option<seq<string>>) {
    ParseToolName(name).None? || Permitted(name, allowed, blocked)
  }

  function Keeper(allowed: Option<seq<string>>, blocked: Option<seq<string>>): string -> Option<string> {
    (n: string) => if Keeps(n, allowed, blocked) then Some(n) else None
  }

  /** The tools of a request that `filter_openai_tools` keeps. */
  function KeptTools(names: seq<string>, allowed: Option<seq<string>>, blocked: Option<seq<string>>): seq<string> {
    FilterMap(names, Keeper(allowed, blocked))
  }

  /** The filter keeps exactly the tools that are not MCP tools or are permitted, and their order. */
  lemma KeptExactly(names: seq<string>, allowed: Option<seq<string>>, blocked: Option<seq<string>>)
    returns (places: seq<nat>)
    ensures |places| == |KeptTools(names, allowed, blocked)|
    ensures forall i, j :: 0 <= i < j < |places| ==> places[i] < places[j]
    ensures forall i :: 0 <= i < |places| ==>
      places[i] < |names| && KeptTools(names, allowed, blocked)[i] == names[places[i]]
    ensures forall j :: 0 <= j < |names| ==> (j in places <==> Keeps(names[j], allowed, blocked))
  {
    places := FilterMapPicks(names, Keeper(allowed, blocked));
  }

  lemma KeptMember(names: seq<string>, name: string, allowed: Option<seq<string>>, blocked: Option<seq<string>>)
    ensures name in KeptTools(names, allowed, blocked) <==> name in names && Keeps(name, allowed, blocked)
  {
    FilterMapMember(names, Keeper(allowed, blocked), name);
  }

  method FilterOpenAiTools(names: seq<string>, allowed: Option<seq<string>>, blocked: Option<seq<string>>)
    returns (kept: seq<string>)
    ensures kept == KeptTools(names, allowed, blocked)
  {
    kept := [];
    for i := 0 to |names|
      invariant kept == KeptTools(names[..i], allowed, blocked)
    {
      assert names[..i + 1][..i] == names[..i];
      var keep := ParseToolName(names[i]).None?;
      if !keep {
        keep := IsToolPermitted(names[i], allowed, blocked);
      }
      if keep {
        kept := kept + [names[i]];
      }
    }
    assert names[..|names|] == names;
  }

  datatype Call = Call(id: string, server: string, tool: string, arguments: Option<Json>)

  /** The name that the call check tests besides the published one, with a single underscore. */
  function ShortName(c: Call): string {
    MCP_TOOL_PREFIX + c.server + "_" + c.tool
  }

  predicate CallPermitted(c: Call, allowed: Option<seq<string>>, blocked: Option<seq<string>>) {
    Permitted(Namespaced(c.server, c.tool), allowed, blocked) && Permitted(ShortName(c), allowed, blocked)
  }

  function Sieve(allowed: Option<seq<string>>, blocked: Option<seq<string>>, want: bool): Call -> Option<Call> {
    (c: Call) => if CallPermitted(c, allowed, blocked) == want then Some(c) else None
  }

  function Select(calls: seq<Call>, allowed: Option<seq<string>>, blocked: Option<seq<string>>, want: bool): seq<Call> {
    FilterMap(calls, Sieve(allowed, blocked, want))
  }

  /** `filter_mcp_tool_calls`: every call goes to one side, in order. */
  method FilterMcpToolCalls(calls: seq<Call>, allowed: Option<seq<string>>, blocked: Option<seq<string>>)
    returns (permitted: seq<Call>, denied: seq<Call>)
    ensures permitted == Select(calls, allowed, blocked, true)
    ensures denied == Select(calls, allowed, blocked, false)
  {
    permitted, denied := [], [];
    for i := 0 to |calls|
      invariant permitted == Select(calls[..i], allowed, blocked, true)
      invariant denied == Select(calls[..i], allowed, blocked, false)
    {
      assert calls[..i + 1][..i] == calls[..i];
      var c := calls[i];
      var canonical := IsToolPermitted(Namespaced(c.server, c.tool), allowed, blocked);
      var short := false;
      if canonical {
        short := IsToolPermitted(ShortName(c), allowed, blocked);
      }
      if canonical && short {
        permitted := permitted + [c];
      } else {
        denied := denied + [c];
      }
    }
    assert calls[..|calls|] == calls;
  }

  lemma {:induction false} SelectPartitions(calls: seq<Call>, allowed: Option<seq<string>>, blocked: Option<seq<string>>)
    ensures multiset(calls) == multiset(Select(calls, allowed, blocked, true)) + multiset(Select(calls, allowed, blocked, false))
  {
    if calls != [] {
      var front, c := calls[..|calls| - 1], calls[|calls| - 1];
      SelectPartitions(front, allowed, blocked);
      assert calls == front + [c];
      SelectSnoc(front, c, allowed, blocked, true);
      SelectSnoc(front, c, allowed, blocked, false);
    }
  }

  lemma SelectSnoc(calls: seq<Call>, c: Call, allowed: Option<seq<string>>, blocked: Option<seq<string>>, want: bool)
    ensures Select(calls + [c], allowed, blocked, want)
         == Select(calls, allowed, blocked, want) + if CallPermitted(c, allowed, blocked) == want then [c] else []
  {
    assert (calls + [c])[..|calls|] == calls;
  }

  /** Each side has exactly its calls, in the order in which they came. */
  lemma SelectExactly(calls: seq<Call>, allowed: Option<seq<string>>, blocked: Option<seq<string>>, want: bool)
    returns (places: seq<nat>)
    ensures |places| == |Select(calls, allowed, blocked, want)|
    ensures forall i, j :: 0 <= i < j < |places| ==> places[i] < places[j]
    ensures forall i :: 0 <= i < |places| ==>
      places[i] < |calls| && Select(calls, allowed, blocked, want)[i] == calls[places[i]]
    ensures forall j :: 0 <= j < |calls| ==> (j in places <==> CallPermitted(calls[j], allowed, blocked) == want)
  {
    places := FilterMapPicks(calls, Sieve(allowed, blocked, want));
  }

  // ------------------------------------------------------------------
  // Extraction from a response
  // ------------------------------------------------------------------

  function StringAt(v: Option<Json>): string {
    if v.Some? && v.value.String? then v.value.s else ""
  }

  function ArrayAt(v: Option<Json>): seq<Json> {
    if v.Some? && v.value.Array? then v.value.elems else []
  }

  function Member(v: Option<Json>, key: string): Option<Json> {
    if v.Some? then v.value.Get(key) else None
  }

  function FunctionName(tc: Json): string {
    StringAt(Member(tc.Get("function"), "name"))
  }

  /** One entry of `tool_calls`; `parse` reads the arguments. */
  function CallOf(tc: Json, parse: string -> Option<Json>): Option<Call> {
    match ParseToolName(FunctionName(tc))
    case None => None
    case Some((server, tool)) =>
      var arguments := Member(tc.Get("function"), "arguments");
      Some(Call(StringAt(tc.Get("id")), server, tool,
                if arguments.Some? && arguments.value.String? then parse(arguments.value.s) else None))
  }

  function Caller(parse: string -> Option<Json>): Json -> Option<Call> {
    (tc: Json) => CallOf(tc, parse)
  }

  function CallsIn(toolCalls: seq<Json>, parse: string -> Option<Json>): seq<Call> {
    FilterMap(toolCalls, Caller(parse))
  }

  function ToolCallsOf(choice: Json): seq<Json> {
    ArrayAt(Member(choice.Get("message"), "tool_calls"))
  }

  /** The tool calls of all choices, in order. */
  function AllToolCalls(choices: seq<Json>): seq<Json> {
    if choices == [] then []
    else AllToolCalls(choices[..|choices| - 1]) + ToolCallsOf(choices[|choices| - 1])
  }

  function CallsInResponse(response: Json, parse: string -> Option<Json>): seq<Call> {
    CallsIn(AllToolCalls(ArrayAt(response.Get("choices"))), parse)
  }

  /** `extract_mcp_tool_calls`. */
  method ExtractMcpToolCalls(response: Json, parse: string -> Option<Json>) returns (calls: seq<Call>)
    ensures calls == CallsInResponse(response, parse)
  {
    calls := [];
    var choices := ArrayAt(response.Get("choices"));
    for i := 0 to |choices|
      invariant calls == CallsIn(AllToolCalls(choices[..i]), parse)
    {
      assert choices[..i + 1][..i] == choices[..i];
      var found := CallsOfChoice(choices[i], parse);
      FilterMapConcat(AllToolCalls(choices[..i]), ToolCallsOf(choices[i]), Caller(parse));
      calls := calls + found;
    }
    assert choices[..|choices|] == choices;
  }

  method CallsOfChoice(choice: Json, parse: string -> Option<Json>) returns (calls: seq<Call>)
    ensures calls == CallsIn(ToolCallsOf(choice), parse)
  {
    calls := [];
    var toolCalls := ToolCallsOf(choice);
    for j := 0 to |toolCalls|
      invariant calls == CallsIn(toolCalls[..j], parse)
    {
      assert toolCalls[..j + 1][..j] == toolCalls[..j];
      var call := CallOf(toolCalls[j], parse);
      if call.Some? {
        calls := calls + [call.value];
      }
    }
    assert toolCalls[..|toolCalls|] == toolCalls;
  }

  /** The extracted call tells what its entry says: its id, the server and tool of its name, and its parsed arguments. */
  ghost predicate Describes(c: Call, tc: Json, parse: string -> Option<Json>) {
    && c.id == (match tc.Get("id") case Some(String(id)) => id case _ => "")
    && tc.Get("function").Some?
    && tc.Get("function").value.Get("name") == Some(Json.String("mcp__" + c.server + "__" + c.tool))
    && c.arguments == (match tc.Get("function").value.Get("arguments") case Some(String(a)) => parse(a) case _ => None)
  }

  lemma CallDescribes(tc: Json, parse: string -> Option<Json>)
    ensures CallOf(tc, parse).Some? ==> Describes(CallOf(tc, parse).value, tc, parse)
  {
    if CallOf(tc, parse).Some? {
      ParsePrints(FunctionName(tc));
      assert FunctionName(tc) != "";
    }
  }

  /** Extraction finds exactly the tool calls with an MCP name, in the order of the response. */
  lemma ExtractedExactly(response: Json, parse: string -> Option<Json>) returns (places: seq<nat>)
    ensures var toolCalls, calls := AllToolCalls(ArrayAt(response.Get("choices"))), CallsInResponse(response, parse);
      && |places| == |calls|
      && (forall i, j :: 0 <= i < j < |places| ==> places[i] < places[j])
      && (forall i :: 0 <= i < |places| ==>
            places[i] < |toolCalls| && Describes(calls[i], toolCalls[places[i]], parse))
      && (forall j :: 0 <= j < |toolCalls| ==>
            (j in places <==> ParseToolName(FunctionName(toolCalls[j])).Some?))
  {
    var toolCalls, calls := AllToolCalls(ArrayAt(response.Get("choices"))), CallsInResponse(response, parse);
    places := FilterMapPicks(toolCalls, Caller(parse));
    forall i | 0 <= i < |places|
      ensures Describes(calls[i], toolCalls[places[i]], parse)
    {
      assert Caller(parse)(toolCalls[places[i]]) == Some(calls[i]);
      CallDescribes(toolCalls[places[i]], parse);
    }
  }

  lemma {:induction false} ToolCallOfChoice(choices: seq<Json>, tc: Json)
    ensures tc in AllToolCalls(choices) <==> exists choice :: choice in choices && tc in ToolCallsOf(choice)
  {
    if choices != [] {
      var front, last := choices[..|choices| - 1], choices[|choices| - 1];
      ToolCallOfChoice(front, tc);
      assert forall c :: c in choices <==> c in front || c == last;
    }
  }

  /** The tool calls of a response are those of its choices one after the other. */
  lemma {:induction false} ToolCallsInOrder(a: seq<Json>, b: seq<Json>, choice: Json)
    ensures AllToolCalls(a + b) == AllToolCalls(a) + AllToolCalls(b)
    ensures AllToolCalls([choice]) == match choice.Get("message")
      case None => []
      case Some(message) => (match message.Get("tool_calls") case Some(Array(toolCalls)) => toolCalls case _ => [])
  {
    assert [choice][..0] == [] && AllToolCalls([choice][..0]) == [];
    if b == [] {
      assert a + b == a;
    } else {
      assert (a + b)[..|a + b| - 1] == a + b[..|b| - 1];
      ToolCallsInOrder(a, b[..|b| - 1], choice);
    }
  }

  /** A call extracted from any choice of the response. */
  lemma ExtractedMember(response: Json, choice: Json, tc: Json, parse: string -> Option<Json>)
    requires choice in ArrayAt(response.Get("choices")) && tc in ToolCallsOf(choice) && CallOf(tc, parse).Some?
    ensures CallOf(tc, parse).value in CallsInResponse(response, parse)
  {
    var choices := ArrayAt(response.Get("choices"));
    ToolCallOfChoice(choices, tc);
    FilterMapMember(AllToolCalls(choices), Caller(parse), CallOf(tc, parse).value);
  }

  /** Every permitted call of a response carries a published name, and no offer that had this name would have lost it. */
  lemma PermittedCallWasOfferable(response: Json, parse: string -> Option<Json>, c: Call, names: seq<string>,
                                  allowed: Option<seq<string>>, blocked: Option<seq<string>>)
    requires c in Select(CallsInResponse(response, parse), allowed, blocked, true)
    ensures var name := Namespaced(c.server, c.tool);
      && (exists tc :: tc in AllToolCalls(ArrayAt(response.Get("choices"))) && FunctionName(tc) == name)
      && (name in names ==> name in KeptTools(names, allowed, blocked))
  {
    var toolCalls := AllToolCalls(ArrayAt(response.Get("choices")));
    FilterMapMember(CallsInResponse(response, parse), Sieve(allowed, blocked, true), c);
    FilterMapMember(toolCalls, Caller(parse), c);
    var tc :| tc in toolCalls && CallOf(tc, parse) == Some(c);
    ParsePrints(FunctionName(tc));
    KeptMember(names, FunctionName(tc), allowed, blocked);
  }

  // ------------------------------------------------------------------
  // Offered, and yet not permitted
  // ------------------------------------------------------------------

  /** What a pattern admits, within the iteration limit. */
  ghost predicate Admits(pattern: string, name: string) {
    pattern == "/*" || Fits(pattern, name)
  }

  ghost predicate SomeAdmits(patterns: seq<string>, name: string) {
    exists p :: p in patterns && Admits(p, name)
  }

  ghost predicate Ordinary(patterns: seq<string>, name: string) {
    forall p :: p in patterns ==> IterationBound(p, name) <= GLOB_MAX_ITERATIONS
  }

  lemma AnyMeaning(patterns: seq<string>, name: string)
    requires Ordinary(patterns, name)
    ensures (exists p :: p in patterns && Matches(p, name)) <==> SomeAdmits(patterns, name)
  {
    forall p | p in patterns
      ensures Matches(p, name) <==> Admits(p, name)
    {
      MatchesMeaning(p, name);
    }
    if exists p :: p in patterns && Matches(p, name) {
      var p :| p in patterns && Matches(p, name);
      assert Admits(p, name);
    }
    if SomeAdmits(patterns, name) {
      var p :| p in patterns && Admits(p, name);
      assert Matches(p, name);
    }
  }

  /** What the lists admit: nothing that a block pattern admits and, given an allow list, only what some pattern of it does. */
  ghost predicate ListsAdmit(name: string, allowed: Option<seq<string>>, blocked: Option<seq<string>>) {
    && (blocked.Some? ==> !SomeAdmits(blocked.value, name))
    && (allowed.Some? ==> SomeAdmits(allowed.value, name))
  }

  ghost predicate OrdinaryLists(name: string, allowed: Option<seq<string>>, blocked: Option<seq<string>>) {
    (allowed.Some? ==> Ordinary(allowed.value, name)) && (blocked.Some? ==> Ordinary(blocked.value, name))
  }

  lemma PermittedExactly(name: string, allowed: Option<seq<string>>, blocked: Option<seq<string>>)
    requires OrdinaryLists(name, allowed, blocked)
    ensures Permitted(name, allowed, blocked) <==> ListsAdmit(name, allowed, blocked)
  {
    if allowed.Some? {
      AnyMeaning(allowed.value, name);
    }
    if blocked.Some? {
      AnyMeaning(blocked.value, name);
    }
  }

  /**
   What `filter_openai_tools` offers: exactly the names that are not those of
   MCP tools, and those MCP names that the lists admit, in their order. Every
   other name is withheld.
   */
  lemma OfferedExactly(names: seq<string>, allowed: Option<seq<string>>, blocked: Option<seq<string>>)
    returns (places: seq<nat>)
    requires forall n :: n in names ==> OrdinaryLists(n, allowed, blocked)
    ensures |places| == |KeptTools(names, allowed, blocked)|
    ensures forall i, j :: 0 <= i < j < |places| ==> places[i] < places[j]
    ensures forall i :: 0 <= i < |places| ==>
      places[i] < |names| && KeptTools(names, allowed, blocked)[i] == names[places[i]]
    ensures forall j :: 0 <= j < |names| ==>
      (j in places <==> ParseToolName(names[j]).None? || ListsAdmit(names[j], allowed, blocked))
  {
    places := KeptExactly(names, allowed, blocked);
    forall j | 0 <= j < |names|
      ensures Keeps(names[j], allowed, blocked)
         <==> ParseToolName(names[j]).None? || ListsAdmit(names[j], allowed, blocked)
    {
      PermittedExactly(names[j], allowed, blocked);
    }
  }

  /** A blocked tool is withheld from every offer, whatever else is listed. */
  lemma BlockedIsWithheld(names: seq<string>, server: string, tool: string, allowed: Option<seq<string>>)
    requires Readable(server) && tool != ""
    ensures var name := Namespaced(server, tool);
      name !in KeptTools(names, allowed, Some([name]))
  {
    var name := Namespaced(server, tool);
    RoundTrip(server, tool);
    assert name in [name] && Matches(name, name);
    KeptMember(names, name, allowed, Some([name]));
  }

  /**
   The offer tests the published name alone, the call both names: a call is
   permitted exactly when no block pattern admits either and, if there is an
   allow list, some pattern admits the published name and some pattern, not
   always the same, the one with a single underscore.
   */
  lemma CallPermittedExactly(c: Call, allowed: Option<seq<string>>, blocked: Option<seq<string>>)
    requires OrdinaryLists("mcp__" + c.server + "__" + c.tool, allowed, blocked)
    requires OrdinaryLists("mcp__" + c.server + "_" + c.tool, allowed, blocked)
    ensures CallPermitted(c, allowed, blocked) <==>
      && ListsAdmit("mcp__" + c.server + "__" + c.tool, allowed, blocked)
      && ListsAdmit("mcp__" + c.server + "_" + c.tool, allowed, blocked)
  {
    PermittedExactly(Namespaced(c.server, c.tool), allowed, blocked);
    PermittedExactly(ShortName(c), allowed, blocked);
  }

  predicate Literal(s: string) {
    '*' !in s && '?' !in s
  }

  lemma {:induction false} LiteralPrefixFits(prefix: string, t: string)
    requires Literal(prefix)
    ensures Fits(prefix + "*", t) <==> prefix <= t
  {
    var p := prefix + "*";
    if prefix == "" {
      assert p[1..] == "" && t[|t|..] == "";
      assert FitsAt(p[1..], t, |t|);
    } else {
      assert p[0] == prefix[0] && p[1..] == prefix[1..] + "*";
      if t != "" {
        LiteralPrefixFits(prefix[1..], t[1..]);
        assert prefix == [prefix[0]] + prefix[1..] && t == [t[0]] + t[1..];
      }
    }
  }

  lemma {:induction false} LiteralFitsItself(p: string, t: string)
    requires Literal(p)
    ensures Fits(p, t) <==> p == t
  {
    if p != "" && t != "" {
      LiteralFitsItself(p[1..], t[1..]);
      assert p == [p[0]] + p[1..] && t == [t[0]] + t[1..];
    }
  }

  /** `mcp__server__*`, the pattern that the documentation gives as its example. */
  function ServerPattern(server: string): string {
    Namespaced(server, "*")
  }

  /**
   A list with the documented pattern for a server keeps each of its tools in
   every offer, and then permits exactly the calls of tools whose own name
   begins with an underscore.
   */
  lemma ServerPatternDeniesCalls(c: Call, names: seq<string>)
    requires Literal(c.server) && c.tool != ""
    requires IterationBound(ServerPattern(c.server), Namespaced(c.server, c.tool)) <= GLOB_MAX_ITERATIONS
    ensures var name, list := Namespaced(c.server, c.tool), Some([ServerPattern(c.server)]);
      && (name in names ==> name in KeptTools(names, list, None))
      && (CallPermitted(c, list, None) <==> c.tool[0] == '_')
  {
    var name, short, pattern := Namespaced(c.server, c.tool), ShortName(c), ServerPattern(c.server);
    var stem := MCP_TOOL_PREFIX + c.server + "_";
    assert name == stem + "_" + c.tool && short == stem + c.tool && pattern == stem + "_" + "*";
    StemFits(stem, c.tool);
    ShorterBound(pattern, name, short);
    assert pattern in [pattern] && pattern[0] == 'm';
    CallPermittedExactly(c, Some([pattern]), None);
    MatchesMeaning(pattern, name);
    KeptMember(names, name, Some([pattern]), None);
  }

  lemma StemFits(stem: string, tool: string)
    requires Literal(stem) && tool != ""
    ensures Fits(stem + "_" + "*", stem + "_" + tool)
    ensures Fits(stem + "_" + "*", stem + tool) <==> tool[0] == '_'
  {
    var prefix := stem + "_";
    UnderscoreAfter(stem, tool);
    assert prefix <= prefix + tool;
    LiteralPrefixFits(prefix, prefix + tool);
    LiteralPrefixFits(prefix, stem + tool);
  }

  lemma UnderscoreAfter(stem: string, tool: string)
    requires tool != ""
    ensures stem + "_" <= stem + tool <==> tool[0] == '_'
  {
    var a, b := stem + "_", stem + tool;
    assert a[|stem|] == '_' && b[|stem|] == tool[0];
    assert forall i :: 0 <= i < |stem| ==> a[i] == b[i];
  }

  lemma ShorterBound(p: string, name: string, short: string)
    requires |short| <= |name| && IterationBound(p, name) <= GLOB_MAX_ITERATIONS
    ensures IterationBound(p, short) <= GLOB_MAX_ITERATIONS
  {
    MulMono(|short| + 1, |name| + 1, |p| + 1);
  }

  /** A list of patterns without wildcards permits a call exactly when it has both of its names. */
  lemma LiteralListExactly(c: Call, patterns: seq<string>)
    requires forall p :: p in patterns ==> Literal(p)
    ensures CallPermitted(c, Some(patterns), None) <==> Namespaced(c.server, c.tool) in patterns && ShortName(c) in patterns
  {
    forall p, name | p in patterns
      ensures Matches(p, name) <==> p == name
    {
      EngineGlobExact(p, name);
      LiteralFitsItself(p, name);
    }
  }

  /** So a list that names one tool, by its published name, offers it and then denies every call of it. */
  lemma ExactAllowListDeniesItsTool(c: Call, names: seq<string>)
    requires '*' !in Namespaced(c.server, c.tool)
    ensures var name := Namespaced(c.server, c.tool);
      && (name in names ==> name in KeptTools(names, Some([name]), None))
      && !CallPermitted(c, Some([name]), None)
  {
    var name := Namespaced(c.server, c.tool);
    assert Matches(name, name) && name in [name];
    KeptMember(names, name, Some([name]), None);
    assert |ShortName(c)| < |name|;
    LiteralFits(name, ShortName(c));
    EngineGlobExact(name, ShortName(c));
    assert name[0] == 'm';
  }

  lemma {:induction false} LiteralFits(p: string, t: string)
    requires '*' !in p
    ensures Fits(p, t) ==> |p| == |t|
  {
    if p != "" && t != "" {
      LiteralFits(p[1..], t[1..]);
    }
  }

  // ------------------------------------------------------------------
  // From the offer to the server
  // ------------------------------------------------------------------

  /**
   A tool call, in any choice of a response, whose name was offered under a
   readable server name is extracted with that server and tool, and is routed,
   for the server's project, to the server that offered it.
   */
  lemma OfferedCallReachesItsServer(s: Registry.State, names: seq<string>, k: nat,
                                    response: Json, choice: Json, tc: Json, parse: string -> Option<Json>)
    returns (id: Registry.Id, tool: string)
    requires Registry.IndexSound(s)
    requires k < |Registry.Offered(s.servers, Registry.Resolve(s.index, names))|
    requires choice in ArrayAt(response.Get("choices")) && tc in ToolCallsOf(choice)
    requires FunctionName(tc) == Registry.Offered(s.servers, Registry.Resolve(s.index, names))[k]
    ensures id in s.servers && s.servers[id].name in names && tool in s.servers[id].tools
    ensures Readable(s.servers[id].name) && tool != "" ==>
      && CallOf(tc, parse).Some? && CallOf(tc, parse).value in CallsInResponse(response, parse)
      && CallOf(tc, parse).value.server == s.servers[id].name && CallOf(tc, parse).value.tool == tool
      && Registry.Route(s.servers, s.index, s.servers[id].name, s.servers[id].project) == Ok(id)
  {
    id, tool := Registry.OfferRoutesBack(s, names, k);
    if Readable(s.servers[id].name) && tool != "" {
      ExtractedMember(response, choice, tc, parse);
    }
  }
}
