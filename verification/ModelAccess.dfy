/** Which models a token may call: a list of glob patterns from the token and from its groups. */
module ModelAccess {
  import opened Options
  import opened Json
  import opened Glob

  datatype Denied = Denied(model: string, patterns: seq<string>)

  /** The strings of a JSON array; other elements are skipped. */
  function Strings(elems: seq<Json>): seq<string> {
    if elems == [] then []
    else
      var last := elems[|elems| - 1].AsString();
      Strings(elems[..|elems| - 1]) + if last.Some? then [last.value] else []
  }

  /** Both sources of patterns; a value that is not an array contributes none. */
  function PatternsOf(allowedModels: Option<Json>, groupModels: seq<string>): seq<string> {
    (if allowedModels.Some? && allowedModels.value.Array? then Strings(allowedModels.value.elems) else []) + groupModels
  }

  /** A pattern comes from the groups, or is a string in the token's own list. */
  ghost predicate Configured(p: string, allowedModels: Option<Json>, groupModels: seq<string>) {
    || p in groupModels
    || (allowedModels.Some? && allowedModels.value.Array? && Json.String(p) in allowedModels.value.elems)
  }

  lemma {:induction false} StringsMember(elems: seq<Json>, p: string)
    ensures p in Strings(elems) <==> Json.String(p) in elems
  {
    if elems != [] {
      var front, last := elems[..|elems| - 1], elems[|elems| - 1];
      StringsMember(front, p);
      assert Json.String(p) in elems <==> Json.String(p) in front || Json.String(p) == last;
    }
  }

  /** The patterns are those of either source, the token's own before those of its groups. */
  lemma PatternsExactly(allowedModels: Option<Json>, groupModels: seq<string>)
    ensures forall p :: p in PatternsOf(allowedModels, groupModels) <==> Configured(p, allowedModels, groupModels)
    ensures |groupModels| <= |PatternsOf(allowedModels, groupModels)|
    ensures var own := |PatternsOf(allowedModels, groupModels)| - |groupModels|;
      PatternsOf(allowedModels, groupModels)[own..] == groupModels
  {
    forall p
      ensures p in PatternsOf(allowedModels, groupModels) <==> Configured(p, allowedModels, groupModels)
    {
      if allowedModels.Some? && allowedModels.value.Array? {
        StringsMember(allowedModels.value.elems, p);
      }
    }
  }

  method CollectStrings(arr: seq<Json>) returns (patterns: seq<string>)
    ensures patterns == Strings(arr)
  {
    patterns := [];
    for i := 0 to |arr|
      invariant patterns == Strings(arr[..i])
    {
      assert arr[..i + 1][..i] == arr[..i];
      var s := arr[i].AsString();
      if s.Some? {
        patterns := patterns + [s.value];
      }
    }
    assert arr[..|arr|] == arr;
  }

  /** `check_model_access`: allowed when nothing is asked, nothing is configured, or some pattern fits. */
  method CheckModelAccess(model: string, allowedModels: Option<Json>, groupModels: seq<string>)
    returns (r: Result<(), Denied>)
    ensures var patterns := PatternsOf(allowedModels, groupModels);
      && (r.Ok? <==> model == "" || patterns == [] || exists p :: p in patterns && SplitFits(p, model))
      && (r.Err? ==> r.error == Denied(model, patterns))
    ensures r.Ok? <==>
      || model == ""
      || (forall p :: !Configured(p, allowedModels, groupModels))
      || exists p :: Configured(p, allowedModels, groupModels) && SplitFits(p, model)
  {
    PatternsExactly(allowedModels, groupModels);
    if model == "" {
      return Ok(());
    }
    var patterns: seq<string> := [];
    if allowedModels.Some? && allowedModels.value.Array? {
      patterns := CollectStrings(allowedModels.value.elems);
    }
    patterns := patterns + groupModels;
    if patterns == [] {
      return Ok(());
    }
    assert Configured(patterns[0], allowedModels, groupModels);
    var allowed := AnyMatches(model, patterns);
    return if allowed then Ok(()) else Err(Denied(model, patterns));
  }

  method AnyMatches(model: string, patterns: seq<string>) returns (r: bool)
    ensures r <==> exists p :: p in patterns && SplitFits(p, model)
  {
    for i := 0 to |patterns|
      invariant forall p :: p in patterns[..i] ==> !SplitFits(p, model)
    {
      var matches := ModelMatches(model, patterns[i]);
      if matches {
        return true;
      }
      assert forall p :: p in patterns[..i + 1] <==> p in patterns[..i] || p == patterns[i];
    }
    assert patterns[..|patterns|] == patterns;
    return false;
  }

  /**
   The two places that restrict models agree on every list of `?`-free
   patterns, as long as the model's name is within the cut-off of each.
   */
  lemma EnforcementsAgree(patterns: seq<string>, model: string)
    requires forall p :: p in patterns ==> '?' !in p && |model| + Stars(p) <= MAX_DEPTH
    ensures (exists p :: p in patterns && SplitFits(p, model)) <==> (exists p :: p in patterns && GlobMatch(p, model))
  {
    forall p | p in patterns
      ensures SplitFits(p, model) <==> GlobMatch(p, model)
    {
      MatchersAgree(p, model);
    }
  }
}
