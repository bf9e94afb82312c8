/**
 Setting, removing and reading a JSON field by a dotted path: the transforms
 of policy actions against the extractor of policy conditions.

 The Rust code changes a uniquely owned tree in place; here each operation
 returns the changed tree.
 */
module JsonPath {
  import opened Options
  import opened Text
  import opened Json
  import opened Selection

  // ------------------------------------------------------------------
  // Writing
  // ------------------------------------------------------------------

  /** `set_body_field_by_path`: `splitn(2, '.')` at each level. */
  function SetByPath(body: Json, path: string, value: Json): Json
    decreases |path|
  {
    var i := IndexOf(path, '.');
    if i == |path| then
      if body.Object? then Object(body.fields[path := value]) else body
    else if body.Object? then
      var key := path[..i];
      var child := if key in body.fields then body.fields[key] else Object(map[]);
      Object(body.fields[key := SetByPath(child, path[i + 1..], value)])
    else
      body
  }

  /** `remove_body_field_by_path`. */
  function RemoveByPath(body: Json, path: string): Json
    decreases |path|
  {
    var i := IndexOf(path, '.');
    if i == |path| then
      if body.Object? then Object(body.fields - {path}) else body
    else if body.Object? && path[..i] in body.fields then
      Object(body.fields[path[..i] := RemoveByPath(body.fields[path[..i]], path[i + 1..])])
    else
      body
  }

  // ------------------------------------------------------------------
  // Reading
  // ------------------------------------------------------------------

  /** A segment such as `field[0]`: the field and what stands in the brackets. */
  datatype Access = Plain | Indexed(field: string, index: string) | Misordered

  /** `parse_array_access`; a closing bracket before the opening one makes the slice panic. */
  function ParseArrayAccess(seg: string): Access {
    var open, close := IndexOf(seg, '['), IndexOf(seg, ']');
    if open == |seg| || close == |seg| then Plain
    else if close < open + 1 then Misordered
    else Indexed(seg[..open], seg[open + 1..close])
  }

  function Digits(s: string): Option<nat> {
    if s == "" then Some(0)
    else
      var rest := Digits(s[..|s| - 1]);
      if rest.Some? && '0' <= s[|s| - 1] <= '9' then Some(rest.value * 10 + (s[|s| - 1] as int - '0' as int)) else None
  }

  /** `str::parse::<usize>`: decimal digits, a plus sign allowed in front. */
  function ParseIndex(s: string): Option<nat> {
    var digits := if s != "" && s[0] == '+' then s[1..] else s;
    if digits == "" then None else Digits(digits)
  }

  datatype Reading = Found(value: Json) | Missing | Panic

  /** `extract_segments`. */
  function Extract(value: Json, segs: seq<string>): Reading
    decreases |segs|, 1
  {
    if segs == [] then
      Found(value)
    else
      match ParseArrayAccess(segs[0])
      case Misordered => Panic
      case Plain =>
        (match value.Get(segs[0])
         case None => Missing
         case Some(child) => Extract(child, segs[1..]))
      case Indexed(field, index) =>
        var holder := if field == "" then Some(value) else value.Get(field);
        if holder.None? || !holder.value.Array? then
          Missing
        else if index == "*" then
          var results := Collect(holder.value.elems, segs[1..]);
          if results.None? then Panic
          else if results.value == [] then Missing else Found(Array(results.value))
        else
          match ParseIndex(index)
          case None => Missing
          case Some(i) => if i < |holder.value.elems| then Extract(holder.value.elems[i], segs[1..]) else Missing
  }

  /** The readings that a wildcard finds, in order; `None` when one of them panics. */
  function Collect(elems: seq<Json>, segs: seq<string>): Option<seq<Json>>
    decreases |segs|, 2, |elems|
  {
    if elems == [] then
      Some([])
    else
      match Extract(elems[0], segs)
      case Panic => None
      case Missing => Collect(elems[1..], segs)
      case Found(v) =>
        var rest := Collect(elems[1..], segs);
        if rest.None? then None else Some([v] + rest.value)
  }

  /** `extract_json_path`. */
  function ReadPath(value: Json, path: string): Reading {
    Extract(value, Split(path, '.'))
  }

  // ------------------------------------------------------------------
  // The same operations on a list of keys
  // ------------------------------------------------------------------

  function SetAt(body: Json, keys: seq<string>, value: Json): Json
    requires keys != []
    decreases |keys|
  {
    if !body.Object? then body
    else if |keys| == 1 then Object(body.fields[keys[0] := value])
    else
      var child := if keys[0] in body.fields then body.fields[keys[0]] else Object(map[]);
      Object(body.fields[keys[0] := SetAt(child, keys[1..], value)])
  }

  function RemoveAt(body: Json, keys: seq<string>): Json
    requires keys != []
    decreases |keys|
  {
    if !body.Object? then body
    else if |keys| == 1 then Object(body.fields - {keys[0]})
    else if keys[0] !in body.fields then body
    else Object(body.fields[keys[0] := RemoveAt(body.fields[keys[0]], keys[1..])])
  }

  function GetAt(body: Json, keys: seq<string>): Option<Json> {
    if keys == [] then Some(body)
    else
      match body.Get(keys[0])
      case None => None
      case Some(child) => GetAt(child, keys[1..])
  }

  lemma SplitUnfold(path: string)
    ensures var i := IndexOf(path, '.');
      Split(path, '.') == if i == |path| then [path] else [path[..i]] + Split(path[i + 1..], '.')
  {
  }

  lemma {:induction false} SetIsSetAt(body: Json, path: string, value: Json)
    ensures SetByPath(body, path, value) == SetAt(body, Split(path, '.'), value)
    decreases |path|
  {
    SplitUnfold(path);
    var i := IndexOf(path, '.');
    if i < |path| && body.Object? {
      var child := if path[..i] in body.fields then body.fields[path[..i]] else Object(map[]);
      SetIsSetAt(child, path[i + 1..], value);
      assert Split(path, '.')[1..] == Split(path[i + 1..], '.');
    }
  }

  lemma {:induction false} RemoveIsRemoveAt(body: Json, path: string)
    ensures RemoveByPath(body, path) == RemoveAt(body, Split(path, '.'))
    decreases |path|
  {
    SplitUnfold(path);
    var i := IndexOf(path, '.');
    if i < |path| && body.Object? && path[..i] in body.fields {
      RemoveIsRemoveAt(body.fields[path[..i]], path[i + 1..]);
      assert Split(path, '.')[1..] == Split(path[i + 1..], '.');
    }
  }

  /** No segment is an array access. */
  predicate BracketFree(path: string) {
    '[' !in path || ']' !in path
  }

  lemma {:induction false} ExtractIsGetAt(body: Json, keys: seq<string>)
    requires forall k :: k in keys ==> ParseArrayAccess(k).Plain?
    ensures Extract(body, keys) == match GetAt(body, keys) case None => Missing case Some(v) => Found(v)
    decreases |keys|
  {
    if keys != [] {
      var child := body.Get(keys[0]);
      if child.Some? {
        ExtractIsGetAt(child.value, keys[1..]);
      }
    }
  }

  lemma {:induction false} PiecesOf(parts: seq<string>, sep: char, c: char)
    requires |parts| >= 1
    ensures forall p :: p in parts && c in p ==> c in Join(parts, sep)
  {
    if |parts| > 1 {
      PiecesOf(parts[1..], sep, c);
      assert forall p :: p in parts ==> p == parts[0] || p in parts[1..];
    }
  }

  /** Every segment is a plain key to the reader. */
  predicate AllPlain(keys: seq<string>) {
    forall k :: k in keys ==> ParseArrayAccess(k).Plain?
  }

  lemma BracketFreeIsPlain(path: string)
    requires BracketFree(path)
    ensures AllPlain(Split(path, '.'))
  {
    var keys := Split(path, '.');
    PiecesOf(keys, '.', '[');
    PiecesOf(keys, '.', ']');
    forall k | k in keys
      ensures ParseArrayAccess(k).Plain?
    {
      assert '[' !in k || ']' !in k;
    }
  }

  lemma ReadIsGetAt(body: Json, path: string)
    requires AllPlain(Split(path, '.'))
    ensures ReadPath(body, path) == match GetAt(body, Split(path, '.')) case None => Missing case Some(v) => Found(v)
  {
    ExtractIsGetAt(body, Split(path, '.'));
  }

  // ------------------------------------------------------------------
  // What indices and wildcards read
  // ------------------------------------------------------------------

  function DigitChar(d: nat): (c: char)
    requires d <= 9
    ensures '0' <= c <= '9' && c as int == '0' as int + d
  {
    ('0' as int + d) as char
  }

  /** A number in decimal digits. */
  function Decimal(n: nat): string {
    (if n <= 9 then "" else Decimal(n / 10)) + [DigitChar(n % 10)]
  }

  lemma DigitsSnoc(s: string, d: nat)
    requires d <= 9
    ensures Digits(s + [DigitChar(d)]) == match Digits(s) case Some(v) => Some(v * 10 + d) case None => None
  {
    assert (s + [DigitChar(d)])[..|s|] == s;
  }

  lemma {:induction false} DigitsOfDecimal(n: nat)
    ensures Decimal(n) != "" && Digits(Decimal(n)) == Some(n)
    ensures forall c :: c in Decimal(n) ==> '0' <= c <= '9'
  {
    if n <= 9 {
      DigitsSnoc("", n % 10);
    } else {
      DigitsOfDecimal(n / 10);
      DigitsSnoc(Decimal(n / 10), n % 10);
    }
  }

  lemma ParseDecimal(n: nat)
    ensures ParseIndex(Decimal(n)) == Some(n)
  {
    DigitsOfDecimal(n);
    assert Decimal(n)[0] in Decimal(n);
  }

  predicate Bracketless(s: string) {
    '[' !in s && ']' !in s
  }

  lemma AccessOf(field: string, index: string)
    requires Bracketless(field) && Bracketless(index)
    ensures ParseArrayAccess(field + "[" + index + "]") == Indexed(field, index)
  {
    var seg, before := field + "[" + index + "]", field + "[" + index;
    assert seg == field + ['['] + (index + "]") && seg == before + [']'] + "";
    IndexOfPrefix(field, index + "]", '[');
    IndexOfPrefix(before, "", ']');
    assert seg[..|field|] == field && seg[|field| + 1..|before|] == index;
  }

  /** What stands before the brackets: the value itself, or its field of that name. */
  function Holder(value: Json, field: string): Option<Json> {
    if field == "" then Some(value) else value.Get(field)
  }

  /** `field[i]` reads on in element `i`, counted from the start; nothing beyond the end, nor in what is no array. */
  lemma IndexReads(value: Json, field: string, i: nat, rest: seq<string>)
    requires Bracketless(field)
    ensures var holder := Holder(value, field);
      Extract(value, [field + "[" + Decimal(i) + "]"] + rest)
      == if holder.Some? && holder.value.Array? && i < |holder.value.elems| then Extract(holder.value.elems[i], rest)
         else Missing
  {
    DigitsOfDecimal(i);
    ParseDecimal(i);
    AccessOf(field, Decimal(i));
    var segs := [field + "[" + Decimal(i) + "]"] + rest;
    assert segs[1..] == rest;
    assert Decimal(i)[0] in Decimal(i);
    IndexedStep(value, segs, field, Decimal(i), i);
  }

  lemma IndexedStep(value: Json, segs: seq<string>, field: string, index: string, i: nat)
    requires segs != [] && ParseArrayAccess(segs[0]) == Indexed(field, index) && index != "*" && ParseIndex(index) == Some(i)
    ensures var holder := Holder(value, field);
      Extract(value, segs)
      == if holder.Some? && holder.value.Array? && i < |holder.value.elems| then Extract(holder.value.elems[i], segs[1..])
         else Missing
  {
  }

  function ValueAt(rest: seq<string>): Json -> Option<Json> {
    (elem: Json) => match Extract(elem, rest) case Found(v) => Some(v) case _ => None
  }

  lemma {:induction false} CollectExactly(elems: seq<Json>, rest: seq<string>)
    requires forall e :: e in elems ==> !Extract(e, rest).Panic?
    ensures Collect(elems, rest) == Some(FilterMap(elems, ValueAt(rest)))
  {
    if elems == [] {
      assert FilterMap(elems, ValueAt(rest)) == [];
    } else {
      var e, more := elems[0], elems[1..];
      assert elems == [e] + more && e in elems && forall x :: x in more ==> x in elems;
      CollectExactly(more, rest);
      FilterMapConcat([e], more, ValueAt(rest));
      FilterMapOne(e, ValueAt(rest));
      assert [] + FilterMap(more, ValueAt(rest)) == FilterMap(more, ValueAt(rest));
    }
  }

  /** `field[*]` collects what every element reads, in order, and reads nothing when no element does. */
  lemma StarReads(value: Json, field: string, elems: seq<Json>, rest: seq<string>)
    requires Bracketless(field) && Holder(value, field) == Some(Array(elems))
    requires forall e :: e in elems ==> !Extract(e, rest).Panic?
    ensures var found := FilterMap(elems, ValueAt(rest));
      Extract(value, [field + "[*]"] + rest) == if found == [] then Missing else Found(Array(found))
  {
    AccessOf(field, "*");
    assert field + "[" + "*" + "]" == field + "[*]";
    var segs := [field + "[*]"] + rest;
    assert segs[0] == field + "[*]" && segs[1..] == rest;
    CollectExactly(elems, rest);
  }

  // ------------------------------------------------------------------
  // Lens laws on key lists
  // ------------------------------------------------------------------

  /** Every node that is present on the way to the leaf is an object. */
  predicate Settable(body: Json, keys: seq<string>)
    requires keys != []
    decreases |keys|
  {
    body.Object? && (|keys| == 1 || keys[0] !in body.fields || Settable(body.fields[keys[0]], keys[1..]))
  }

  /** The leaf is absent from an object that is already there. */
  predicate Vacant(body: Json, keys: seq<string>)
    requires keys != []
    decreases |keys|
  {
    && body.Object?
    && if |keys| == 1 then keys[0] !in body.fields
       else keys[0] in body.fields && Vacant(body.fields[keys[0]], keys[1..])
  }

  lemma {:induction false} BlockedSet(body: Json, keys: seq<string>, value: Json)
    requires keys != [] && !Settable(body, keys)
    ensures SetAt(body, keys, value) == body && RemoveAt(body, keys) == body && GetAt(body, keys) == None
    decreases |keys|
  {
    if body.Object? {
      BlockedSet(body.fields[keys[0]], keys[1..], value);
    }
  }

  lemma {:induction false} GetOfSet(body: Json, keys: seq<string>, value: Json)
    requires keys != [] && Settable(body, keys)
    ensures GetAt(SetAt(body, keys, value), keys) == Some(value)
    decreases |keys|
  {
    var t := SetAt(body, keys, value);
    assert t.Get(keys[0]).Some?;
    if |keys| > 1 {
      var child := if keys[0] in body.fields then body.fields[keys[0]] else Object(map[]);
      FreshIsSettable(keys[1..]);
      GetOfSet(child, keys[1..], value);
    }
  }

  lemma FreshIsSettable(keys: seq<string>)
    requires keys != []
    ensures Settable(Object(map[]), keys)
  {
  }

  lemma {:induction false} SetOfGet(body: Json, keys: seq<string>)
    requires keys != [] && GetAt(body, keys).Some?
    ensures SetAt(body, keys, GetAt(body, keys).value) == body
    decreases |keys|
  {
    var child := body.Get(keys[0]).value;
    if |keys| > 1 {
      SetOfGet(child, keys[1..]);
    } else {
      assert GetAt(child, keys[1..]) == Some(child);
    }
  }

  lemma {:induction false} SetOfSet(body: Json, keys: seq<string>, v: Json, w: Json)
    requires keys != []
    ensures SetAt(SetAt(body, keys, v), keys, w) == SetAt(body, keys, w)
    decreases |keys|
  {
    if body.Object? && |keys| > 1 {
      var child := if keys[0] in body.fields then body.fields[keys[0]] else Object(map[]);
      SetOfSet(child, keys[1..], v, w);
      SetInside(body, keys, v);
      var t := SetAt(body, keys, v);
      assert t.fields[keys[0] := SetAt(child, keys[1..], w)] == body.fields[keys[0] := SetAt(child, keys[1..], w)];
    }
  }

  lemma SetInside(body: Json, keys: seq<string>, v: Json)
    requires |keys| > 1 && body.Object?
    ensures var child := if keys[0] in body.fields then body.fields[keys[0]] else Object(map[]);
      SetAt(body, keys, v) == Object(body.fields[keys[0] := SetAt(child, keys[1..], v)])
  {
  }

  lemma {:induction false} GetOfRemove(body: Json, keys: seq<string>)
    requires keys != []
    ensures GetAt(RemoveAt(body, keys), keys) == None
    decreases |keys|
  {
    if body.Object? && |keys| > 1 && keys[0] in body.fields {
      GetOfRemove(body.fields[keys[0]], keys[1..]);
    }
  }

  /** Removing undoes setting exactly when the set had no effect, or filled a vacant leaf of an existing object. */
  lemma {:induction false} RemoveOfSet(body: Json, keys: seq<string>, value: Json)
    requires keys != []
    ensures RemoveAt(SetAt(body, keys, value), keys) == body <==> !Settable(body, keys) || Vacant(body, keys)
    decreases |keys|
  {
    var t := SetAt(body, keys, value);
    if !body.Object? {
    } else if |keys| == 1 {
      assert t.fields - {keys[0]} == body.fields - {keys[0]};
    } else {
      var child := if keys[0] in body.fields then body.fields[keys[0]] else Object(map[]);
      RemoveOfSet(child, keys[1..], value);
      var r := RemoveAt(t, keys);
      assert r.fields == body.fields[keys[0] := RemoveAt(SetAt(child, keys[1..], value), keys[1..])];
      if keys[0] in body.fields {
        assert r == body <==> r.fields[keys[0]] == body.fields[keys[0]] by {
          if r.fields[keys[0]] == body.fields[keys[0]] {
            assert r.fields == body.fields;
          }
        }
      } else {
        assert keys[0] in r.fields;
      }
    }
  }

  /** Reading `q` looks at the leaf `p`, below it, or at a node above it. */
  predicate Disturbs(p: seq<string>, q: seq<string>)
    requires p != []
    decreases |p|
  {
    q == [] ||
    match ParseArrayAccess(q[0])
    case Misordered => false
    case Plain => q[0] == p[0] && (|p| == 1 || Disturbs(p[1..], q[1..]))
    case Indexed(field, _) => field != "" && field == p[0] && |p| == 1
  }

  lemma {:induction false} SetElsewhere(body: Json, p: seq<string>, value: Json, q: seq<string>)
    requires p != [] && !Disturbs(p, q)
    requires forall k :: k in q ==> !ParseArrayAccess(k).Misordered?
    ensures Extract(SetAt(body, p, value), q) == Extract(body, q)
    decreases |p|
  {
    if body.Object? && |p| > 1 && q[0] == p[0] && ParseArrayAccess(q[0]).Plain? {
      var child := if p[0] in body.fields then body.fields[p[0]] else Object(map[]);
      SetElsewhere(child, p[1..], value, q[1..]);
      if p[0] !in body.fields {
        EmptyObjectReads(q[1..]);
      }
    } else if body.Object? && |p| > 1 {
      SetKeepsArrays(body, p, value);
    }
  }

  /** Setting below a node never makes it an array, nor changes one. */
  lemma SetKeepsArrays(body: Json, p: seq<string>, value: Json)
    requires |p| > 1 && body.Object?
    ensures var before, after := body.Get(p[0]), SetAt(body, p, value).Get(p[0]);
      after.Some? && (after.value.Array? ==> before == after) && (before.Some? && before.value.Array? ==> before == after)
  {
  }

  lemma EmptyObjectReads(q: seq<string>)
    ensures q != [] ==> Extract(Object(map[]), q) == if ParseArrayAccess(q[0]).Misordered? then Panic else Missing
  {
  }

  lemma {:induction false} RemoveElsewhere(body: Json, p: seq<string>, q: seq<string>)
    requires p != [] && !Disturbs(p, q)
    ensures Extract(RemoveAt(body, p), q) == Extract(body, q)
    decreases |p|
  {
    if body.Object? && |p| > 1 && p[0] in body.fields {
      if q[0] == p[0] && ParseArrayAccess(q[0]).Plain? {
        RemoveElsewhere(body.fields[p[0]], p[1..], q[1..]);
      } else {
        var child := body.fields[p[0]];
        assert !child.Object? ==> RemoveAt(child, p[1..]) == child;
      }
    }
  }

  // ------------------------------------------------------------------
  // Lens laws on paths
  // ------------------------------------------------------------------

  /** Every path has keys. */
  function Keys(path: string): (keys: seq<string>)
    ensures keys != []
  {
    Split(path, '.')
  }

  /** No segment closes a bracket before it opens one. */
  predicate WellFormed(path: string) {
    forall k :: k in Keys(path) ==> !ParseArrayAccess(k).Misordered?
  }

  /** What was set is read back exactly when every node present above the leaf is an object. */
  lemma ReadAfterSet(body: Json, path: string, value: Json)
    requires AllPlain(Keys(path))
    ensures ReadPath(SetByPath(body, path, value), path) == Found(value) <==> Settable(body, Keys(path))
  {
    SetIsSetAt(body, path, value);
    ReadIsGetAt(SetByPath(body, path, value), path);
    if Settable(body, Keys(path)) {
      GetOfSet(body, Keys(path), value);
    } else {
      BlockedSet(body, Keys(path), value);
    }
  }

  /** Setting what is there changes nothing, and the last of two sets wins. */
  lemma SetLaws(body: Json, path: string, v: Json, w: Json)
    requires AllPlain(Keys(path))
    ensures ReadPath(body, path) == Found(v) ==> SetByPath(body, path, v) == body
    ensures SetByPath(SetByPath(body, path, v), path, w) == SetByPath(body, path, w)
  {
    SetIsSetAt(body, path, v);
    SetIsSetAt(body, path, w);
    SetIsSetAt(SetByPath(body, path, v), path, w);
    SetOfSet(body, Keys(path), v, w);
    ReadIsGetAt(body, path);
    if ReadPath(body, path) == Found(v) {
      SetOfGet(body, Keys(path));
    }
  }

  lemma ReadAfterRemove(body: Json, path: string)
    requires AllPlain(Keys(path))
    ensures ReadPath(RemoveByPath(body, path), path) == Missing
  {
    RemoveIsRemoveAt(body, path);
    ReadIsGetAt(RemoveByPath(body, path), path);
    GetOfRemove(body, Keys(path));
  }

  lemma RemoveUndoesSet(body: Json, path: string, value: Json)
    ensures RemoveByPath(SetByPath(body, path, value), path) == body
       <==> !Settable(body, Keys(path)) || Vacant(body, Keys(path))
  {
    SetIsSetAt(body, path, value);
    RemoveIsRemoveAt(SetByPath(body, path, value), path);
    RemoveOfSet(body, Keys(path), value);
  }

  /** Reads with indices and wildcards included: whatever does not go by way of the leaf is unchanged. */
  lemma ReadsElsewhere(body: Json, path: string, value: Json, other: string)
    requires WellFormed(other) && !Disturbs(Keys(path), Keys(other))
    ensures ReadPath(SetByPath(body, path, value), other) == ReadPath(body, other)
    ensures ReadPath(RemoveByPath(body, path), other) == ReadPath(body, other)
  {
    SetIsSetAt(body, path, value);
    RemoveIsRemoveAt(body, path);
    SetElsewhere(body, Keys(path), value, Keys(other));
    RemoveElsewhere(body, Keys(path), Keys(other));
  }

  /** For bracket-free paths that is every path of which neither is a prefix of the other. */
  lemma {:induction false} IncomparableUndisturbed(p: seq<string>, q: seq<string>)
    requires p != [] && forall k :: k in q ==> ParseArrayAccess(k).Plain?
    ensures Disturbs(p, q) <==> p <= q || q <= p
    decreases |p|
  {
    if q != [] {
      assert q[0] in q;
      if q[0] == p[0] && |p| > 1 {
        IncomparableUndisturbed(p[1..], q[1..]);
        assert p == [p[0]] + p[1..] && q == [q[0]] + q[1..];
      }
    }
  }

  /** A segment with brackets is a plain key to the writer and an index to the reader: it never leads to what was written. */
  lemma {:induction false} IndexedUndisturbed(keys: seq<string>)
    requires keys != [] && !AllPlain(keys)
    ensures !Disturbs(keys, keys)
  {
    if ParseArrayAccess(keys[0]).Plain? {
      assert keys == [keys[0]] + keys[1..];
      IndexedUndisturbed(keys[1..]);
    }
  }

  /** So setting a path with an indexed segment changes nothing that the same path reads. */
  lemma BracketsDoNotReadBack(body: Json, path: string, value: Json)
    requires WellFormed(path) && !AllPlain(Keys(path))
    ensures ReadPath(SetByPath(body, path, value), path) == ReadPath(body, path)
  {
    IndexedUndisturbed(Keys(path));
    ReadsElsewhere(body, path, value, path);
  }

  /**
   When a path can be read back, for every path the reader does not panic on:
   without indices, exactly when every node present above the leaf is an object;
   with indices, exactly when the value could be read there already.
   */
  lemma ReadBackExactly(body: Json, path: string, value: Json)
    requires WellFormed(path)
    ensures ReadPath(SetByPath(body, path, value), path) == Found(value) <==>
      if AllPlain(Keys(path)) then Settable(body, Keys(path)) else ReadPath(body, path) == Found(value)
  {
    if AllPlain(Keys(path)) {
      ReadAfterSet(body, path, value);
    } else {
      BracketsDoNotReadBack(body, path, value);
    }
  }

  /** An instance: the value lands under the key `a[0]`, and `a[0]` reads nothing. */
  lemma BracketExample(value: Json)
    ensures SetByPath(Object(map[]), "a[0]", value) == Object(map["a[0]" := value])
    ensures ReadPath(SetByPath(Object(map[]), "a[0]", value), "a[0]") == Missing
  {
    var path := "a[0]";
    IndexAbsent(path, '.');
    IndexOfPrefix("a", "0]", '[');
    IndexOfPrefix("a[0", "", ']');
    assert path == "a" + ['['] + "0]" && path == "a[0" + [']'] + "";
    SplitUnfold(path);
    assert path[..1] == "a";
    assert ParseArrayAccess(path) == Indexed("a", "0");
  }

  lemma IndexAbsent(s: string, c: char)
    requires c !in s
    ensures IndexOf(s, c) == |s|
  {
  }
}
