/**
 Field-based redaction: named keys are blanked at every depth of a JSON tree.

 The Rust code changes a uniquely owned tree in place; the method here returns
 the changed tree. It visits an object's entries in any order.
 */
module RedactFields {
  import opened Options
  import opened Json

  const REDACTED: Json := Json.String("[REDACTED]")

  function Tag(field: string): string {
    "field:" + field
  }

  function Redacted(v: Json, listed: set<string>): Json {
    match v
    case Object(m) => Object(map k | k in m :: if k in listed then REDACTED else Redacted(m[k], listed))
    case Array(e) => Array(seq(|e|, i requires 0 <= i < |e| => Redacted(e[i], listed)))
    case _ => v
  }

  /** The listed keys that redaction meets. */
  ghost function Met(v: Json, listed: set<string>): set<string> {
    match v
    case Object(m) => (set k | k in m && k in listed) + MetIn(set k | k in m && k !in listed :: Met(m[k], listed))
    case Array(e) => MetIn(set i | 0 <= i < |e| :: Met(e[i], listed))
    case _ => {}
  }

  ghost function MetIn(sets: set<set<string>>): set<string> {
    set s, f | s in sets && f in s :: f
  }

  /** What is met below the keys of one object, for the keys in `done`. */
  ghost function MetBelow(m: map<string, Json>, listed: set<string>, done: set<string>): set<string> {
    MetIn(set k | k in m && k in done && k !in listed :: Met(m[k], listed))
  }

  ghost function MetAmong(e: seq<Json>, listed: set<string>, n: nat): set<string>
    requires n <= |e|
  {
    MetIn(set i | 0 <= i < n :: Met(e[i], listed))
  }

  lemma MetBelowStep(m: map<string, Json>, listed: set<string>, done: set<string>, k: string)
    requires k in m
    ensures MetBelow(m, listed, done + {k}) == MetBelow(m, listed, done) + if k in listed then {} else Met(m[k], listed)
  {
    var before := set x | x in m && x in done && x !in listed :: Met(m[x], listed);
    var after := set x | x in m && x in done + {k} && x !in listed :: Met(m[x], listed);
    assert after == if k in listed then before else before + {Met(m[k], listed)};
  }

  lemma MetAmongStep(e: seq<Json>, listed: set<string>, n: nat)
    requires n < |e|
    ensures MetAmong(e, listed, n + 1) == MetAmong(e, listed, n) + Met(e[n], listed)
  {
    var before := set i | 0 <= i < n :: Met(e[i], listed);
    var after := set i | 0 <= i < n + 1 :: Met(e[i], listed);
    assert after == before + {Met(e[n], listed)};
  }

  lemma MetOfObject(m: map<string, Json>, listed: set<string>)
    ensures Met(Object(m), listed) == (set k | k in m && k in listed) + MetBelow(m, listed, m.Keys)
  {
    assert (set k | k in m && k in m.Keys && k !in listed :: Met(m[k], listed))
        == (set k | k in m && k !in listed :: Met(m[k], listed));
  }

  ghost function Elements(s: seq<string>): set<string> {
    set x | x in s
  }

  ghost function TagsOf(fields: set<string>): set<string> {
    set f | f in fields :: Tag(f)
  }

  ghost predicate Distinct(s: seq<string>) {
    forall i, j :: 0 <= i < j < |s| ==> s[i] != s[j]
  }

  /** What a call may do to the list of tags: append, never repeat. */
  ghost predicate Grown(before: seq<string>, after: seq<string>, met: set<string>) {
    && before <= after
    && Elements(after) == Elements(before) + TagsOf(met)
    && (Distinct(before) ==> Distinct(after))
  }

  method PushTag(matched: seq<string>, field: string) returns (r: seq<string>)
    ensures Grown(matched, r, {field})
  {
    var tag := Tag(field);
    if tag in matched {
      return matched;
    }
    return matched + [tag];
  }

  lemma GrownTwice(a: seq<string>, b: seq<string>, c: seq<string>, m: set<string>, n: set<string>)
    requires Grown(a, b, m) && Grown(b, c, n)
    ensures Grown(a, c, m + n)
  {
    assert TagsOf(m + n) == TagsOf(m) + TagsOf(n);
  }

  /** The first loop of `redact_fields`: blank the listed keys of one object. */
  method BlankKeys(m: map<string, Json>, fields: seq<string>, matched: seq<string>)
    returns (obj: map<string, Json>, tags: seq<string>)
    ensures obj == map k | k in m :: if k in Elements(fields) then REDACTED else m[k]
    ensures Grown(matched, tags, set k | k in m && k in Elements(fields))
  {
    obj, tags := m, matched;
    assert Grown(matched, tags, {});
    for i := 0 to |fields|
      invariant obj == map k | k in m :: if k in Elements(fields[..i]) then REDACTED else m[k]
      invariant Grown(matched, tags, set k | k in m && k in Elements(fields[..i]))
    {
      var field := fields[i];
      assert Elements(fields[..i + 1]) == Elements(fields[..i]) + {field};
      if field in obj {
        obj := obj[field := REDACTED];
        var before := tags;
        tags := PushTag(tags, field);
        GrownTwice(matched, before, tags, set k | k in m && k in Elements(fields[..i]), {field});
        assert (set k | k in m && k in Elements(fields[..i + 1])) == (set k | k in m && k in Elements(fields[..i])) + {field};
      } else {
        assert (set k | k in m && k in Elements(fields[..i + 1])) == (set k | k in m && k in Elements(fields[..i]));
      }
    }
    assert fields[..|fields|] == fields;
  }

  /** `redact_fields`: blank the listed keys here, then visit every entry or element. */
  method Redact(v: Json, fields: seq<string>, matched: seq<string>) returns (r: Json, tags: seq<string>)
    ensures r == Redacted(v, Elements(fields))
    ensures Grown(matched, tags, Met(v, Elements(fields)))
    decreases v, 3
  {
    if v.Object? {
      r, tags := RedactObject(v.fields, fields, matched, v);
    } else if v.Array? {
      r, tags := RedactArray(v.elems, fields, matched, v);
    } else {
      r, tags := v, matched;
    }
  }

  ghost function RedactedEntry(m: map<string, Json>, k: string, listed: set<string>): Json
    requires k in m
  {
    if k in listed then REDACTED else Redacted(m[k], listed)
  }

  lemma RedactedObject(m: map<string, Json>, listed: set<string>, obj: map<string, Json>)
    requires obj.Keys == m.Keys && forall k :: k in m ==> obj[k] == RedactedEntry(m, k, listed)
    ensures Redacted(Object(m), listed) == Object(obj)
  {
    assert obj == map k | k in m :: if k in listed then REDACTED else Redacted(m[k], listed);
  }

  /** One entry of an object whose listed keys are blank already: only objects and arrays have anything to visit. */
  method VisitEntry(m: map<string, Json>, k: string, value: Json, fields: seq<string>, matched: seq<string>, ghost v: Json)
    returns (r: Json, tags: seq<string>)
    requires v == Object(m) && k in m
    requires value == if k in Elements(fields) then REDACTED else m[k]
    ensures r == RedactedEntry(m, k, Elements(fields))
    ensures Grown(matched, tags, if k in Elements(fields) then {} else Met(m[k], Elements(fields)))
    decreases v, 0
  {
    if value.Object? || value.Array? {
      r, tags := Redact(value, fields, matched);
    } else {
      r, tags := value, matched;
    }
  }

  /** The tags so far are those of this object's own keys and of the entries already visited. */
  ghost predicate Visited(matched: seq<string>, tags: seq<string>, m: map<string, Json>, listed: set<string>, done: set<string>) {
    Grown(matched, tags, (set k | k in m && k in listed) + MetBelow(m, listed, done))
  }

  lemma VisitedStep(matched: seq<string>, before: seq<string>, tags: seq<string>,
                    m: map<string, Json>, listed: set<string>, done: set<string>, k: string)
    requires k in m && Visited(matched, before, m, listed, done)
    requires Grown(before, tags, if k in listed then {} else Met(m[k], listed))
    ensures Visited(matched, tags, m, listed, done + {k})
  {
    var own := set x | x in m && x in listed;
    var met := if k in listed then {} else Met(m[k], listed);
    GrownTwice(matched, before, tags, own + MetBelow(m, listed, done), met);
    MetBelowStep(m, listed, done, k);
    assert own + MetBelow(m, listed, done) + met == own + MetBelow(m, listed, done + {k});
  }

  lemma VisitedNone(matched: seq<string>, tags: seq<string>, m: map<string, Json>, listed: set<string>)
    requires Grown(matched, tags, set k | k in m && k in listed)
    ensures Visited(matched, tags, m, listed, {})
  {
    assert MetBelow(m, listed, {}) == {};
    assert (set k | k in m && k in listed) + {} == set k | k in m && k in listed;
  }

  method RedactObject(m: map<string, Json>, fields: seq<string>, matched: seq<string>, ghost v: Json)
    returns (r: Json, tags: seq<string>)
    requires v == Object(m)
    ensures r == Redacted(v, Elements(fields))
    ensures Grown(matched, tags, Met(v, Elements(fields)))
    decreases v, 2
  {
    var blanked, tags0 := BlankKeys(m, fields, matched);
    VisitedNone(matched, tags0, m, Elements(fields));
    var obj;
    obj, tags := VisitEntries(m, blanked, fields, matched, tags0, v);
    r := Object(obj);
    RedactedObject(m, Elements(fields), obj);
    MetOfObject(m, Elements(fields));
  }

  /** The second loop of `redact_fields`, over the entries of one object. */
  method VisitEntries(m: map<string, Json>, blanked: map<string, Json>, fields: seq<string>,
                      ghost matched: seq<string>, tags0: seq<string>, ghost v: Json)
    returns (obj: map<string, Json>, tags: seq<string>)
    requires v == Object(m)
    requires blanked == map k | k in m :: if k in Elements(fields) then REDACTED else m[k]
    requires Visited(matched, tags0, m, Elements(fields), {})
    ensures obj.Keys == m.Keys
    ensures forall k :: k in m ==> obj[k] == RedactedEntry(m, k, Elements(fields))
    ensures Visited(matched, tags, m, Elements(fields), m.Keys)
    decreases v, 1
  {
    obj, tags := blanked, tags0;
    var todo := m.Keys;
    ghost var done: set<string> := {};
    while todo != {}
      invariant obj.Keys == m.Keys == done + todo && done !! todo
      invariant forall k :: k in todo ==> obj[k] == blanked[k]
      invariant forall k :: k in done ==> obj[k] == RedactedEntry(m, k, Elements(fields))
      invariant Visited(matched, tags, m, Elements(fields), done)
      decreases todo
    {
      var k :| k in todo;
      ghost var before := tags;
      var child;
      child, tags := VisitEntry(m, k, obj[k], fields, tags, v);
      VisitedStep(matched, before, tags, m, Elements(fields), done, k);
      obj := obj[k := child];
      todo := todo - {k};
      done := done + {k};
    }
    assert done == m.Keys;
  }

  method RedactArray(e: seq<Json>, fields: seq<string>, matched: seq<string>, ghost v: Json)
    returns (r: Json, tags: seq<string>)
    requires v == Array(e)
    ensures r == Redacted(v, Elements(fields))
    ensures Grown(matched, tags, Met(v, Elements(fields)))
    decreases v, 1
  {
    ghost var listed := Elements(fields);
    var arr: seq<Json> := [];
    tags := matched;
    assert MetAmong(e, listed, 0) == {};
    for i := 0 to |e|
      invariant |arr| == i && forall j :: 0 <= j < i ==> arr[j] == Redacted(e[j], listed)
      invariant Grown(matched, tags, MetAmong(e, listed, i))
    {
      ghost var before := tags;
      var item;
      item, tags := Redact(e[i], fields, tags);
      arr := arr + [item];
      GrownTwice(matched, before, tags, MetAmong(e, listed, i), Met(e[i], listed));
      MetAmongStep(e, listed, i);
    }
    r := Array(arr);
  }

  // ------------------------------------------------------------------
  // What redaction means, place by place
  // ------------------------------------------------------------------

  datatype Move = Key(key: string) | Item(index: nat)

  /** The value at a place in the tree. */
  function At(v: Json, place: seq<Move>): Option<Json> {
    if place == [] then Some(v)
    else
      match place[0]
      case Key(k) => if v.Object? && k in v.fields then At(v.fields[k], place[1..]) else None
      case Item(i) => if v.Array? && i < |v.elems| then At(v.elems[i], place[1..]) else None
  }

  /** No listed key on the way. */
  predicate Clear(place: seq<Move>, listed: set<string>) {
    forall i :: 0 <= i < |place| && place[i].Key? ==> place[i].key !in listed
  }

  /** Away from listed keys, the same places exist, and hold what they held but for the redaction below them. */
  lemma {:induction false} ClearPlaces(v: Json, listed: set<string>, place: seq<Move>)
    requires Clear(place, listed)
    ensures At(Redacted(v, listed), place)
         == match At(v, place) case None => None case Some(w) => Some(Redacted(w, listed))
  {
    if place != [] {
      assert Clear(place[1..], listed);
      assert place[0].Key? ==> place[0].key !in listed;
      match place[0]
      case Key(k) => if v.Object? && k in v.fields { ClearPlaces(v.fields[k], listed, place[1..]); }
      case Item(i) => if v.Array? && i < |v.elems| { ClearPlaces(v.elems[i], listed, place[1..]); }
    }
  }

  /** Under a listed key, wherever one is left, stands the placeholder and nothing else. */
  lemma {:induction false} ListedPlaces(v: Json, listed: set<string>, place: seq<Move>)
    requires !Clear(place, listed) && At(Redacted(v, listed), place).Some?
    ensures At(Redacted(v, listed), place) == Some(Json.String("[REDACTED]"))
    ensures place[|place| - 1].Key? && place[|place| - 1].key in listed
  {
    match place[0]
    case Key(k) =>
      if k in listed {
        assert At(REDACTED, place[1..]).Some? ==> place[1..] == [];
      } else {
        assert !Clear(place[1..], listed);
        ListedPlaces(v.fields[k], listed, place[1..]);
      }
    case Item(i) =>
      assert !Clear(place[1..], listed);
      ListedPlaces(v.elems[i], listed, place[1..]);
  }

  /** Redacting twice is redacting once. */
  lemma {:induction false} RedactedIdempotent(v: Json, listed: set<string>)
    ensures Redacted(Redacted(v, listed), listed) == Redacted(v, listed)
  {
    match v
    case Object(m) =>
      forall k | k in m && k !in listed {
        RedactedIdempotent(m[k], listed);
      }
    case Array(e) =>
      forall i | 0 <= i < |e| {
        RedactedIdempotent(e[i], listed);
      }
    case _ =>
  }

  /** A listed key is tagged exactly when it occurs in an object that is not below another listed key. */
  ghost predicate OccursAt(v: Json, listed: set<string>, field: string, place: seq<Move>) {
    Clear(place, listed) && At(v, place).Some? && At(v, place).value.Object? && field in At(v, place).value.fields
  }

  lemma {:induction false} MetHasPlace(v: Json, listed: set<string>, field: string) returns (place: seq<Move>)
    requires field in Met(v, listed)
    ensures field in listed && OccursAt(v, listed, field, place)
  {
    match v
    case Object(m) =>
      if field in m && field in listed {
        place := [];
      } else {
        var k :| k in m && k !in listed && field in Met(m[k], listed);
        var rest := MetHasPlace(m[k], listed, field);
        place := [Key(k)] + rest;
        assert place[1..] == rest;
      }
    case Array(e) =>
      var i :| 0 <= i < |e| && field in Met(e[i], listed);
      var rest := MetHasPlace(e[i], listed, field);
      place := [Item(i)] + rest;
      assert place[1..] == rest;
    case _ => place := [];
  }

  lemma {:induction false} PlaceIsMet(v: Json, listed: set<string>, field: string, place: seq<Move>)
    requires field in listed && OccursAt(v, listed, field, place)
    ensures field in Met(v, listed)
  {
    if place != [] {
      assert Clear(place[1..], listed);
      match place[0]
      case Key(k) =>
        PlaceIsMet(v.fields[k], listed, field, place[1..]);
        assert Met(v.fields[k], listed) in (set x | x in v.fields && x !in listed :: Met(v.fields[x], listed));
      case Item(i) =>
        PlaceIsMet(v.elems[i], listed, field, place[1..]);
        assert Met(v.elems[i], listed) in (set x | 0 <= x < |v.elems| :: Met(v.elems[x], listed));
    }
  }

  lemma MetExactly(v: Json, listed: set<string>, field: string)
    ensures field in Met(v, listed) <==> field in listed && exists place :: OccursAt(v, listed, field, place)
  {
    if field in Met(v, listed) {
      var place := MetHasPlace(v, listed, field);
    }
    if field in listed && exists place :: OccursAt(v, listed, field, place) {
      var place :| OccursAt(v, listed, field, place);
      PlaceIsMet(v, listed, field, place);
    }
  }

  /**
   The tags of a fresh call: `field:` and the key, for exactly the listed keys
   that occur at some place not below another listed key, and none twice.
   */
  lemma TagsExactly(v: Json, fields: seq<string>, tags: seq<string>)
    requires Grown([], tags, Met(v, Elements(fields)))
    ensures forall field :: "field:" + field in tags <==>
      field in fields && exists place :: OccursAt(v, Elements(fields), field, place)
    ensures forall tag :: tag in tags ==> exists field :: tag == "field:" + field
    ensures Distinct(tags)
  {
    var met := Met(v, Elements(fields));
    assert Elements(tags) == TagsOf(met);
    forall field
      ensures "field:" + field in tags <==>
        field in fields && exists place :: OccursAt(v, Elements(fields), field, place)
    {
      MetExactly(v, Elements(fields), field);
      TagOf(met, field);
      assert "field:" + field in tags <==> "field:" + field in Elements(tags);
    }
    forall tag | tag in tags
      ensures exists field :: tag == "field:" + field
    {
      assert tag in Elements(tags);
      var field :| field in met && Tag(field) == tag;
      assert tag == "field:" + field;
    }
  }

  lemma TagOf(met: set<string>, field: string)
    ensures "field:" + field in TagsOf(met) <==> field in met
  {
    if "field:" + field in TagsOf(met) {
      var other :| other in met && Tag(other) == "field:" + field;
      assert ("field:" + other)[6..] == other && ("field:" + field)[6..] == field;
    }
    if field in met {
      assert Tag(field) in TagsOf(met);
    }
  }
}
