/**
 The string primitives the gateway leans on: `str::find`, `str::split`, and the
 inverse of the latter. Strings are sequences of characters.
 */
module Text {
  import opened Options

  /** The index of the first `c` in `s`, or `|s|` when there is none. */
  function IndexOf(s: string, c: char): (i: nat)
    ensures i <= |s|
    ensures c !in s[..i]
    ensures i < |s| ==> s[i] == c
  {
    if s == "" || s[0] == c then 0 else 1 + IndexOf(s[1..], c)
  }

  /** `str::find`: the leftmost occurrence of `needle`. */
  function Find(hay: string, needle: string): (r: Option<nat>)
    ensures r.Some? ==> r.value + |needle| <= |hay| && needle <= hay[r.value..]
    ensures r.Some? ==> forall k :: 0 <= k < r.value ==> !(needle <= hay[k..])
    ensures r.None? ==> forall k :: 0 <= k <= |hay| ==> !(needle <= hay[k..])
    decreases |hay|
  {
    if needle <= hay then
      Some(0)
    else if hay == "" then
      None
    else
      var rest := Find(hay[1..], needle);
      assert forall k :: 1 <= k <= |hay| ==> hay[k..] == hay[1..][k - 1..];
      match rest
      case None => None
      case Some(i) => Some(i + 1)
  }

  /** `str::split` on one character: always at least one piece. */
  function Split(s: string, c: char): (parts: seq<string>)
    ensures |parts| >= 1
    ensures forall p :: p in parts ==> c !in p
    ensures Join(parts, c) == s
    decreases |s|
  {
    var i := IndexOf(s, c);
    if i == |s| then
      assert s[..i] == s;
      [s]
    else
      var rest := Split(s[i + 1..], c);
      assert s == s[..i] + [c] + s[i + 1..];
      assert ([s[..i]] + rest)[1..] == rest;
      [s[..i]] + rest
  }

  /** The pieces with one `c` between neighbours. */
  function Join(parts: seq<string>, c: char): string
    requires |parts| >= 1
  {
    if |parts| == 1 then parts[0] else parts[0] + [c] + Join(parts[1..], c)
  }

  lemma IndexOfPrefix(a: string, b: string, c: char)
    requires c !in a
    ensures IndexOf(a + [c] + b, c) == |a|
    ensures IndexOf(a, c) == |a|
  {
    var s := a + [c] + b;
    assert s[|a|] == c;
    assert forall k :: 0 <= k < |a| ==> s[k] == a[k];
  }

  /** Pieces free of the separator survive a join and a split. */
  lemma {:induction false} SplitOfJoin(parts: seq<string>, c: char)
    requires |parts| >= 1
    requires forall p :: p in parts ==> c !in p
    ensures Split(Join(parts, c), c) == parts
  {
    var s := Join(parts, c);
    if |parts| == 1 {
      IndexOfPrefix(parts[0], "", c);
      assert s[..|s|] == s;
    } else {
      var rest := Join(parts[1..], c);
      IndexOfPrefix(parts[0], rest, c);
      assert s[..|parts[0]|] == parts[0];
      assert s[|parts[0]| + 1..] == rest;
      SplitOfJoin(parts[1..], c);
    }
  }

  /** Splitting distributes over a concatenation at a separator. */
  lemma {:induction false} SplitConcat(a: string, b: string, c: char)
    ensures Split(a + [c] + b, c) == Split(a, c) + Split(b, c)
  {
    JoinConcat(Split(a, c), Split(b, c), c);
    SplitOfJoin(Split(a, c) + Split(b, c), c);
  }

  lemma {:induction false} JoinConcat(xs: seq<string>, ys: seq<string>, c: char)
    requires |xs| >= 1 && |ys| >= 1
    ensures Join(xs + ys, c) == Join(xs, c) + [c] + Join(ys, c)
  {
    assert (xs + ys)[1..] == xs[1..] + ys;
    if |xs| == 1 {
      assert xs[1..] + ys == ys;
    } else {
      JoinConcat(xs[1..], ys, c);
    }
  }
}
