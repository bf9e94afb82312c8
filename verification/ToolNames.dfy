/**
 MCP tool names: a server name made safe, a tool published under
 `mcp__server__tool`, and that name taken apart again.
 */
module ToolNames {
  import opened Options

  // ------------------------------------------------------------------
  // Sanitising a server name
  // ------------------------------------------------------------------

  /** `char::is_alphanumeric`; beyond ASCII it is the parameter `letters`. */
  predicate IsAlphanumeric(c: char, letters: char -> bool) {
    if c < 128 as char then '0' <= c <= '9' || 'a' <= c <= 'z' || 'A' <= c <= 'Z' else letters(c)
  }

  function ToAsciiLower(c: char): char {
    if 'A' <= c <= 'Z' then (c as int + 32) as char else c
  }

  predicate IsSeparator(c: char) {
    c == '-' || c == '_'
  }

  function SafeChar(c: char, letters: char -> bool): char {
    if IsAlphanumeric(c, letters) || c == '_' || c == '-' then ToAsciiLower(c) else '-'
  }

  function SafeChars(name: string, letters: char -> bool): (r: string)
    ensures |r| == |name|
  {
    seq(|name|, i requires 0 <= i < |name| => SafeChar(name[i], letters))
  }

  /** Every run of separators becomes one hyphen; `afterSep` tells whether one has just been seen. */
  function Collapse(raw: string, afterSep: bool): string {
    if raw == "" then ""
    else if IsSeparator(raw[0]) then (if afterSep then "" else "-") + Collapse(raw[1..], true)
    else [raw[0]] + Collapse(raw[1..], false)
  }

  function TrimStart(s: string): string {
    if s != "" && s[0] == '-' then TrimStart(s[1..]) else s
  }

  function TrimEnd(s: string): string {
    if s != "" && s[|s| - 1] == '-' then TrimEnd(s[..|s| - 1]) else s
  }

  function Sanitized(name: string, letters: char -> bool): string {
    TrimEnd(TrimStart(Collapse(SafeChars(name, letters), false)))
  }

  /** What the next character adds to the collapsed name. */
  function Piece(c: char, afterSep: bool): string {
    if !IsSeparator(c) then [c] else if afterSep then "" else "-"
  }

  lemma CollapseStep(raw: string, i: nat, afterSep: bool, done: string)
    requires i < |raw|
    ensures done + Collapse(raw[i..], afterSep)
         == done + Piece(raw[i], afterSep) + Collapse(raw[i + 1..], IsSeparator(raw[i]))
  {
    assert raw[i..][1..] == raw[i + 1..];
    assert Collapse(raw[i..], afterSep) == Piece(raw[i], afterSep) + Collapse(raw[i + 1..], IsSeparator(raw[i]));
  }

  /** `sanitize_server_name`: map, collapse with a flag, trim. */
  method SanitizeServerName(name: string, letters: char -> bool) returns (r: string)
    ensures r == Sanitized(name, letters)
  {
    var raw := SafeChars(name, letters);
    var collapsed := CollapseSeparators(raw);
    r := TrimEnd(TrimStart(collapsed));
  }

  method CollapseSeparators(raw: string) returns (collapsed: string)
    ensures collapsed == Collapse(raw, false)
  {
    collapsed := "";
    var prevWasSep := false;
    assert raw[0..] == raw;
    for i := 0 to |raw|
      invariant collapsed + Collapse(raw[i..], prevWasSep) == Collapse(raw, false)
    {
      CollapseStep(raw, i, prevWasSep, collapsed);
      if IsSeparator(raw[i]) {
        if !prevWasSep {
          collapsed := collapsed + "-";
        }
        prevWasSep := true;
      } else {
        collapsed := collapsed + [raw[i]];
        prevWasSep := false;
      }
    }
    assert raw[|raw|..] == "";
  }

  /** Characters a sanitised name may consist of. */
  predicate IsClean(c: char, letters: char -> bool) {
    c == '-' || (IsAlphanumeric(c, letters) && !('A' <= c <= 'Z'))
  }

  predicate NoDoubleHyphen(s: string) {
    forall i :: 0 <= i < |s| - 1 ==> s[i] != '-' || s[i + 1] != '-'
  }

  /** No underscore, no capital, nothing but letters, digits and single inner hyphens. */
  predicate Neat(s: string, letters: char -> bool) {
    && (forall c :: c in s ==> IsClean(c, letters))
    && NoDoubleHyphen(s)
    && (s != "" ==> s[0] != '-' && s[|s| - 1] != '-')
  }

  lemma {:induction false} CollapseNeat(raw: string, afterSep: bool, letters: char -> bool)
    requires forall c :: c in raw ==> c == '_' || IsClean(c, letters)
    ensures var s := Collapse(raw, afterSep);
      && (forall c :: c in s ==> IsClean(c, letters))
      && NoDoubleHyphen(s)
      && (afterSep && s != "" ==> s[0] != '-')
  {
    if raw != "" {
      assert raw[0] in raw;
      CollapseNeat(raw[1..], IsSeparator(raw[0]), letters);
    }
  }

  lemma {:induction false} TrimStartNeat(s: string)
    requires NoDoubleHyphen(s)
    ensures var r := TrimStart(s);
      && NoDoubleHyphen(r) && (r != "" ==> r[0] != '-')
      && (forall c :: c in r ==> c in s)
  {
    if s != "" && s[0] == '-' {
      TrimStartNeat(s[1..]);
    }
  }

  lemma {:induction false} TrimEndNeat(s: string)
    requires NoDoubleHyphen(s)
    ensures var r := TrimEnd(s);
      && NoDoubleHyphen(r) && (r != "" ==> r[|r| - 1] != '-')
      && (r != "" ==> s != "" && r[0] == s[0])
      && (forall c :: c in r ==> c in s)
  {
    if s != "" && s[|s| - 1] == '-' {
      TrimEndNeat(s[..|s| - 1]);
    }
  }

  /** Whatever the name, the result is neat. */
  lemma SanitizedIsNeat(name: string, letters: char -> bool)
    ensures Neat(Sanitized(name, letters), letters)
  {
    var raw := SafeChars(name, letters);
    CollapseNeat(raw, false, letters);
    TrimStartNeat(Collapse(raw, false));
    TrimEndNeat(TrimStart(Collapse(raw, false)));
  }

  lemma {:induction false} CollapseFixes(s: string, afterSep: bool, letters: char -> bool)
    requires forall c :: c in s ==> IsClean(c, letters)
    requires NoDoubleHyphen(s) && (afterSep && s != "" ==> s[0] != '-')
    ensures Collapse(s, afterSep) == s
  {
    if s != "" {
      assert s[0] in s && s == [s[0]] + s[1..];
      CollapseFixes(s[1..], IsSeparator(s[0]), letters);
    }
  }

  /** Exactly the neat names are left as they are. */
  lemma SanitizedFixes(s: string, letters: char -> bool)
    ensures Sanitized(s, letters) == s <==> Neat(s, letters)
  {
    SanitizedIsNeat(s, letters);
    if Neat(s, letters) {
      CleanStays(s, letters);
      CollapseFixes(s, false, letters);
    }
  }

  lemma CleanStays(s: string, letters: char -> bool)
    requires forall c :: c in s ==> IsClean(c, letters)
    ensures SafeChars(s, letters) == s
  {
    forall i | 0 <= i < |s|
      ensures SafeChar(s[i], letters) == s[i]
    {
      assert IsClean(s[i], letters);
    }
  }

  lemma SanitizeIdempotent(name: string, letters: char -> bool)
    ensures Sanitized(Sanitized(name, letters), letters) == Sanitized(name, letters)
  {
    SanitizedIsNeat(name, letters);
    SanitizedFixes(Sanitized(name, letters), letters);
  }

  // ------------------------------------------------------------------
  // What survives of a name
  // ------------------------------------------------------------------

  /** A capital becomes the small letter in its place of the alphabet. */
  function Lowered(c: char): char {
    if 'A' <= c <= 'Z' then ('a' as int + (c as int - 'A' as int)) as char else c
  }

  /** Digits, capitals and small letters by their ASCII codes; beyond ASCII as the parameter says. */
  predicate InWord(c: char, letters: char -> bool) {
    if c as int >= 128 then letters(c)
    else 48 <= c as int <= 57 || 65 <= c as int <= 90 || 97 <= c as int <= 122
  }

  /** The runs of letters and digits of a name, lowered, in order; `word` is what the current run has so far. */
  function Words(name: string, letters: char -> bool, word: string): (words: seq<string>)
    ensures forall w :: w in words ==> w != ""
    ensures word != "" ==> words != []
  {
    var before := if word == "" then [] else [word];
    if name == "" then before
    else if InWord(name[0], letters) then Words(name[1..], letters, word + [Lowered(name[0])])
    else before + Words(name[1..], letters, "")
  }

  function Hyphenated(words: seq<string>): string {
    if words == [] then ""
    else if |words| == 1 then words[0]
    else words[0] + "-" + Hyphenated(words[1..])
  }

  lemma {:induction false} TrimEndConcat(a: string, b: string)
    ensures TrimEnd(a + b) == if TrimEnd(b) != "" then a + TrimEnd(b) else TrimEnd(a)
    decreases |b|
  {
    if b == "" {
      assert a + b == a;
    } else {
      assert (a + b)[|a + b| - 1] == b[|b| - 1];
      if b[|b| - 1] == '-' {
        assert (a + b)[..|a + b| - 1] == a + b[..|b| - 1];
        TrimEndConcat(a, b[..|b| - 1]);
      }
    }
  }

  lemma SafeCharExactly(c: char, letters: char -> bool)
    ensures IsAlphanumeric(c, letters) == InWord(c, letters)
    ensures if IsAlphanumeric(c, letters) then SafeChar(c, letters) == Lowered(c) && !IsSeparator(Lowered(c))
            else IsSeparator(SafeChar(c, letters))
  {
  }

  lemma SafeCharsTail(name: string, letters: char -> bool)
    requires name != ""
    ensures SafeChars(name, letters)[0] == SafeChar(name[0], letters)
    ensures SafeChars(name, letters)[1..] == SafeChars(name[1..], letters)
  {
  }

  /** Between words: what follows a separator, trimmed at the end, is the remaining words. */
  lemma {:induction false} BetweenWords(name: string, letters: char -> bool)
    ensures TrimEnd(Collapse(SafeChars(name, letters), true)) == Hyphenated(Words(name, letters, ""))
    decreases |name|
  {
    if name != "" {
      SafeCharsTail(name, letters);
      SafeCharExactly(name[0], letters);
      if IsAlphanumeric(name[0], letters) {
        InsideWord(name[1..], letters, [Lowered(name[0])]);
        assert "" + [Lowered(name[0])] == [Lowered(name[0])];
      } else {
        BetweenWords(name[1..], letters);
        assert "" + Collapse(SafeChars(name[1..], letters), true) == Collapse(SafeChars(name[1..], letters), true);
        assert [] + Words(name[1..], letters, "") == Words(name[1..], letters, "");
      }
    }
  }

  /** Inside a word: it goes on to the next separator. */
  lemma {:induction false} InsideWord(name: string, letters: char -> bool, word: string)
    requires word != "" && !IsSeparator(word[|word| - 1])
    ensures TrimEnd(word + Collapse(SafeChars(name, letters), false)) == Hyphenated(Words(name, letters, word))
    decreases |name|
  {
    if name == "" {
      assert word + "" == word;
    } else {
      SafeCharsTail(name, letters);
      SafeCharExactly(name[0], letters);
      var rest := SafeChars(name[1..], letters);
      if IsAlphanumeric(name[0], letters) {
        var longer := word + [Lowered(name[0])];
        InsideWord(name[1..], letters, longer);
        assert word + ([Lowered(name[0])] + Collapse(rest, false)) == longer + Collapse(rest, false);
      } else {
        BetweenWords(name[1..], letters);
        EndOfWord(word, Collapse(rest, true), Words(name[1..], letters, ""));
        assert word + ("-" + Collapse(rest, true)) == word + "-" + Collapse(rest, true);
      }
    }
  }

  lemma EndOfWord(word: string, rest: string, words: seq<string>)
    requires word != "" && !IsSeparator(word[|word| - 1])
    requires TrimEnd(rest) == Hyphenated(words) && forall w :: w in words ==> w != ""
    ensures TrimEnd(word + "-" + rest) == Hyphenated([word] + words)
  {
    TrimEndConcat(word + "-", rest);
    TrimEndConcat(word, "-");
    assert "-"[..0] == "";
    if words != [] {
      assert words[0] in words;
      assert ([word] + words)[1..] == words;
    }
  }

  lemma TrimStartCollapsed(raw: string)
    ensures TrimStart(Collapse(raw, false)) == Collapse(raw, true)
  {
    if raw != "" && IsSeparator(raw[0]) {
      NoLeadingHyphen(raw[1..]);
      assert ("-" + Collapse(raw[1..], true))[1..] == Collapse(raw[1..], true);
      assert "" + Collapse(raw[1..], true) == Collapse(raw[1..], true);
    }
  }

  lemma {:induction false} NoLeadingHyphen(raw: string)
    ensures Collapse(raw, true) != "" ==> Collapse(raw, true)[0] != '-'
    ensures TrimStart(Collapse(raw, true)) == Collapse(raw, true)
  {
    if raw != "" && IsSeparator(raw[0]) {
      NoLeadingHyphen(raw[1..]);
      assert "" + Collapse(raw[1..], true) == Collapse(raw[1..], true);
    }
  }

  /** A sanitised name is the words of the name, in lower case, with one hyphen between neighbours. */
  lemma SanitizedExactly(name: string, letters: char -> bool)
    ensures Sanitized(name, letters) == Hyphenated(Words(name, letters, ""))
  {
    TrimStartCollapsed(SafeChars(name, letters));
    BetweenWords(name, letters);
  }

  // ------------------------------------------------------------------
  // Publishing a tool name and taking it apart
  // ------------------------------------------------------------------

  const MCP_TOOL_PREFIX := "mcp__"

  /** The name under which `to_openai_function` publishes a tool. */
  function Namespaced(server: string, tool: string): string {
    MCP_TOOL_PREFIX + server + "__" + tool
  }

  /** Where `str::split_once("__")` cuts: the first double underscore. */
  function DoubleUnderscore(s: string): (r: Option<nat>)
    ensures r.Some? ==> r.value + 2 <= |s| && s[r.value] == '_' && s[r.value + 1] == '_'
    ensures r.Some? ==> forall i :: 0 <= i < r.value ==> s[i] != '_' || s[i + 1] != '_'
    ensures r.None? ==> forall i :: 0 <= i < |s| - 1 ==> s[i] != '_' || s[i + 1] != '_'
  {
    if |s| < 2 then None
    else if s[0] == '_' && s[1] == '_' then Some(0)
    else
      match DoubleUnderscore(s[1..])
      case None => None
      case Some(i) => Some(i + 1)
  }

  /** `parse_mcp_tool_name`. */
  function ParseToolName(name: string): Option<(string, string)> {
    if !(MCP_TOOL_PREFIX <= name) then
      None
    else
      var stripped := name[|MCP_TOOL_PREFIX|..];
      match DoubleUnderscore(stripped)
      case None => None
      case Some(i) =>
        var server, tool := stripped[..i], stripped[i + 2..];
        if server == "" || tool == "" then None else Some((server, tool))
  }

  /** A server name the printed form can be read back from: not empty, no double underscore, none at the end. */
  predicate Readable(server: string) {
    server != "" && DoubleUnderscore(server + "_").None?
  }

  /** Printing and parsing undo each other exactly for readable servers and named tools. */
  lemma RoundTrip(server: string, tool: string)
    ensures Namespaced(server, tool) == "mcp__" + server + "__" + tool
    ensures ParseToolName("mcp__" + server + "__" + tool) == Some((server, tool)) <==> Readable(server) && tool != ""
  {
    var name := Namespaced(server, tool);
    var rest := server + "__" + tool;
    assert name[|MCP_TOOL_PREFIX|..] == rest;
    var edge := server + "_";
    assert forall i :: 0 <= i < |edge| ==> rest[i] == edge[i];
    assert rest[|server|] == '_' && rest[|server| + 1] == '_';
    var cut := DoubleUnderscore(rest).value;
    assert cut <= |server|;
    if Readable(server) {
      assert cut == |server|;
      assert rest[..|server|] == server && rest[|server| + 2..] == tool;
    } else if server != "" {
      var i := DoubleUnderscore(edge).value;
      assert rest[i] == '_' && rest[i + 1] == '_';
      assert |rest[..cut]| < |server|;
    }
  }

  /** What parses was printed: reading a name and printing it again gives the name. */
  lemma ParsePrints(name: string)
    requires ParseToolName(name).Some?
    ensures var (server, tool) := ParseToolName(name).value;
      Namespaced(server, tool) == name && Readable(server) && tool != ""
  {
    var stripped := name[|MCP_TOOL_PREFIX|..];
    var i := DoubleUnderscore(stripped).value;
    var server, tool := stripped[..i], stripped[i + 2..];
    assert stripped == server + "__" + tool;
    assert name == Namespaced(server, tool);
    RoundTrip(server, tool);
  }

  /** Different (server, tool) pairs never share a published name. */
  lemma NamesAreInjective(server: string, tool: string, server': string, tool': string)
    requires Readable(server) && Readable(server') && tool != "" && tool' != ""
    requires Namespaced(server, tool) == Namespaced(server', tool')
    ensures server == server' && tool == tool'
  {
    RoundTrip(server, tool);
    RoundTrip(server', tool');
  }

  /** Sanitised names that are not empty are readable. */
  lemma SanitizedIsReadable(name: string, letters: char -> bool)
    ensures Sanitized(name, letters) != "" ==> Readable(Sanitized(name, letters))
  {
    SanitizedIsNeat(name, letters);
    var s := Sanitized(name, letters);
    forall i | 0 <= i < |s|
      ensures s[i] != '_'
    {
      assert s[i] in s && IsClean(s[i], letters);
    }
    NoUnderscoreIsReadable(s);
  }

  lemma NoUnderscoreIsReadable(s: string)
    requires forall i :: 0 <= i < |s| ==> s[i] != '_'
    ensures s != "" ==> Readable(s)
  {
    var edge := s + "_";
    assert forall i :: 0 <= i < |edge| - 1 ==> edge[i] == s[i];
  }
}
