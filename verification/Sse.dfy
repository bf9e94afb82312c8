/**
 Redaction of one chunk of a server-sent event stream, line by line.

 The sanitisers are parameters. `json` gives the redacted serialisation of a
 payload that parses as JSON and contains something to redact; `text` gives
 the redacted payload when plain scanning finds something.
 */
module Sse {
  import opened Options
  import opened Text

  datatype Sanitizers = Sanitizers(json: string -> Option<string>, text: string -> Option<string>)

  /** Redaction never introduces a line break. */
  ghost predicate KeepsLines(z: Sanitizers) {
    && (forall p :: '\n' !in p && z.json(p).Some? ==> '\n' !in z.json(p).value)
    && (forall p :: '\n' !in p && z.text(p).Some? ==> '\n' !in z.text(p).value)
  }

  const DATA := "data: "
  const DONE := "[DONE]"

  /** The replacement for a line, if there is one. */
  function Replacement(z: Sanitizers, line: string): Option<string> {
    if !(DATA <= line) || line[|DATA|..] == DONE then None
    else
      var payload := line[|DATA|..];
      match z.json(payload)
      case Some(redacted) => Some(DATA + redacted)
      case None =>
        match z.text(payload)
        case Some(redacted) => Some(DATA + redacted)
        case None => None
  }

  function RedactedLine(z: Sanitizers, line: string): string {
    match Replacement(z, line) case Some(r) => r case None => line
  }

  function RedactedLines(z: Sanitizers, lines: seq<string>): (r: seq<string>)
    ensures |r| == |lines|
  {
    seq(|lines|, i requires 0 <= i < |lines| => RedactedLine(z, lines[i]))
  }

  function Lines(chunk: string): (lines: seq<string>)
    ensures |lines| >= 1
  {
    Split(chunk, '\n')
  }

  /** The redacted chunk. */
  function RedactedChunk(z: Sanitizers, chunk: string): string {
    Join(RedactedLines(z, Lines(chunk)), '\n')
  }

  lemma {:induction false} JoinSnoc(parts: seq<string>, last: string, c: char)
    requires |parts| >= 1
    ensures Join(parts + [last], c) == Join(parts, c) + [c] + last
  {
    JoinConcat(parts, [last], c);
  }

  /** What one line contributes to the output, and whether it was redacted. */
  method RedactOneLine(z: Sanitizers, line: string) returns (out: string, redacted: bool)
    ensures out == RedactedLine(z, line)
    ensures redacted <==> Replacement(z, line).Some?
  {
    if DATA <= line {
      var payload := line[|DATA|..];
      if payload == DONE {
        return line, false;
      }
      var json := z.json(payload);
      if json.Some? {
        return DATA + json.value, true;
      }
      var text := z.text(payload);
      if text.Some? {
        return DATA + text.value, true;
      }
    }
    return line, false;
  }

  /** `redact_sse_chunk`. */
  method RedactSseChunk(z: Sanitizers, chunk: string) returns (output: string, redactedAny: bool)
    ensures output == RedactedChunk(z, chunk)
    ensures redactedAny <==> exists i :: 0 <= i < |Lines(chunk)| && Replacement(z, Lines(chunk)[i]).Some?
  {
    output, redactedAny := "", false;
    var first := true;
    var lines := Split(chunk, '\n');
    ghost var done: seq<string> := [];
    for i := 0 to |lines|
      invariant first <==> i == 0
      invariant |done| == i && forall j :: 0 <= j < i ==> done[j] == RedactedLine(z, lines[j])
      invariant if i == 0 then output == "" else output == Join(done, '\n')
      invariant redactedAny <==> exists j :: 0 <= j < i && Replacement(z, lines[j]).Some?
    {
      var out, redacted := RedactOneLine(z, lines[i]);
      if !first {
        JoinSnoc(done, out, '\n');
        output := output + ['\n'];
      }
      output := output + out;
      first := false;
      done := done + [out];
      redactedAny := redactedAny || redacted;
    }
    assert done == RedactedLines(z, lines);
  }

  /** The chunk keeps its framing: the lines of the output are the lines of the input, each redacted for itself. */
  lemma FramingKept(z: Sanitizers, chunk: string)
    requires KeepsLines(z)
    ensures Lines(RedactedChunk(z, chunk)) == RedactedLines(z, Lines(chunk))
  {
    var lines := Lines(chunk);
    var done := RedactedLines(z, lines);
    forall l | l in done
      ensures '\n' !in l
    {
      var i :| 0 <= i < |done| && done[i] == l;
      assert lines[i] in lines;
      LineStaysOneLine(z, lines[i]);
    }
    SplitOfJoin(done, '\n');
  }

  lemma LineStaysOneLine(z: Sanitizers, line: string)
    requires KeepsLines(z) && '\n' !in line
    ensures '\n' !in RedactedLine(z, line)
  {
    if DATA <= line {
      var payload := line[|DATA|..];
      assert '\n' !in payload;
    }
  }

  /** Lines that carry no data, and the end marker, pass through; data lines stay data lines. */
  lemma LinesKeepTheirKind(z: Sanitizers, chunk: string, i: nat)
    requires KeepsLines(z) && i < |Lines(chunk)|
    ensures var out := Lines(RedactedChunk(z, chunk));
      && |out| == |Lines(chunk)|
      && (DATA <= out[i] <==> DATA <= Lines(chunk)[i])
      && (!(DATA <= Lines(chunk)[i]) || Lines(chunk)[i] == DATA + DONE ==> out[i] == Lines(chunk)[i])
  {
    FramingKept(z, chunk);
  }

  /**
   Which sanitiser rewrites which line. Lines without the data prefix and the
   end marker are not looked at; a payload goes to the JSON sanitiser first, and
   to the plain-text one when that has found nothing, or no JSON.
   */
  lemma LineExactly(z: Sanitizers, line: string)
    ensures !("data: " <= line) || line == "data: [DONE]" ==>
      RedactedLine(z, line) == line && Replacement(z, line) == None
    ensures forall payload :: line == "data: " + payload && payload != "[DONE]" ==>
      && (Replacement(z, line).Some? <==> z.json(payload).Some? || z.text(payload).Some?)
      && RedactedLine(z, line) == match (z.json(payload), z.text(payload))
         case (Some(redacted), _) => "data: " + redacted
         case (None, Some(redacted)) => "data: " + redacted
         case (None, None) => line
  {
    forall payload | line == "data: " + payload
      ensures line[|DATA|..] == payload && DATA <= line
    {
    }
    assert "data: [DONE]"[|DATA|..] == DONE;
  }

  /** When no line has a replacement, the chunk comes out as it went in. */
  lemma NothingToRedact(z: Sanitizers, chunk: string)
    requires forall i :: 0 <= i < |Lines(chunk)| ==> Replacement(z, Lines(chunk)[i]).None?
    ensures RedactedChunk(z, chunk) == chunk
  {
    assert RedactedLines(z, Lines(chunk)) == Lines(chunk);
  }

  /** Cutting a stream at a line break makes no difference to what is redacted. */
  lemma CutAtLineBreak(z: Sanitizers, a: string, b: string)
    ensures RedactedChunk(z, a + ['\n'] + b) == RedactedChunk(z, a) + ['\n'] + RedactedChunk(z, b)
  {
    SplitConcat(a, b, '\n');
    RedactedConcat(z, Lines(a), Lines(b));
    JoinConcat(RedactedLines(z, Lines(a)), RedactedLines(z, Lines(b)), '\n');
  }

  lemma RedactedConcat(z: Sanitizers, a: seq<string>, b: seq<string>)
    ensures RedactedLines(z, a + b) == RedactedLines(z, a) + RedactedLines(z, b)
  {
  }
}
