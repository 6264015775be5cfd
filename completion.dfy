/** The accumulation loop of `call_ollama` (app.py:47-66). The HTTP request,
    UTF-8 decoding and JSON parsing are not modelled: the service's reply
    arrives as lines already classified by what the loop does with them. */
module Completion {
  import opened Wrappers
  import opened Strings

  /** One line of the streamed reply, classified by how the loop treats it. */
  datatype Line =
    /** An empty line, skipped before any decoding (app.py:56-57). */
    | Blank
    /** Any other line, which adds nothing to the output (app.py:58-65):
        bytes that are not UTF-8 or text that is not JSON (these raise and
        are logged), JSON that is not an object (the membership test is
        false, or it or the lookup raises, as for a number), or an object
        whose "response" is not a string (the append raises). */
    | Malformed
    /** A decoded JSON object, with the text of its "response" field when it
        has one (app.py:62-63). */
    | Object(response: Option<string>)

  /** What the service answers to one request: the lines of its streamed
      reply, or the error of a request that failed to connect or returned a
      non-success status (app.py:52-53). */
  type Reply = Result<seq<Line>, string>

  /** The generation service: the reply to the request numbered `call`
      (counting from 0) whose prompt is the given string. */
  type Service = (nat, string) -> Reply

  /** What one line adds to the output. */
  function Piece(line: Line): string {
    match line
    case Object(Some(text)) => text
    case _ => ""
  }

  /** The accumulated output of a stream, before trimming: the pieces of its
      lines in order. */
  function ResponseText(lines: seq<Line>): string {
    if lines == [] then ""
    else ResponseText(lines[..|lines| - 1]) + Piece(lines[|lines| - 1])
  }

  /** The "response" texts of the lines that carry one, in order: an
      independent description of what the loop keeps. */
  function Responses(lines: seq<Line>): seq<string> {
    if lines == [] then []
    else if lines[0].Object? && lines[0].response.Some? then
      [lines[0].response.value] + Responses(lines[1..])
    else Responses(lines[1..])
  }

  /** The stream's output is a fold over its lines: the output of two parts
      of a stream is the output of the first followed by that of the second. */
  lemma {:induction false} ResponseTextAppend(a: seq<Line>, b: seq<Line>)
    ensures ResponseText(a + b) == ResponseText(a) + ResponseText(b)
    decreases |b|
  {
    if b == [] {
      assert a + b == a;
    } else {
      assert (a + b)[..|a + b| - 1] == a + b[..|b| - 1];
      ResponseTextAppend(a, b[..|b| - 1]);
    }
  }

  /** The output is exactly the "response" texts of the stream, concatenated
      in the order they arrived. */
  lemma {:induction false} ResponseTextIsResponses(lines: seq<Line>)
    ensures ResponseText(lines) == Concat(Responses(lines))
  {
    if lines != [] {
      ResponseTextAppend([lines[0]], lines[1..]);
      assert [lines[0]] + lines[1..] == lines;
      assert ResponseText([lines[0]]) == ResponseText([]) + Piece(lines[0]);
      ResponseTextIsResponses(lines[1..]);
      if lines[0].Object? && lines[0].response.Some? {
        ConcatCons(lines[0].response.value, Responses(lines[1..]));
      }
    }
  }

  /** A blank line, a malformed line or an object without "response"
      anywhere in the stream neither changes the output nor stops the loop. */
  lemma SkippedLineIgnored(a: seq<Line>, line: Line, b: seq<Line>)
    requires !(line.Object? && line.response.Some?)
    ensures ResponseText(a + [line] + b) == ResponseText(a + b)
  {
    ResponseTextAppend(a + [line], b);
    ResponseTextAppend(a, b);
    assert (a + [line])[..|a + [line]| - 1] == a;
  }

  /** The loop of `call_ollama` over the lines of a successful reply
      (app.py:54-66): append every "response" text, skip the rest, and trim
      the result. */
  method Accumulate(lines: seq<Line>) returns (output: string)
    ensures output == Strip(ResponseText(lines))
  {
    var fullOutput := "";
    for i := 0 to |lines|
      invariant fullOutput == ResponseText(lines[..i])
    {
      assert lines[..i + 1][..i] == lines[..i];
      match lines[i]
      case Blank =>
      case Malformed =>
      case Object(response) =>
        if response.Some? {
          fullOutput := fullOutput + response.value;
        }
    }
    assert lines[..|lines|] == lines;
    output := Strip(fullOutput);
  }

  /** The outcome of one completion call: the trimmed output of the stream, or
      the request's error. */
  function Outcome(reply: Reply): Result<string, string> {
    match reply
    case Success(lines) => Success(Strip(ResponseText(lines)))
    case Failure(e) => Failure(e)
  }

  /** A successful call returns text without surrounding whitespace, made of
      the "response" texts in arrival order; a failed request returns its
      error unchanged. */
  lemma OutcomeMeaning(reply: Reply)
    ensures reply.Failure? ==> Outcome(reply) == Failure(reply.error)
    ensures reply.Success? ==>
      && Outcome(reply) == Success(Strip(Concat(Responses(reply.value))))
      && Strip(Outcome(reply).value) == Outcome(reply).value
  {
    if reply.Success? {
      ResponseTextIsResponses(reply.value);
      StripIdempotent(ResponseText(reply.value));
    }
  }

  /** `call_ollama(prompt)` (app.py:47-66) as the `call`-th request to the
      service: a failed request propagates its error, a successful one yields
      the trimmed accumulation of its stream. */
  method CallOllama(service: Service, call: nat, prompt: string) returns (r: Result<string, string>)
    ensures r == Outcome(service(call, prompt))
    ensures r.Success? ==> service(call, prompt).Success? && r.value == Strip(ResponseText(service(call, prompt).value))
  {
    var reply := service(call, prompt);
    if reply.Failure? {
      return Failure(reply.error);
    }
    var output := Accumulate(reply.value);
    return Success(output);
  }
}
