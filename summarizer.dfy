/** `summarize_long_text_iterative` (app.py:68-99): split the text into
    chunks, ask the service for a summary of each, and, when there is more
    than one chunk, ask it once more to merge the labelled chunk summaries. */
module Summarizer {
  import opened Wrappers
  import opened Strings
  import opened Chunker
  import opened Completion

  /** The window size the summarizer passes to the chunker (app.py:74). */
  const MaxChunkChars: nat := 3000

  /** The instruction that opens every chunk request (app.py:78). */
  const ChunkInstruction: string :=
    "Summarize the following text concisely (one paragraph) keeping key points and facts. "

  /** The instruction that opens the merge request (app.py:94-95). */
  const MergeInstruction: string :=
    "You are an expert summarizer. Given the following chunk summaries, produce a single concise "
    + "and coherent summary in 3-6 sentences containing the most important points.\n\n"

  /** The request for the summary of chunk `i` of `total` (app.py:77-80). */
  function ChunkPrompt(i: nat, total: nat, chunk: string): string {
    ChunkInstruction + "Chunk " + Decimal(i) + " of " + Decimal(total) + ":\n\n" + chunk + "\n\nSummary:"
  }

  /** What stands in for the summary of a chunk whose request failed (app.py:83-84). */
  function ErrorMarker(error: string): string {
    "[ERROR: " + error + "]"
  }

  /** The summary kept for one chunk: the service's text, or the error
      marker, trimmed (app.py:81-85). */
  function ChunkSummary(outcome: Result<string, string>): string {
    match outcome
    case Success(text) => Strip(text)
    case Failure(e) => Strip(ErrorMarker(e))
  }

  /** The chunk requests, in order: chunk `k` is labelled `k + 1` of `|chunks|`. */
  function ChunkPrompts(chunks: seq<string>): (prompts: seq<string>)
    ensures |prompts| == |chunks|
  {
    seq(|chunks|, k requires 0 <= k < |chunks| => ChunkPrompt(k + 1, |chunks|, chunks[k]))
  }

  lemma PromptsStep(chunks: seq<string>, i: nat)
    requires i < |chunks|
    ensures ChunkPrompts(chunks)[..i + 1] == ChunkPrompts(chunks)[..i] + [ChunkPrompt(i + 1, |chunks|, chunks[i])]
  {
    PrefixStep(ChunkPrompts(chunks), i);
  }

  /** The summaries of all chunks, in order: chunk `k` is the `k`-th request
      and is labelled `k + 1` of `|chunks|`. */
  function SummariesOf(service: Service, chunks: seq<string>): (sums: seq<string>)
    ensures |sums| == |chunks|
  {
    seq(|chunks|, k requires 0 <= k < |chunks| =>
      ChunkSummary(Outcome(service(k, ChunkPrompt(k + 1, |chunks|, chunks[k])))))
  }

  lemma SummariesStep(service: Service, chunks: seq<string>, i: nat)
    requires i < |chunks|
    ensures SummariesOf(service, chunks)[..i + 1] == SummariesOf(service, chunks)[..i]
      + [ChunkSummary(Outcome(service(i, ChunkPrompt(i + 1, |chunks|, chunks[i]))))]
  {
    PrefixStep(SummariesOf(service, chunks), i);
  }

  lemma PrefixStep<T>(s: seq<T>, i: nat)
    requires i < |s|
    ensures s[..i + 1] == s[..i] + [s[i]]
  {
  }

  /** One line of the merge request (app.py:92). */
  function SummaryLine(number: nat, summary: string): string {
    "Chunk " + Decimal(number) + ": " + summary
  }

  /** `"\n".join(lines)`. */
  function Joined(lines: seq<string>): string {
    if |lines| == 0 then ""
    else if |lines| == 1 then lines[0]
    else lines[0] + "\n" + Joined(lines[1..])
  }

  /** The chunk summaries, each labelled with its chunk number counted from 1,
      one per line (app.py:92). */
  function Combined(sums: seq<string>): string {
    Joined(seq(|sums|, k requires 0 <= k < |sums| => SummaryLine(k + 1, sums[k])))
  }

  /** The request that merges the chunk summaries (app.py:93-97). */
  function MergePrompt(sums: seq<string>): string {
    MergeInstruction + Combined(sums) + "\n\nFinal summary:"
  }

  /** The prompts sent for a text that splits into `chunks`, in the order they
      are sent: one per chunk, then the merge request unless there is exactly
      one chunk. */
  function Requests(service: Service, chunks: seq<string>): seq<string> {
    ChunkPrompts(chunks) + (if |chunks| == 1 then [] else [MergePrompt(SummariesOf(service, chunks))])
  }

  /** The result of summarizing `text`: the only chunk summary when there is
      one chunk; otherwise the trimmed answer to the merge request, sent as
      request number `|chunks|`, whose failure is the failure of the whole. */
  function Summary(service: Service, text: string): Result<string, string> {
    SummaryOf(service, ChunkSpec(text, MaxChunkChars))
  }

  /** The result of summarizing a text that splits into `chunks`. */
  function SummaryOf(service: Service, chunks: seq<string>): Result<string, string> {
    var sums := SummariesOf(service, chunks);
    if |sums| == 1 then Success(sums[0])
    else
      match Outcome(service(|chunks|, MergePrompt(sums)))
      case Success(t) => Success(Strip(t))
      case Failure(e) => Failure(e)
  }

  /** `summarize_long_text_iterative(text)` (app.py:68-99). The service is
      called once per chunk, in chunk order, and then once for the merge when
      there is more than one chunk; `calls` is the ghost log of the prompts
      it was sent. A failed chunk request is absorbed as an error marker; a
      failed merge request is the method's failure. */
  method SummarizeLongText(service: Service, text: string)
    returns (result: Result<string, string>, ghost calls: seq<string>)
    ensures result == Summary(service, text)
    ensures calls == Requests(service, ChunkSpec(text, MaxChunkChars))
  {
    var chunks := ChunkText(text, MaxChunkChars);
    result, calls := SummarizeChunks(service, chunks);
  }

  /** Steps 2 and 3 of `summarize_long_text_iterative` (app.py:75-99): one
      request per chunk, in order, each failure replaced by its error marker,
      then the merge request unless there is exactly one chunk. */
  method SummarizeChunks(service: Service, chunks: seq<string>)
    returns (result: Result<string, string>, ghost calls: seq<string>)
    ensures result == SummaryOf(service, chunks)
    ensures calls == Requests(service, chunks)
  {
    var summaries: seq<string> := [];
    calls := [];
    for i := 0 to |chunks|
      invariant |summaries| == i && |calls| == i
      invariant calls == ChunkPrompts(chunks)[..i]
      invariant summaries == SummariesOf(service, chunks)[..i]
    {
      var prompt := ChunkPrompt(i + 1, |chunks|, chunks[i]);
      var outcome := CallOllama(service, i, prompt);
      calls := calls + [prompt];
      var summary;
      match outcome {
        case Success(text) => summary := text;
        case Failure(e) => summary := ErrorMarker(e);
      }
      ChunkStep(service, chunks, i, summaries, calls, outcome, summary);
      summaries := summaries + [Strip(summary)];
    }
    assert summaries == SummariesOf(service, chunks);
    if |summaries| == 1 {
      return Success(summaries[0]), calls;
    }
    var finalPrompt := MergePrompt(summaries);
    var outcome := CallOllama(service, |chunks|, finalPrompt);
    calls := calls + [finalPrompt];
    match outcome {
      case Success(finalSummary) => result := Success(Strip(finalSummary));
      case Failure(e) => result := Failure(e);
    }
  }

  /** One iteration of the per-chunk loop extends both the summaries and the
      prompts sent by the entry for chunk `i`. */
  lemma ChunkStep(service: Service, chunks: seq<string>, i: nat,
                  summaries: seq<string>, calls: seq<string>,
                  outcome: Result<string, string>, summary: string)
    requires i < |chunks|
    requires summaries == SummariesOf(service, chunks)[..i]
    requires calls == ChunkPrompts(chunks)[..i] + [ChunkPrompt(i + 1, |chunks|, chunks[i])]
    requires outcome == Outcome(service(i, ChunkPrompt(i + 1, |chunks|, chunks[i])))
    requires outcome.Success? ==> summary == outcome.value
    requires outcome.Failure? ==> summary == ErrorMarker(outcome.error)
    ensures summaries + [Strip(summary)] == SummariesOf(service, chunks)[..i + 1]
    ensures calls == ChunkPrompts(chunks)[..i + 1]
  {
    ChunkSummaryCases(outcome);
    SummariesStep(service, chunks, i);
    PromptsStep(chunks, i);
  }

  // Properties of the prompts and of the summaries

  /** The kept summary of a chunk is exactly what the service answered when
      its request succeeded, and exactly the error marker when it failed:
      trimming changes neither. */
  lemma ChunkSummaryCases(outcome: Result<string, string>)
    ensures outcome.Success? ==> ChunkSummary(outcome) == Strip(outcome.value)
    ensures outcome.Failure? ==> ChunkSummary(outcome) == ErrorMarker(outcome.error)
  {
    if outcome.Failure? {
      var m := ErrorMarker(outcome.error);
      assert m[0] == '[' && m[|m| - 1] == ']';
      StripUnchanged(m);
    }
  }

  /** A successful chunk request contributes the service's output unchanged. */
  lemma ChunkSummaryOfReply(reply: Reply)
    ensures reply.Success? ==> ChunkSummary(Outcome(reply)) == Strip(ResponseText(reply.value))
    ensures reply.Failure? ==> ChunkSummary(Outcome(reply)) == ErrorMarker(reply.error)
  {
    ChunkSummaryCases(Outcome(reply));
    if reply.Success? {
      StripIdempotent(ResponseText(reply.value));
    }
  }

  /** Every chunk request names its position and the chunk count, and carries
      the whole chunk. */
  lemma ChunkPromptMentions(i: nat, total: nat, chunk: string)
    ensures Contains(ChunkPrompt(i, total, chunk), "Chunk " + Decimal(i) + " of " + Decimal(total) + ":")
    ensures Contains(ChunkPrompt(i, total, chunk), chunk)
  {
    var head := ChunkInstruction;
    var tag := "Chunk " + Decimal(i) + " of " + Decimal(total) + ":";
    var p := ChunkPrompt(i, total, chunk);
    assert p == head + tag + ("\n\n" + chunk + "\n\nSummary:");
    ContainsMiddle(head, tag, "\n\n" + chunk + "\n\nSummary:");
    assert p == (head + tag + "\n\n") + chunk + "\n\nSummary:";
    ContainsMiddle(head + tag + "\n\n", chunk, "\n\nSummary:");
  }

  /** Joining is compatible with concatenation: the lines of `a` come first,
      then one separator, then the lines of `b`. */
  lemma {:induction false} JoinedAppend(a: seq<string>, b: seq<string>)
    requires a != [] && b != []
    ensures Joined(a + b) == Joined(a) + "\n" + Joined(b)
    decreases |a|
  {
    assert (a + b)[0] == a[0];
    if |a| == 1 {
      assert (a + b)[1..] == b;
    } else {
      assert (a + b)[1..] == a[1..] + b;
      JoinedAppend(a[1..], b);
      calc {
        Joined(a + b);
        a[0] + "\n" + Joined(a[1..] + b);
        a[0] + "\n" + (Joined(a[1..]) + "\n" + Joined(b));
        (a[0] + "\n" + Joined(a[1..])) + "\n" + Joined(b);
      }
    }
  }

  /** Every line appears in the joined text. */
  lemma {:induction false} JoinedContains(lines: seq<string>, k: nat)
    requires k < |lines|
    ensures Contains(Joined(lines), lines[k])
    decreases k
  {
    if |lines| == 1 {
      assert Joined(lines) == lines[0] + [];
      ContainsPrefix(lines[0], []);
    } else {
      var rest := Joined(lines[1..]);
      assert Joined(lines) == lines[0] + ("\n" + rest);
      if k == 0 {
        ContainsPrefix(lines[0], "\n" + rest);
      } else {
        JoinedContains(lines[1..], k - 1);
        assert Joined(lines) == (lines[0] + "\n") + rest;
        ContainsSuffix(lines[0] + "\n", rest);
        ContainsTransitive(Joined(lines), rest, lines[k]);
      }
    }
  }

  /** The merge request lists every chunk summary, under its chunk number. */
  lemma MergePromptLists(sums: seq<string>, k: nat)
    requires k < |sums|
    ensures Contains(MergePrompt(sums), SummaryLine(k + 1, sums[k]))
  {
    var lines := seq(|sums|, j requires 0 <= j < |sums| => SummaryLine(j + 1, sums[j]));
    JoinedContains(lines, k);
    var head := MergeInstruction;
    assert MergePrompt(sums) == head + Joined(lines) + "\n\nFinal summary:";
    ContainsMiddle(head, Joined(lines), "\n\nFinal summary:");
    ContainsTransitive(MergePrompt(sums), Joined(lines), lines[k]);
  }

  /** The labelled summaries appear in chunk order: the combined text of a
      split list is the combined text of its first part, a line break, and
      the second part labelled from where the first stopped. */
  lemma CombinedInOrder(a: seq<string>, b: seq<string>)
    requires a != [] && b != []
    ensures Combined(a + b) ==
      Combined(a) + "\n" + Joined(seq(|b|, j requires 0 <= j < |b| => SummaryLine(|a| + j + 1, b[j])))
  {
    var s := a + b;
    var all := seq(|s|, j requires 0 <= j < |s| => SummaryLine(j + 1, s[j]));
    var la := seq(|a|, j requires 0 <= j < |a| => SummaryLine(j + 1, a[j]));
    var lb := seq(|b|, j requires 0 <= j < |b| => SummaryLine(|a| + j + 1, b[j]));
    assert all == la + lb;
    JoinedAppend(la, lb);
  }

  /** A chunk whose request failed is not dropped: when there is more than
      one chunk, the merge request still carries its error marker under its
      chunk number. */
  lemma FailedChunkStillListed(service: Service, chunks: seq<string>, k: nat)
    requires k < |chunks| && |chunks| != 1
    requires service(k, ChunkPrompt(k + 1, |chunks|, chunks[k])).Failure?
    ensures Contains(Requests(service, chunks)[|chunks|],
      SummaryLine(k + 1, ErrorMarker(service(k, ChunkPrompt(k + 1, |chunks|, chunks[k])).error)))
  {
    var sums := SummariesOf(service, chunks);
    var reply := service(k, ChunkPrompt(k + 1, |chunks|, chunks[k]));
    ChunkSummaryOfReply(reply);
    assert sums[k] == ErrorMarker(reply.error);
    MergePromptLists(sums, k);
    assert Requests(service, chunks)[|chunks|] == MergePrompt(sums);
  }

  /** What is sent first: one request per chunk, in chunk order, each naming
      the chunk's position and the chunk count and carrying the whole chunk;
      one more request follows exactly when there is not exactly one chunk. */
  lemma ChunkRequests(service: Service, chunks: seq<string>)
    ensures |Requests(service, chunks)| == |chunks| + (if |chunks| == 1 then 0 else 1)
    ensures forall k :: 0 <= k < |chunks| ==>
      && Requests(service, chunks)[k] == ChunkPrompt(k + 1, |chunks|, chunks[k])
      && Contains(Requests(service, chunks)[k], chunks[k])
      && Contains(Requests(service, chunks)[k], "Chunk " + Decimal(k + 1) + " of " + Decimal(|chunks|) + ":")
  {
    var requests := Requests(service, chunks);
    forall k | 0 <= k < |chunks|
      ensures requests[k] == ChunkPrompt(k + 1, |chunks|, chunks[k])
      ensures Contains(requests[k], chunks[k])
      ensures Contains(requests[k], "Chunk " + Decimal(k + 1) + " of " + Decimal(|chunks|) + ":")
    {
      assert requests[k] == ChunkPrompts(chunks)[k];
      ChunkPromptMentions(k + 1, |chunks|, chunks[k]);
    }
  }

  /** With more than one chunk (or none), the last request is the merge
      request, and it lists every chunk summary under its chunk number. */
  lemma MergeRequest(service: Service, chunks: seq<string>)
    requires |chunks| != 1
    ensures Requests(service, chunks)[|chunks|] == MergePrompt(SummariesOf(service, chunks))
    ensures forall k :: 0 <= k < |chunks| ==>
      Contains(Requests(service, chunks)[|chunks|], SummaryLine(k + 1, SummariesOf(service, chunks)[k]))
  {
    var sums := SummariesOf(service, chunks);
    assert Requests(service, chunks)[|chunks|] == MergePrompt(sums);
    forall k | 0 <= k < |chunks|
      ensures Contains(MergePrompt(sums), SummaryLine(k + 1, sums[k]))
    {
      MergePromptLists(sums, k);
    }
  }

  /** Failed chunk requests never make the summary fail: it fails exactly
      when there is more than one chunk and the merge request fails, and then
      with that request's error. */
  lemma OnlyMergeFailureFails(service: Service, chunks: seq<string>)
    ensures var merge := service(|chunks|, MergePrompt(SummariesOf(service, chunks)));
      SummaryOf(service, chunks).Failure? <==> |chunks| != 1 && merge.Failure?
    ensures var merge := service(|chunks|, MergePrompt(SummariesOf(service, chunks)));
      SummaryOf(service, chunks).Failure? ==> SummaryOf(service, chunks).error == merge.error
  {
  }

  /** A text whose normalised form fits in one window is summarized by a
      single request, over the trimmed text labelled as chunk 1 of 1, and its
      answer (or its error marker) is the result. */
  lemma ShortTextSingleRequest(service: Service, text: string)
    requires |Normalize(text)| <= MaxChunkChars
    ensures Requests(service, ChunkSpec(text, MaxChunkChars)) == [ChunkPrompt(1, 1, Strip(Normalize(text)))]
    ensures Summary(service, text) ==
      Success(ChunkSummary(Outcome(service(0, ChunkPrompt(1, 1, Strip(Normalize(text)))))))
  {
    SingleWindow(text, MaxChunkChars);
  }

  /** A successful summary never has surrounding whitespace. */
  lemma SummaryTrimmed(service: Service, chunks: seq<string>)
    requires SummaryOf(service, chunks).Success?
    ensures Strip(SummaryOf(service, chunks).value) == SummaryOf(service, chunks).value
  {
    var sums := SummariesOf(service, chunks);
    if |sums| == 1 {
      var outcome := Outcome(service(0, ChunkPrompt(1, |chunks|, chunks[0])));
      ChunkSummaryCases(outcome);
      match outcome {
        case Success(t) => StripIdempotent(t);
        case Failure(e) =>
          var m := ErrorMarker(e);
          assert m[0] == '[' && m[|m| - 1] == ']';
          StripUnchanged(m);
      }
    } else {
      var reply := Outcome(service(|chunks|, MergePrompt(sums)));
      StripIdempotent(reply.value);
    }
  }
}
