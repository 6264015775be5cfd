/** `chunk_text` (app.py): normalise line breaks, then cut the text into
    windows of at most `maxChars` characters, preferring to cut just after the
    last '.' of the window, else after its last ';', else one character past
    the window. */
module Chunker {
  import opened Strings

  /** Python's `s.replace("\r\n", " ")`: every carriage-return/line-feed pair,
      scanned left to right, becomes one space. */
  function ReplaceCrLf(s: string): (r: string)
    ensures |r| <= |s|
  {
    if |s| >= 2 && s[0] == '\r' && s[1] == '\n' then " " + ReplaceCrLf(s[2..])
    else if s == [] then []
    else [s[0]] + ReplaceCrLf(s[1..])
  }

  /** Python's `s.replace("\n", " ")`: each line feed becomes a space and
      nothing else moves. */
  function ReplaceLf(s: string): (r: string)
    ensures |r| == |s|
    ensures forall k :: 0 <= k < |s| ==> r[k] == (if s[k] == '\n' then ' ' else s[k])
  {
    if s == [] then [] else [if s[0] == '\n' then ' ' else s[0]] + ReplaceLf(s[1..])
  }

  /** The normalisation `chunk_text` applies before splitting (app.py:26). */
  function Normalize(text: string): (n: string)
    ensures '\n' !in n
    ensures |n| <= |text|
  {
    ReplaceLf(ReplaceCrLf(text))
  }

  /** Text without line feeds is left as it is: in particular a carriage
      return that is not followed by a line feed survives normalisation. */
  lemma {:induction false} NormalizeWithoutLineFeed(text: string)
    requires '\n' !in text
    ensures Normalize(text) == text
  {
    ReplaceCrLfWithoutLineFeed(text);
  }

  lemma {:induction false} ReplaceCrLfWithoutLineFeed(s: string)
    requires '\n' !in s
    ensures ReplaceCrLf(s) == s
  {
    if s != [] {
      ReplaceCrLfWithoutLineFeed(s[1..]);
    }
  }

  /** Each carriage-return/line-feed pair becomes exactly one space, wherever
      it stands, and the text on either side is normalised on its own: a
      carriage return just before the pair cannot join it. */
  lemma NormalizeCrLf(a: string, b: string)
    ensures Normalize(a + "\r\n" + b) == Normalize(a) + " " + Normalize(b)
  {
    ReplaceCrLfAround(a, b);
    ReplaceLfAppend(ReplaceCrLf(a), " " + ReplaceCrLf(b));
    ReplaceLfAppend(" ", ReplaceCrLf(b));
  }

  lemma {:induction false} ReplaceCrLfAround(a: string, b: string)
    ensures ReplaceCrLf(a + "\r\n" + b) == ReplaceCrLf(a) + " " + ReplaceCrLf(b)
    decreases |a|
  {
    if a == [] {
      PairFirst(b);
      assert a + "\r\n" + b == "\r\n" + b;
    } else if |a| >= 2 && a[0] == '\r' && a[1] == '\n' {
      PairStep(a, b);
      ReplaceCrLfAround(a[2..], b);
      HeadThenRest(" ", ReplaceCrLf(a), ReplaceCrLf(a[2..]), ReplaceCrLf(a + "\r\n" + b),
        ReplaceCrLf(a[2..] + "\r\n" + b), " ", ReplaceCrLf(b));
    } else {
      CharStep(a, b);
      ReplaceCrLfAround(a[1..], b);
      HeadThenRest([a[0]], ReplaceCrLf(a), ReplaceCrLf(a[1..]), ReplaceCrLf(a + "\r\n" + b),
        ReplaceCrLf(a[1..] + "\r\n" + b), " ", ReplaceCrLf(b));
    }
  }

  lemma HeadThenRest(h: string, ra: string, rest: string, rs: string, rrest: string,
                     sep: string, rb: string)
    requires ra == h + rest && rs == h + rrest && rrest == rest + sep + rb
    ensures rs == ra + sep + rb
  {
  }

  lemma PairFirst(b: string)
    ensures ReplaceCrLf("\r\n" + b) == " " + ReplaceCrLf(b)
  {
    assert ("\r\n" + b)[2..] == b;
  }

  lemma PairStep(a: string, b: string)
    requires |a| >= 2 && a[0] == '\r' && a[1] == '\n'
    ensures ReplaceCrLf(a) == " " + ReplaceCrLf(a[2..])
    ensures ReplaceCrLf(a + "\r\n" + b) == " " + ReplaceCrLf(a[2..] + "\r\n" + b)
  {
    assert (a + "\r\n" + b)[2..] == a[2..] + "\r\n" + b;
  }

  lemma CharStep(a: string, b: string)
    requires a != [] && !(|a| >= 2 && a[0] == '\r' && a[1] == '\n')
    ensures ReplaceCrLf(a) == [a[0]] + ReplaceCrLf(a[1..])
    ensures ReplaceCrLf(a + "\r\n" + b) == [a[0]] + ReplaceCrLf(a[1..] + "\r\n" + b)
  {
    var s := a + "\r\n" + b;
    assert s[1] == (if |a| >= 2 then a[1] else '\r');
    assert s[1..] == a[1..] + "\r\n" + b;
  }

  /** A line feed with no carriage return just before it becomes exactly one
      space, and the text on either side is normalised on its own. */
  lemma NormalizeLf(a: string, b: string)
    requires a == [] || a[|a| - 1] != '\r'
    ensures Normalize(a + "\n" + b) == Normalize(a) + " " + Normalize(b)
  {
    ReplaceCrLfLoneLf(a, b);
    ReplaceLfAppend(ReplaceCrLf(a), "\n" + ReplaceCrLf(b));
    ReplaceLfAppend("\n", ReplaceCrLf(b));
  }

  /** The first replacement leaves a line feed without a carriage return
      before it where it is. */
  lemma {:induction false} ReplaceCrLfLoneLf(a: string, b: string)
    requires a == [] || a[|a| - 1] != '\r'
    ensures ReplaceCrLf(a + "\n" + b) == ReplaceCrLf(a) + "\n" + ReplaceCrLf(b)
    decreases |a|
  {
    if a == [] {
      LfFirst(b);
      assert a + "\n" + b == "\n" + b;
    } else if |a| >= 2 && a[0] == '\r' && a[1] == '\n' {
      LfPairStep(a, b);
      ReplaceCrLfLoneLf(a[2..], b);
      HeadThenRest(" ", ReplaceCrLf(a), ReplaceCrLf(a[2..]), ReplaceCrLf(a + "\n" + b),
        ReplaceCrLf(a[2..] + "\n" + b), "\n", ReplaceCrLf(b));
    } else {
      LfCharStep(a, b);
      ReplaceCrLfLoneLf(a[1..], b);
      HeadThenRest([a[0]], ReplaceCrLf(a), ReplaceCrLf(a[1..]), ReplaceCrLf(a + "\n" + b),
        ReplaceCrLf(a[1..] + "\n" + b), "\n", ReplaceCrLf(b));
    }
  }

  lemma LfFirst(b: string)
    ensures ReplaceCrLf("\n" + b) == "\n" + ReplaceCrLf(b)
  {
    assert ("\n" + b)[1..] == b;
  }

  lemma LfPairStep(a: string, b: string)
    requires |a| >= 2 && a[0] == '\r' && a[1] == '\n' && a[|a| - 1] != '\r'
    ensures a[2..] == [] || a[2..][|a[2..]| - 1] != '\r'
    ensures ReplaceCrLf(a) == " " + ReplaceCrLf(a[2..])
    ensures ReplaceCrLf(a + "\n" + b) == " " + ReplaceCrLf(a[2..] + "\n" + b)
  {
    assert (a + "\n" + b)[2..] == a[2..] + "\n" + b;
  }

  lemma LfCharStep(a: string, b: string)
    requires a != [] && a[|a| - 1] != '\r' && !(|a| >= 2 && a[0] == '\r' && a[1] == '\n')
    ensures a[1..] == [] || a[1..][|a[1..]| - 1] != '\r'
    ensures ReplaceCrLf(a) == [a[0]] + ReplaceCrLf(a[1..])
    ensures ReplaceCrLf(a + "\n" + b) == [a[0]] + ReplaceCrLf(a[1..] + "\n" + b)
  {
    var s := a + "\n" + b;
    assert s[0] == a[0] && s[1] == (if |a| >= 2 then a[1] else '\n');
    assert s[1..] == a[1..] + "\n" + b;
  }

  lemma {:induction false} ReplaceLfAppend(x: string, y: string)
    ensures ReplaceLf(x + y) == ReplaceLf(x) + ReplaceLf(y)
    decreases |x|
  {
    if x == [] {
      assert x + y == y;
    } else {
      assert (x + y)[1..] == x[1..] + y;
      ReplaceLfAppend(x[1..], y);
    }
  }

  /** Python's `s.rfind(c, lo, hi)`: the highest index in [lo, hi) holding
      `c`, or -1 when there is none. */
  function RFind(s: string, c: char, lo: nat, hi: nat): (r: int)
    requires lo <= hi <= |s|
    ensures r == -1 || lo <= r < hi
    ensures r == -1 <==> !Occurs(s, c, lo, hi)
    ensures r != -1 ==> s[r] == c && !Occurs(s, c, r + 1, hi)
    decreases hi - lo
  {
    if lo == hi then -1
    else if s[hi - 1] == c then hi - 1
    else RFind(s, c, lo, hi - 1)
  }

  /** `c` occurs somewhere in `s[lo..hi]`. */
  predicate Occurs(s: string, c: char, lo: int, hi: int)
    requires 0 <= lo && hi <= |s|
  {
    exists k :: lo <= k < hi && s[k] == c
  }

  /** The index `split_at` chosen for the window that starts at `start` when
      the rest of the text does not fit in one window (app.py:32, 37-41): the
      last '.' of the window, else its last ';', else the window's end. */
  function CutPoint(n: string, start: nat, maxChars: nat): (split: nat)
    requires start + maxChars < |n|
    ensures start <= split <= start + maxChars
  {
    var end := start + maxChars;
    var dot := RFind(n, '.', start, end);
    if dot != -1 then dot
    else
      var semi := RFind(n, ';', start, end);
      if semi != -1 then semi else end
  }

  /** The cut prefers the last '.' of the window `n[start..start + maxChars]`;
      it takes the last ';' only when the window holds no '.', and the window's
      end only when it holds neither. */
  lemma CutPointPreference(n: string, start: nat, maxChars: nat)
    requires start + maxChars < |n|
    ensures var split, end := CutPoint(n, start, maxChars), start + maxChars;
      && (split < end ==> n[split] == '.' || n[split] == ';')
      && (Occurs(n, '.', start, end) ==>
            split < end && n[split] == '.' && !Occurs(n, '.', split + 1, end))
      && (!Occurs(n, '.', start, end) && Occurs(n, ';', start, end) ==>
            split < end && n[split] == ';' && !Occurs(n, ';', split + 1, end))
      && (split == end <==> !Occurs(n, '.', start, end) && !Occurs(n, ';', start, end))
  {
  }

  /** The half-open index range `[lo, hi)` of one slice of the text. */
  datatype Span = Span(lo: nat, hi: nat)

  /** The slices the loop of `chunk_text` takes from cursor `start` on
      (app.py:31-44), before trimming: a final slice when the rest fits in one
      window, otherwise the slice up to and including the cut point followed
      by the slices of the remainder. */
  function Spans(n: string, maxChars: nat, start: nat): (r: seq<Span>)
    requires start <= |n|
    ensures forall k :: 0 <= k < |r| ==> start <= r[k].lo < r[k].hi <= |n|
    ensures r == [] <==> start == |n|
    decreases |n| - start
  {
    if start == |n| then []
    else if start + maxChars >= |n| then [Span(start, |n|)]
    else
      var split := CutPoint(n, start, maxChars);
      [Span(start, split + 1)] + Spans(n, maxChars, split + 1)
  }

  predicate InBounds(n: string, spans: seq<Span>) {
    forall k :: 0 <= k < |spans| ==> spans[k].lo <= spans[k].hi <= |n|
  }

  /** The substrings of `n` the spans select, in order. */
  function Slices(n: string, spans: seq<Span>): (r: seq<string>)
    requires InBounds(n, spans)
    ensures |r| == |spans|
  {
    if spans == [] then [] else [n[spans[0].lo..spans[0].hi]] + Slices(n, spans[1..])
  }

  lemma {:induction false} SliceAt(n: string, spans: seq<Span>, k: nat)
    requires InBounds(n, spans) && k < |spans|
    ensures Slices(n, spans)[k] == n[spans[k].lo..spans[k].hi]
  {
    if k > 0 { SliceAt(n, spans[1..], k - 1); }
  }

  /** Each piece trimmed, as the loop does before appending it. */
  function StripAll(pieces: seq<string>): (r: seq<string>)
    ensures |r| == |pieces|
  {
    if pieces == [] then [] else [Strip(pieces[0])] + StripAll(pieces[1..])
  }

  lemma {:induction false} StripAllAt(pieces: seq<string>, k: nat)
    requires k < |pieces|
    ensures StripAll(pieces)[k] == Strip(pieces[k])
  {
    if k > 0 { StripAllAt(pieces[1..], k - 1); }
  }

  /** The slices `chunk_text` cuts the normalised text into, before each is
      trimmed: the whole text when it fits in one window (app.py:27-28),
      otherwise the slices of the loop started at 0. */
  function RawChunks(text: string, maxChars: nat): (r: seq<string>)
    ensures r != []
  {
    var n := Normalize(text);
    if |n| <= maxChars then [n] else Slices(n, Spans(n, maxChars, 0))
  }

  /** What `chunk_text(text, maxChars)` returns: the raw chunks, each trimmed.
      There is always at least one chunk and no chunk holds a line feed. */
  function ChunkSpec(text: string, maxChars: nat): (r: seq<string>)
    ensures |r| >= 1
    ensures forall k :: 0 <= k < |r| ==> '\n' !in r[k]
  {
    var raw := RawChunks(text, maxChars);
    var r := StripAll(raw);
    assert forall k :: 0 <= k < |r| ==> '\n' !in r[k] by {
      forall k | 0 <= k < |r|
        ensures '\n' !in r[k]
      {
        StripAllAt(raw, k);
        if '\n' in r[k] {
          StripChars(raw[k], '\n');
          RawChunkWithoutLineFeed(text, maxChars, k);
        }
      }
    }
    r
  }

  lemma RawChunkWithoutLineFeed(text: string, maxChars: nat, k: nat)
    requires k < |RawChunks(text, maxChars)|
    ensures '\n' !in RawChunks(text, maxChars)[k]
  {
    var n := Normalize(text);
    if |n| > maxChars {
      var spans := Spans(n, maxChars, 0);
      SliceAt(n, spans, k);
    }
  }

  /** One step of the loop when the window does not reach the end. */
  lemma SpansStep(n: string, maxChars: nat, start: nat, split: nat)
    requires start + maxChars < |n|
    requires split == CutPoint(n, start, maxChars)
    ensures Spans(n, maxChars, start) == [Span(start, split + 1)] + Spans(n, maxChars, split + 1)
  {
  }

  /** The trimmed chunks the loop emits from cursor `start` on. */
  function ChunksFrom(n: string, maxChars: nat, start: nat): seq<string>
    requires start <= |n|
  {
    StripAll(Slices(n, Spans(n, maxChars, start)))
  }

  /** One iteration of the loop that cuts at a punctuation mark or hard-cuts:
      the trimmed slice up to the cut point, then the chunks of the rest. */
  lemma CutStep(n: string, maxChars: nat, start: nat, split: nat)
    requires start + maxChars < |n|
    requires split == CutPoint(n, start, maxChars)
    ensures ChunksFrom(n, maxChars, start)
         == [Strip(n[start..split + 1])] + ChunksFrom(n, maxChars, split + 1)
  {
    SpansStep(n, maxChars, start, split);
    ChunksCons(n, Spans(n, maxChars, start), Span(start, split + 1), Spans(n, maxChars, split + 1));
  }

  lemma ChunksCons(n: string, spans: seq<Span>, sp: Span, rest: seq<Span>)
    requires sp.lo <= sp.hi <= |n| && InBounds(n, rest)
    requires spans == [sp] + rest
    ensures InBounds(n, spans)
    ensures StripAll(Slices(n, spans)) == [Strip(n[sp.lo..sp.hi])] + StripAll(Slices(n, rest))
  {
    SlicesCons(n, sp, rest);
    StripAllCons(n[sp.lo..sp.hi], Slices(n, rest));
  }

  lemma SlicesCons(n: string, sp: Span, rest: seq<Span>)
    requires sp.lo <= sp.hi <= |n| && InBounds(n, rest)
    ensures InBounds(n, [sp] + rest)
    ensures Slices(n, [sp] + rest) == [n[sp.lo..sp.hi]] + Slices(n, rest)
  {
    assert ([sp] + rest)[1..] == rest;
  }

  lemma StripAllCons(piece: string, rest: seq<string>)
    ensures StripAll([piece] + rest) == [Strip(piece)] + StripAll(rest)
  {
    assert ([piece] + rest)[1..] == rest;
  }

  /** The last iteration: the rest of the text fits in one window. */
  lemma LastStep(n: string, maxChars: nat, start: nat)
    requires start < |n| <= start + maxChars
    ensures ChunksFrom(n, maxChars, start) == [Strip(n[start..])]
  {
    assert Spans(n, maxChars, start) == [Span(start, |n|)];
    SlicesCons(n, Span(start, |n|), []);
    StripAllCons(n[start..|n|], []);
    assert n[start..|n|] == n[start..];
  }

  /** A normalised text that fits in one window gives exactly one chunk, the
      trimmed normalised text; the length test is on the untrimmed text
      (app.py:26-28). */
  lemma SingleWindow(text: string, maxChars: nat)
    requires |Normalize(text)| <= maxChars
    ensures ChunkSpec(text, maxChars) == [Strip(Normalize(text))]
  {
    StripAllCons(Normalize(text), []);
    assert [Normalize(text)] + [] == [Normalize(text)];
  }

  /** A longer normalised text gives the chunks of the loop started at 0. */
  lemma LoopFromStart(text: string, maxChars: nat)
    requires |Normalize(text)| > maxChars
    ensures ChunkSpec(text, maxChars) == ChunksFrom(Normalize(text), maxChars, 0)
  {
  }

  lemma AppendAssoc<T>(a: seq<T>, b: seq<T>, c: seq<T>)
    ensures (a + b) + c == a + (b + c)
  {
  }

  /** The search for `split_at` (app.py:37-41): the last '.' of the window,
      failing that its last ';', failing that the window's end. */
  method FindSplit(n: string, start: nat, maxChars: nat) returns (splitAt: nat)
    requires start + maxChars < |n|
    ensures splitAt == CutPoint(n, start, maxChars)
  {
    var end := start + maxChars;
    var found := RFind(n, '.', start, end);
    if found == -1 {
      found := RFind(n, ';', start, end);
    }
    if found == -1 {
      found := end;
    }
    splitAt := found;
  }

  /** `chunk_text` (app.py:24-45): normalise, return the trimmed text when
      it fits in one window, otherwise run the cursor loop. */
  method ChunkText(text: string, maxChars: nat) returns (chunks: seq<string>)
    ensures chunks == ChunkSpec(text, maxChars)
  {
    var n := Normalize(text);
    if |n| <= maxChars {
      SingleWindow(text, maxChars);
      return [Strip(n)];
    }
    chunks := CutLoop(n, maxChars);
    LoopFromStart(text, maxChars);
  }

  /** The cursor loop of `chunk_text` (app.py:29-44) over the normalised text
      `n`, entered only when `n` does not fit in one window. */
  method CutLoop(n: string, maxChars: nat) returns (chunks: seq<string>)
    requires |n| > maxChars
    ensures chunks == ChunksFrom(n, maxChars, 0)
  {
    chunks := [];
    var start := 0;
    ghost var all := ChunksFrom(n, maxChars, 0);
    assert chunks + all == all;
    NothingLeft(n, maxChars);
    while start < |n|
      invariant start <= |n|
      invariant chunks + ChunksFrom(n, maxChars, start) == all
      decreases |n| - start
    {
      var end := start + maxChars;
      if end >= |n| {
        LoopLast(n, maxChars, start, chunks, all);
        chunks := chunks + [Strip(n[start..])];
        break;
      }
      var splitAt := FindSplit(n, start, maxChars);
      var chunk := Strip(n[start..splitAt + 1]);
      LoopCut(n, maxChars, start, splitAt, chunks, all);
      chunks := chunks + [chunk];
      start := splitAt + 1;
    }
  }

  /** The loop invariant survives a cutting iteration. */
  lemma LoopCut(n: string, maxChars: nat, start: nat, split: nat, chunks: seq<string>, all: seq<string>)
    requires start + maxChars < |n|
    requires split == CutPoint(n, start, maxChars)
    requires chunks + ChunksFrom(n, maxChars, start) == all
    ensures (chunks + [Strip(n[start..split + 1])]) + ChunksFrom(n, maxChars, split + 1) == all
  {
    CutStep(n, maxChars, start, split);
    AppendAssoc(chunks, [Strip(n[start..split + 1])], ChunksFrom(n, maxChars, split + 1));
  }

  /** The final branch completes the chunks. */
  lemma LoopLast(n: string, maxChars: nat, start: nat, chunks: seq<string>, all: seq<string>)
    requires start < |n| <= start + maxChars
    requires chunks + ChunksFrom(n, maxChars, start) == all
    ensures chunks + [Strip(n[start..])] == all
  {
    LastStep(n, maxChars, start);
  }

  /** With the cursor at the end of the text the loop emits nothing more. */
  lemma NothingLeft(n: string, maxChars: nat)
    ensures ChunksFrom(n, maxChars, |n|) == []
  {
    assert Spans(n, maxChars, |n|) == [];
  }

  // ---------------------------------------------------------------------
  // What the cut loop guarantees

  /** A slice taken by the cutting branch of the loop (app.py:37-44): the
      window did not reach the end of the text, and the slice runs from the
      cursor up to and including the cut point. */
  ghost predicate IsCut(n: string, maxChars: nat, sp: Span) {
    sp.lo + maxChars < |n| && sp.hi == CutPoint(n, sp.lo, maxChars) + 1
  }

  /** The slice taken by the final branch (app.py:33-35): the window reaches
      the end of the text and the slice is all the rest. */
  ghost predicate IsTail(n: string, maxChars: nat, sp: Span) {
    sp.lo + maxChars >= |n| && sp.hi == |n|
  }

  /** Every slice is a cut, except possibly the last, which may be the tail. */
  ghost predicate CutsAt(n: string, maxChars: nat, spans: seq<Span>) {
    forall k :: 0 <= k < |spans| ==>
      IsCut(n, maxChars, spans[k]) || (k == |spans| - 1 && IsTail(n, maxChars, spans[k]))
  }

  /** The spans are non-empty, contiguous and non-overlapping, and cover
      exactly `[lo, hi)`. */
  ghost predicate Tiles(spans: seq<Span>, lo: nat, hi: nat) {
    && |spans| > 0
    && spans[0].lo == lo
    && spans[|spans| - 1].hi == hi
    && (forall k :: 0 <= k < |spans| ==> spans[k].lo < spans[k].hi)
    && (forall k :: 0 <= k < |spans| - 1 ==> spans[k].hi == spans[k + 1].lo)
  }

  /** From any cursor inside the text, the loop's slices tile the rest of the
      text, and each one is a cut or the final tail. */
  lemma {:induction false} SpansShape(n: string, maxChars: nat, start: nat)
    requires start < |n|
    ensures Tiles(Spans(n, maxChars, start), start, |n|)
    ensures CutsAt(n, maxChars, Spans(n, maxChars, start))
    decreases |n| - start
  {
    if start + maxChars >= |n| {
      TailShape(n, maxChars, start);
    } else {
      var split := CutPoint(n, start, maxChars);
      if split + 1 < |n| {
        SpansShape(n, maxChars, split + 1);
        CutShape(n, maxChars, start, split);
      } else {
        LastCutShape(n, maxChars, start, split);
      }
    }
  }

  lemma CutShape(n: string, maxChars: nat, start: nat, split: nat)
    requires start + maxChars < |n|
    requires split == CutPoint(n, start, maxChars) && split + 1 < |n|
    requires Tiles(Spans(n, maxChars, split + 1), split + 1, |n|)
    requires CutsAt(n, maxChars, Spans(n, maxChars, split + 1))
    ensures Tiles(Spans(n, maxChars, start), start, |n|)
    ensures CutsAt(n, maxChars, Spans(n, maxChars, start))
  {
    SpansStep(n, maxChars, start, split);
    ShapeCons(n, maxChars, Span(start, split + 1), Spans(n, maxChars, split + 1));
  }

  /** The rest fits in one window: a single tail slice. */
  lemma TailShape(n: string, maxChars: nat, start: nat)
    requires start < |n| <= start + maxChars
    ensures Tiles(Spans(n, maxChars, start), start, |n|)
    ensures CutsAt(n, maxChars, Spans(n, maxChars, start))
  {
    assert Spans(n, maxChars, start) == [Span(start, |n|)];
  }

  /** A cut that reaches the end of the text is the last slice. */
  lemma LastCutShape(n: string, maxChars: nat, start: nat, split: nat)
    requires start + maxChars < |n|
    requires split == CutPoint(n, start, maxChars) && split + 1 == |n|
    ensures Tiles(Spans(n, maxChars, start), start, |n|)
    ensures CutsAt(n, maxChars, Spans(n, maxChars, start))
  {
    SpansStep(n, maxChars, start, split);
    assert Spans(n, maxChars, split + 1) == [];
    assert Spans(n, maxChars, start) == [Span(start, split + 1)];
  }

  /** A cut followed by a tiling of the rest of the text tiles it from the
      cut's start. */
  lemma ShapeCons(n: string, maxChars: nat, sp: Span, rest: seq<Span>)
    requires IsCut(n, maxChars, sp) && sp.lo < sp.hi
    requires Tiles(rest, sp.hi, |n|) && CutsAt(n, maxChars, rest)
    ensures Tiles([sp] + rest, sp.lo, |n|) && CutsAt(n, maxChars, [sp] + rest)
  {
    var r := [sp] + rest;
    forall k | 0 <= k < |r| - 1
      ensures r[k].hi == r[k + 1].lo
    {
      if k > 0 { assert r[k] == rest[k - 1] && r[k + 1] == rest[k]; }
    }
    forall k | 1 <= k < |r|
      ensures IsCut(n, maxChars, r[k]) || (k == |r| - 1 && IsTail(n, maxChars, r[k]))
    {
      assert r[k] == rest[k - 1];
    }
  }

  lemma SplitSuffix<T>(s: seq<T>, a: nat, b: nat)
    requires a <= b <= |s|
    ensures s[a..] == s[a..b] + s[b..]
  {
  }

  /** The loop's slices from cursor `start` put back together are the rest of
      the text: nothing is lost, repeated or reordered. */
  lemma {:induction false} SpansConcat(n: string, maxChars: nat, start: nat)
    requires start <= |n|
    ensures Concat(Slices(n, Spans(n, maxChars, start))) == n[start..]
    decreases |n| - start
  {
    if start == |n| {
      EndConcat(n, maxChars);
    } else if start + maxChars >= |n| {
      TailConcat(n, maxChars, start);
    } else {
      var split := CutPoint(n, start, maxChars);
      SpansConcat(n, maxChars, split + 1);
      CutConcat(n, maxChars, start, split);
    }
  }

  lemma EndConcat(n: string, maxChars: nat)
    ensures Concat(Slices(n, Spans(n, maxChars, |n|))) == n[|n|..]
  {
    assert Spans(n, maxChars, |n|) == [];
    assert Slices(n, []) == [];
  }

  lemma TailConcat(n: string, maxChars: nat, start: nat)
    requires start < |n| <= start + maxChars
    ensures Concat(Slices(n, Spans(n, maxChars, start))) == n[start..]
  {
    assert Spans(n, maxChars, start) == [Span(start, |n|)];
    SlicesCons(n, Span(start, |n|), []);
    ConcatCons(n[start..|n|], []);
    assert n[start..|n|] == n[start..];
  }

  /** A cut followed by a cover of the rest covers the text from the cut's start. */
  lemma CutConcat(n: string, maxChars: nat, start: nat, split: nat)
    requires start + maxChars < |n|
    requires split == CutPoint(n, start, maxChars)
    requires Concat(Slices(n, Spans(n, maxChars, split + 1))) == n[split + 1..]
    ensures Concat(Slices(n, Spans(n, maxChars, start))) == n[start..]
  {
    var sp, rest := Span(start, split + 1), Spans(n, maxChars, split + 1);
    SpansStep(n, maxChars, start, split);
    SlicesCons(n, sp, rest);
    PieceThenRest(n, start, split, Slices(n, Spans(n, maxChars, start)), Slices(n, rest));
  }

  lemma PieceThenRest(n: string, start: nat, split: nat, slices: seq<string>, rest: seq<string>)
    requires start <= split < |n|
    requires slices == [n[start..split + 1]] + rest
    requires Concat(rest) == n[split + 1..]
    ensures Concat(slices) == n[start..]
  {
    ConcatCons(n[start..split + 1], rest);
    SplitSuffix(n, start, split + 1);
  }

  /** Concatenated in order, the untrimmed chunks are exactly the normalised
      text (app.py:26-44). */
  lemma RawChunksCover(text: string, maxChars: nat)
    ensures Concat(RawChunks(text, maxChars)) == Normalize(text)
  {
    var n := Normalize(text);
    if |n| <= maxChars {
      assert Concat([n]) == n + Concat([]);
    } else {
      SpansConcat(n, maxChars, 0);
    }
  }

  /** Size and last character of a slice cut by the loop, as the window
      `[sp.lo, sp.lo + maxChars)` dictates: a cut at punctuation keeps at most
      `maxChars` characters and ends at the last '.' (or, with no '.', the last
      ';') of the window; a hard cut keeps `maxChars + 1` characters. */
  lemma CutSpan(n: string, maxChars: nat, sp: Span)
    requires IsCut(n, maxChars, sp)
    ensures var end := sp.lo + maxChars;
      && sp.lo < sp.hi <= |n|
      && sp.hi - sp.lo <= maxChars + 1
      && (Occurs(n, '.', sp.lo, end) ==>
            sp.hi - sp.lo <= maxChars && n[sp.hi - 1] == '.' && !Occurs(n, '.', sp.hi, end))
      && (!Occurs(n, '.', sp.lo, end) && Occurs(n, ';', sp.lo, end) ==>
            sp.hi - sp.lo <= maxChars && n[sp.hi - 1] == ';' && !Occurs(n, ';', sp.hi, end))
      && (!Occurs(n, '.', sp.lo, end) && !Occurs(n, ';', sp.lo, end) ==>
            sp.hi - sp.lo == maxChars + 1)
  {
    CutPointPreference(n, sp.lo, maxChars);
  }

  /** Slice `k` of the loop over the normalised text `n`, and the chunk
      made from it by trimming; every slice but the last is a cut, and the last
      is a cut or the final tail. */
  lemma LoopSlice(n: string, maxChars: nat, k: nat)
    requires k < |Spans(n, maxChars, 0)|
    ensures var sp := Spans(n, maxChars, 0)[k];
      && Slices(n, Spans(n, maxChars, 0))[k] == n[sp.lo..sp.hi]
      && ChunksFrom(n, maxChars, 0)[k] == Strip(n[sp.lo..sp.hi])
      && (k < |Spans(n, maxChars, 0)| - 1 ==> IsCut(n, maxChars, sp))
      && (IsCut(n, maxChars, sp) || IsTail(n, maxChars, sp))
  {
    var spans := Spans(n, maxChars, 0);
    SliceAt(n, spans, k);
    StripAllAt(Slices(n, spans), k);
    SpansShape(n, maxChars, 0);
  }

  /** No raw chunk is longer than `maxChars + 1` characters, and only a hard
      cut reaches that length: the final branch keeps at most `maxChars`. */
  lemma RawChunkSizes(text: string, maxChars: nat, k: nat)
    requires k < |RawChunks(text, maxChars)|
    ensures |RawChunks(text, maxChars)[k]| <= maxChars + 1
  {
    var n := Normalize(text);
    if |n| > maxChars {
      var spans := Spans(n, maxChars, 0);
      LoopSlice(n, maxChars, k);
      if IsCut(n, maxChars, spans[k]) {
        CutSpan(n, maxChars, spans[k]);
      }
    }
  }

  /** The slice taken by the final branch `text[start:]` (app.py:33-34) has
      at most `maxChars` characters; a last slice longer than that is a hard
      cut that happened to reach the end of the text. */
  lemma TailSliceSize(n: string, maxChars: nat, k: nat)
    requires k < |Spans(n, maxChars, 0)|
    requires Spans(n, maxChars, 0)[k].lo + maxChars >= |n|
    ensures k == |Spans(n, maxChars, 0)| - 1
    ensures |Slices(n, Spans(n, maxChars, 0))[k]| <= maxChars
  {
    LoopSlice(n, maxChars, k);
  }

  /** A chunk cut at punctuation ends with that punctuation mark, because
      trimming removes only whitespace: with a '.' in its window the chunk
      ends in '.', and with only a ';' it ends in ';'. */
  lemma ChunkEndsAtPunctuation(n: string, maxChars: nat, k: nat)
    requires k < |Spans(n, maxChars, 0)| - 1
    ensures var lo := Spans(n, maxChars, 0)[k].lo;
      var chunk := ChunksFrom(n, maxChars, 0)[k];
      && lo + maxChars < |n|
      && (Occurs(n, '.', lo, lo + maxChars) ==> chunk != [] && chunk[|chunk| - 1] == '.')
      && (!Occurs(n, '.', lo, lo + maxChars) && Occurs(n, ';', lo, lo + maxChars) ==>
            chunk != [] && chunk[|chunk| - 1] == ';')
  {
    var spans := Spans(n, maxChars, 0);
    LoopSlice(n, maxChars, k);
    var sp := spans[k];
    assert IsCut(n, maxChars, sp);
    assert ChunksFrom(n, maxChars, 0)[k] == Strip(n[sp.lo..sp.hi]);
    CutPieceEnds(n, maxChars, sp);
  }

  lemma CutPieceEnds(n: string, maxChars: nat, sp: Span)
    requires IsCut(n, maxChars, sp)
    ensures var end, chunk := sp.lo + maxChars, Strip(n[sp.lo..sp.hi]);
      && (Occurs(n, '.', sp.lo, end) ==> chunk != [] && chunk[|chunk| - 1] == '.')
      && (!Occurs(n, '.', sp.lo, end) && Occurs(n, ';', sp.lo, end) ==>
            chunk != [] && chunk[|chunk| - 1] == ';')
  {
    CutSpan(n, maxChars, sp);
    var piece := n[sp.lo..sp.hi];
    if Occurs(n, '.', sp.lo, sp.lo + maxChars) || Occurs(n, ';', sp.lo, sp.lo + maxChars) {
      assert piece[|piece| - 1] == n[sp.hi - 1];
      StripKeepsLast(piece);
    }
  }

  /** In a text with neither '.' nor ';' every slice but the last is a hard
      cut of exactly `maxChars + 1` characters, one more than the window. */
  lemma HardCutsWithoutPunctuation(n: string, maxChars: nat, k: nat)
    requires '.' !in n && ';' !in n
    requires k < |Spans(n, maxChars, 0)| - 1
    ensures |Slices(n, Spans(n, maxChars, 0))[k]| == maxChars + 1
  {
    var spans := Spans(n, maxChars, 0);
    LoopSlice(n, maxChars, k);
    var sp := spans[k];
    assert IsCut(n, maxChars, sp);
    assert !Occurs(n, '.', sp.lo, sp.lo + maxChars) && !Occurs(n, ';', sp.lo, sp.lo + maxChars);
    CutSpan(n, maxChars, sp);
  }

  /** Trimming can leave an empty chunk, which is returned as it is:
      `chunk_text("ab.   ", 4)` cuts after the '.', and the tail "   "
      becomes "". */
  lemma EmptyChunkKept()
    ensures ChunkSpec("ab.   ", 4) == ["ab.", ""]
  {
    NormalizeWithoutLineFeed("ab.   ");
    LoopFromStart("ab.   ", 4);
    EmptyChunkLoop();
  }

  lemma EmptyChunkLoop()
    ensures ChunksFrom("ab.   ", 4, 0) == ["ab.", ""]
  {
    var n := "ab.   ";
    ExampleCut();
    CutStep(n, 4, 0, 2);
    LastStep(n, 4, 3);
    ExampleStrips();
    assert ChunksFrom(n, 4, 0) == [Strip(n[0..3])] + [Strip(n[3..])];
  }

  lemma ExampleCut()
    ensures CutPoint("ab.   ", 0, 4) == 2
  {
    var n := "ab.   ";
    assert n[3] == ' ' && n[2] == '.';
    assert RFind(n, '.', 0, 4) == 2;
  }

  lemma ExampleStrips()
    ensures Strip("ab.   "[0..3]) == "ab." && Strip("ab.   "[3..]) == ""
  {
    assert "ab.   "[0..3] == "ab." && "ab.   "[3..] == "   ";
    StripUnchanged("ab.");
    assert LeadingSpace("   ") == 3;
  }
}
