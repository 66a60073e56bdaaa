/** The client's reader of a server-sent event stream: text arrives in arbitrary chunks. */
module EventStream {
  import opened Results
  import opened Strings

  /** A call that the reader makes, with the parsed payload. */
  datatype Callback<E> = OnEvent(event: E) | OnLimit(limit: E)

  /** The effect of one frame: calls to make, and whether the reader returns. */
  datatype Effect<E> = Effect(calls: seq<Callback<E>>, stops: bool)

  // ---------------------------------------------------------------- splitting

  predicate BreakAt(t: string, i: nat) {
    i + 1 < |t| && t[i] == '\n' && t[i + 1] == '\n'
  }

  /** The position of the first blank line. */
  function FindBreak(t: string, from: nat): (r: Option<nat>)
    requires from <= |t|
    ensures r.Some? ==> from <= r.value && BreakAt(t, r.value) && forall j | from <= j < r.value :: !BreakAt(t, j)
    ensures r.None? ==> forall j | from <= j < |t| :: !BreakAt(t, j)
    decreases |t| - from
  {
    if from == |t| then None
    else if BreakAt(t, from) then Some(from)
    else FindBreak(t, from + 1)
  }

  /** The text split at blank lines: the complete frames, and what follows the last of them. */
  function SplitFrames(t: string): (seq<string>, string)
    decreases |t|
  {
    match FindBreak(t, 0)
    case None => ([], t)
    case Some(i) =>
      var (frames, rest) := SplitFrames(t[i + 2..]);
      ([t[..i]] + frames, rest)
  }

  function SplitLines(t: string): (lines: seq<string>)
    ensures lines != []
  {
    if t == "" then [""]
    else
      var rest := SplitLines(t[1..]);
      if t[0] == '\n' then [""] + rest else [[t[0]] + rest[0]] + rest[1..]
  }

  function FirstWithPrefix(lines: seq<string>, prefix: string): (r: Option<string>)
    ensures r.Some? ==> r.value in lines && StartsWith(r.value, prefix)
  {
    if lines == [] then None
    else if StartsWith(lines[0], prefix) then Some(lines[0])
    else FirstWithPrefix(lines[1..], prefix)
  }

  // ---------------------------------------------------------------- frames

  /** What one frame does; a payload that does not parse is skipped, but an expired session still ends the stream. */
  function HandleFrame<E>(frame: string, parse: string -> Option<E>): Effect<E> {
    var lines := SplitLines(frame);
    match FirstWithPrefix(lines, "data: ")
    case None => Effect([], false)
    case Some(dataLine) =>
      var data := dataLine[6..];
      var expired := FirstWithPrefix(lines, "event: ") == Some("event: session_expired");
      match parse(data)
      case Some(e) => Effect([if expired then OnLimit(e) else OnEvent(e)], expired)
      case None => Effect([], expired)
  }

  function HandleFrames<E>(frames: seq<string>, parse: string -> Option<E>): Effect<E> {
    if frames == [] then Effect([], false)
    else
      var first := HandleFrame(frames[0], parse);
      if first.stops then first
      else
        var rest := HandleFrames(frames[1..], parse);
        Effect(first.calls + rest.calls, rest.stops)
  }

  /** Reading the whole text in one piece. */
  function ReadWhole<E>(text: string, parse: string -> Option<E>): Effect<E> {
    HandleFrames(SplitFrames(text).0, parse)
  }

  function Concat(chunks: seq<string>): string {
    if chunks == [] then "" else chunks[0] + Concat(chunks[1..])
  }

  // ---------------------------------------------------------------- the reader

  /** The reader as a function: each chunk is appended, split, and its complete frames handled. */
  function ReadChunks<E>(buf: string, chunks: seq<string>, parse: string -> Option<E>): Effect<E>
    decreases |chunks|
  {
    if chunks == [] then Effect([], false)
    else
      var (frames, rest) := SplitFrames(buf + chunks[0]);
      var handled := HandleFrames(frames, parse);
      if handled.stops then handled else After(handled.calls, ReadChunks(rest, chunks[1..], parse))
  }

  method StreamEvents<E>(chunks: seq<string>, parse: string -> Option<E>) returns (r: Effect<E>)
    ensures r == ReadChunks("", chunks, parse)
  {
    var buf := "";
    var calls: seq<Callback<E>> := [];
    var n := 0;
    assert chunks[0..] == chunks;
    AfterNothing(ReadChunks("", chunks, parse));
    while n < |chunks|
      invariant 0 <= n <= |chunks|
      invariant ReadChunks("", chunks, parse) == After(calls, ReadChunks(buf, chunks[n..], parse))
    {
      assert chunks[n..][1..] == chunks[n + 1..];
      buf := buf + chunks[n];
      var (frames, rest) := SplitFrames(buf);
      buf := rest;
      var handled := HandleAll(frames, parse);
      if handled.stops {
        return Effect(calls + handled.calls, true);
      }
      AfterAfter(calls, handled.calls, ReadChunks(buf, chunks[n + 1..], parse));
      calls := calls + handled.calls;
      n := n + 1;
    }
    assert calls + [] == calls;
    return Effect(calls, false);
  }

  method HandleAll<E>(frames: seq<string>, parse: string -> Option<E>) returns (r: Effect<E>)
    ensures r == HandleFrames(frames, parse)
  {
    var calls: seq<Callback<E>> := [];
    var n := 0;
    assert frames[0..] == frames;
    AfterNothing(HandleFrames(frames, parse));
    while n < |frames|
      invariant 0 <= n <= |frames|
      invariant HandleFrames(frames, parse) == After(calls, HandleFrames(frames[n..], parse))
    {
      assert frames[n..][1..] == frames[n + 1..];
      var one := HandleFrame(frames[n], parse);
      if one.stops {
        return Effect(calls + one.calls, true);
      }
      AfterAfter(calls, one.calls, HandleFrames(frames[n + 1..], parse));
      calls := calls + one.calls;
      n := n + 1;
    }
    assert calls + [] == calls;
    return Effect(calls, false);
  }

  /** The calls already made, followed by an effect. */
  function After<E>(calls: seq<Callback<E>>, e: Effect<E>): Effect<E> {
    Effect(calls + e.calls, e.stops)
  }

  lemma AfterNothing<E>(e: Effect<E>)
    ensures After([], e) == e
  {
    assert [] + e.calls == e.calls;
  }

  lemma AfterAfter<E>(a: seq<Callback<E>>, b: seq<Callback<E>>, e: Effect<E>)
    ensures After(a + b, e) == After(a, After(b, e))
  {
    assert a + b + e.calls == a + (b + e.calls);
  }

  // ---------------------------------------------------------------- what splitting means

  function Rejoin(frames: seq<string>, rest: string): string {
    if frames == [] then rest else frames[0] + "\n\n" + Rejoin(frames[1..], rest)
  }

  /** The frames and remainder are the text cut at blank lines, and contain none themselves. */
  lemma {:induction false} SplitIsCutAtBlankLines(t: string)
    ensures var (frames, rest) := SplitFrames(t);
            && Rejoin(frames, rest) == t
            && (forall i: nat | i < |rest| :: !BreakAt(rest, i))
            && forall f: string, i: nat | f in frames && i < |f| :: !BreakAt(f, i)
    decreases |t|
  {
    match FindBreak(t, 0)
    case None =>
    case Some(i) =>
      SplitIsCutAtBlankLines(t[i + 2..]);
      assert t == t[..i] + "\n\n" + t[i + 2..];
      forall j: nat | j < |t[..i]| ensures !BreakAt(t[..i], j) {
        assert !BreakAt(t, j);
      }
  }

  function RejoinLines(lines: seq<string>): string {
    if lines == [] then ""
    else if |lines| == 1 then lines[0]
    else lines[0] + "\n" + RejoinLines(lines[1..])
  }

  /** The lines of a frame are the frame cut at every newline. */
  lemma {:induction false} LinesAreCutAtNewlines(t: string)
    ensures SplitLines(t) != [] && RejoinLines(SplitLines(t)) == t
    ensures forall l: string | l in SplitLines(t) :: '\n' !in l
  {
    if t != "" {
      LinesAreCutAtNewlines(t[1..]);
      var rest := SplitLines(t[1..]);
      assert t == [t[0]] + t[1..];
      if t[0] != '\n' {
        assert SplitLines(t)[1..] == rest[1..];
        assert rest[0] in rest;
      } else {
        assert SplitLines(t)[1..] == rest;
      }
    }
  }

  // ---------------------------------------------------------------- what a frame does

  /** Line i is the first of the lines that begins with the prefix. */
  ghost predicate FirstLine(lines: seq<string>, prefix: string, i: nat) {
    i < |lines| && prefix <= lines[i] && forall j | 0 <= j < i :: !(prefix <= lines[j])
  }

  lemma {:induction false} FirstWithPrefixExactly(lines: seq<string>, prefix: string, i: nat)
    requires FirstLine(lines, prefix, i)
    ensures FirstWithPrefix(lines, prefix) == Some(lines[i])
  {
    if i > 0 {
      assert forall j | 0 <= j < i - 1 :: lines[1..][j] == lines[j + 1];
      FirstWithPrefixExactly(lines[1..], prefix, i - 1);
    }
  }

  lemma {:induction false} NoneWithPrefix(lines: seq<string>, prefix: string)
    requires forall i | 0 <= i < |lines| :: !(prefix <= lines[i])
    ensures FirstWithPrefix(lines, prefix) == None
  {
    if lines != [] {
      NoneWithPrefix(lines[1..], prefix);
    }
  }

  /** A frame without a data line causes no call and lets the stream go on. */
  lemma FrameWithoutData<E>(frame: string, parse: string -> Option<E>)
    requires forall i | 0 <= i < |SplitLines(frame)| :: !("data: " <= SplitLines(frame)[i])
    ensures HandleFrame(frame, parse).calls == [] && !HandleFrame(frame, parse).stops
  {
    NoneWithPrefix(SplitLines(frame), "data: ");
  }

  /**
   With line d the first data line: the text after its prefix is the payload. The stream stops
   exactly when the first event line, if there is one, is session_expired, and the callback,
   made exactly when the payload parses, is then the one for the limit and otherwise the one
   for an event.
   */
  lemma FrameWithData<E>(frame: string, parse: string -> Option<E>, d: nat)
    requires FirstLine(SplitLines(frame), "data: ", d)
    ensures var (lines, r) := (SplitLines(frame), HandleFrame(frame, parse));
            && (r.stops <==> exists v: nat :: FirstLine(lines, "event: ", v) && lines[v] == "event: session_expired")
            && match parse(lines[d][6..])
               case None => r.calls == []
               case Some(payload) => r.calls == [if r.stops then OnLimit(payload) else OnEvent(payload)]
  {
    var lines := SplitLines(frame);
    FirstWithPrefixExactly(lines, "data: ", d);
    if v: nat :| FirstLine(lines, "event: ", v) {
      FirstWithPrefixExactly(lines, "event: ", v);
      forall u: nat | FirstLine(lines, "event: ", u) ensures lines[u] == lines[v] {
        FirstWithPrefixExactly(lines, "event: ", u);
      }
    } else {
      NoFirstLine(lines, "event: ");
      NoneWithPrefix(lines, "event: ");
    }
  }

  lemma {:induction false} NoFirstLine(lines: seq<string>, prefix: string)
    requires forall v: nat :: !FirstLine(lines, prefix, v)
    ensures forall i | 0 <= i < |lines| :: !(prefix <= lines[i])
  {
    var n := 0;
    while n < |lines|
      invariant n <= |lines| && forall j | 0 <= j < n :: !(prefix <= lines[j])
    {
      assert !FirstLine(lines, prefix, n);
      n := n + 1;
    }
  }

  /** The calls of some frames one after the other. */
  function CallsOf<E>(frames: seq<string>, parse: string -> Option<E>): seq<Callback<E>> {
    if frames == [] then []
    else CallsOf(frames[..|frames| - 1], parse) + HandleFrame(frames[|frames| - 1], parse).calls
  }

  /** Frames are handled in order up to the first that stops the stream, that one included, or to the end. */
  lemma {:induction false} HandledInTurn<E>(frames: seq<string>, parse: string -> Option<E>, k: nat)
    requires k <= |frames| && forall i | 0 <= i < k :: !HandleFrame(frames[i], parse).stops
    requires k < |frames| ==> HandleFrame(frames[k], parse).stops
    ensures var r := HandleFrames(frames, parse);
            && (r.stops <==> k < |frames|)
            && r.calls == CallsOf(if k < |frames| then frames[..k + 1] else frames, parse)
  {
    if frames != [] {
      var n := |frames| - 1;
      assert frames == frames[..n] + [frames[n]];
      HandleInPieces(frames[..n], [frames[n]], parse);
      assert HandleFrame(frames[n], parse).calls + [] == HandleFrame(frames[n], parse).calls;
      if k < n {
        HandledInTurn(frames[..n], parse, k);
        assert frames[..n][..k + 1] == frames[..k + 1];
      } else {
        HandledInTurn(frames[..n], parse, n);
        assert frames[..n + 1] == frames;
      }
    }
  }

  // ---------------------------------------------------------------- splitting in pieces

  lemma FindBreakUnique(t: string, from: nat, i: nat)
    requires from <= i < |t| && BreakAt(t, i) && forall j | from <= j < i :: !BreakAt(t, j)
    ensures FindBreak(t, from) == Some(i)
  {
    assert FindBreak(t, from).Some?;
  }

  /** Splitting a text is splitting its beginning and then the remainder together with the end. */
  lemma {:induction false} SplitInPieces(a: string, b: string)
    ensures var (frames, rest) := SplitFrames(a);
            var (more, last) := SplitFrames(rest + b);
            SplitFrames(a + b) == (frames + more, last)
    decreases |a|
  {
    match FindBreak(a, 0)
    case None =>
      var (more, last) := SplitFrames(a + b);
      assert [] + more == more;
    case Some(i) =>
      forall j | 0 <= j < i ensures !BreakAt(a + b, j) {
        assert !BreakAt(a, j);
      }
      FindBreakUnique(a + b, 0, i);
      assert (a + b)[i + 2..] == a[i + 2..] + b;
      assert (a + b)[..i] == a[..i];
      SplitInPieces(a[i + 2..], b);
      var (frames, rest) := SplitFrames(a[i + 2..]);
      var (more, last) := SplitFrames(rest + b);
      assert [a[..i]] + (frames + more) == [a[..i]] + frames + more;
  }

  lemma {:induction false} RemainderHasNoFrame(t: string)
    ensures SplitFrames(SplitFrames(t).1) == ([], SplitFrames(t).1)
    decreases |t|
  {
    match FindBreak(t, 0)
    case None =>
    case Some(i) => RemainderHasNoFrame(t[i + 2..]);
  }

  lemma {:induction false} HandleInPieces<E>(a: seq<string>, b: seq<string>, parse: string -> Option<E>)
    ensures HandleFrames(a + b, parse) ==
            if HandleFrames(a, parse).stops then HandleFrames(a, parse)
            else After(HandleFrames(a, parse).calls, HandleFrames(b, parse))
  {
    if a == [] {
      assert a + b == b;
      AfterNothing(HandleFrames(b, parse));
    } else {
      assert (a + b)[1..] == a[1..] + b;
      HandleInPieces(a[1..], b, parse);
      AfterAfter(HandleFrame(a[0], parse).calls, HandleFrames(a[1..], parse).calls, HandleFrames(b, parse));
    }
  }

  // ---------------------------------------------------------------- chunking is irrelevant

  lemma {:induction false} ChunksReadWhole<E>(buf: string, chunks: seq<string>, parse: string -> Option<E>)
    requires SplitFrames(buf) == ([], buf)
    ensures ReadChunks(buf, chunks, parse) == ReadWhole(buf + Concat(chunks), parse)
    decreases |chunks|
  {
    if chunks == [] {
      assert buf + "" == buf;
    } else {
      var later := Concat(chunks[1..]);
      var (frames, rest) := SplitFrames(buf + chunks[0]);
      SplitInPieces(buf + chunks[0], later);
      assert buf + Concat(chunks) == (buf + chunks[0]) + later;
      RemainderHasNoFrame(buf + chunks[0]);
      HandleInPieces(frames, SplitFrames(rest + later).0, parse);
      ChunksReadWhole(rest, chunks[1..], parse);
    }
  }

  /** The reader's calls and stop are those of reading the concatenated text in one piece. */
  lemma ReaderReadsWhole<E>(chunks: seq<string>, parse: string -> Option<E>)
    ensures ReadChunks("", chunks, parse) == ReadWhole(Concat(chunks), parse)
  {
    ChunksReadWhole("", chunks, parse);
    assert "" + Concat(chunks) == Concat(chunks);
  }

  /** Two ways of cutting the same text lead to the same calls and the same stop. */
  lemma CuttingIsIrrelevant<E>(a: seq<string>, b: seq<string>, parse: string -> Option<E>)
    requires Concat(a) == Concat(b)
    ensures ReadChunks("", a, parse) == ReadChunks("", b, parse)
  {
    ReaderReadsWhole(a, parse);
    ReaderReadsWhole(b, parse);
  }
}
