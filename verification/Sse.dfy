/** The server-sent-event stream of a completion: the incremental frame parser.

    How one frame is read is a parameter here; `EventBlock` gives the code's own reading.
 */
module Sse {
  import opened Ordering
  import opened Text

  const LF_LF: Bytes := [10, 10]
  const CRLF_CRLF: Bytes := [13, 10, 13, 10]

  // ---- framing ---------------------------------------------------------------------------------

  datatype Boundary = Boundary(frameLen: nat, delimiterLen: nat)

  /** `frame_boundary`: the earlier of the first LF LF and the first CRLF CRLF. */
  function FrameBoundary(buf: Bytes): (r: Option<Boundary>)
    ensures r.Some? ==> 0 < r.value.delimiterLen && r.value.frameLen + r.value.delimiterLen <= |buf|
  {
    var lf, crlf := Find(buf, LF_LF), Find(buf, CRLF_CRLF);
    if lf.Some? && (crlf.None? || lf.value <= crlf.value) then Some(Boundary(lf.value, 2))
    else if crlf.Some? then Some(Boundary(crlf.value, 4))
    else None
  }

  /** Text that does not end in a line end and has no empty line. */
  predicate Tidy(s: Bytes) {
    && s != [] && s[|s| - 1] != 10 && s[|s| - 1] != 13
    && forall i :: 0 <= i < |s| - 1 && s[i] == 10 ==> s[i + 1] != 10 && s[i + 1] != 13
  }

  lemma LfLfBytes(s: Bytes, i: nat)
    requires OccursAt(s, LF_LF, i)
    ensures s[i] == 10 && s[i + 1] == 10
  {
    assert s[i..i + 2][0] == s[i] && s[i..i + 2][1] == s[i + 1];
  }

  lemma CrlfBytes(s: Bytes, i: nat)
    requires OccursAt(s, CRLF_CRLF, i)
    ensures s[i] == 13 && s[i + 1] == 10 && s[i + 2] == 13
  {
    assert s[i..i + 4][0] == s[i] && s[i..i + 4][1] == s[i + 1] && s[i..i + 4][2] == s[i + 2];
  }

  lemma TidyHidesNothing(s: Bytes, t: Bytes, i: nat)
    requires Tidy(s) && i < |s|
    ensures !OccursAt(s + t, LF_LF, i) && !OccursAt(s + t, CRLF_CRLF, i)
  {
    var z := s + t;
    if OccursAt(z, LF_LF, i) {
      LfLfBytes(z, i);
    } else if OccursAt(z, CRLF_CRLF, i) {
      CrlfBytes(z, i);
    }
  }

  lemma DelimiterOccurs(s: Bytes, e: Bytes)
    ensures OccursAt(s + e, e, |s|)
  {
    assert (s + e)[|s|..] == e;
  }

  lemma NoLfLf(s: Bytes, i: nat)
    requires |s| <= i
    ensures !OccursAt(s + CRLF_CRLF, LF_LF, i)
  {
    var z := s + CRLF_CRLF;
    if i + 2 <= |z| {
      assert z[i..i + 2][0] == CRLF_CRLF[i - |s|] && z[i..i + 2][1] == CRLF_CRLF[i - |s| + 1];
    }
  }

  /** Such a text is a frame as soon as either delimiter follows it. */
  lemma TidyBoundary(s: Bytes, e: Bytes)
    requires Tidy(s) && (e == LF_LF || e == CRLF_CRLF)
    ensures FrameBoundary(s + e) == Some(Boundary(|s|, |e|))
  {
    DelimiterOccurs(s, e);
    forall i | 0 <= i < |s| ensures !OccursAt(s + e, LF_LF, i) && !OccursAt(s + e, CRLF_CRLF, i) {
      TidyHidesNothing(s, e, i);
    }
    FindUnique(s + e, e, |s|);
    FindFirst(s + e, LF_LF);
    FindFirst(s + e, CRLF_CRLF);
    if e == CRLF_CRLF && Find(s + e, LF_LF).Some? { NoLfLf(s, Find(s + e, LF_LF).value); }
  }

  /** Bytes that arrive later never move a boundary that is already complete. */
  lemma BoundaryStable(s: Bytes, t: Bytes)
    requires FrameBoundary(s).Some?
    ensures FrameBoundary(s + t) == FrameBoundary(s)
  {
    var lf, crlf := Find(s, LF_LF), Find(s, CRLF_CRLF);
    if lf.Some? { FindAppend(s, t, LF_LF); }
    if crlf.Some? { FindAppend(s, t, CRLF_CRLF); }
    FindFirst(s, LF_LF);
    FindFirst(s, CRLF_CRLF);
    FindFirst(s + t, LF_LF);
    FindFirst(s + t, CRLF_CRLF);
    var lf', crlf' := Find(s + t, LF_LF), Find(s + t, CRLF_CRLF);
    if crlf.None? && crlf'.Some? { LateCrlf(s, t, lf.value, crlf'.value); }
    if lf.None? && lf'.Some? && lf'.value + 2 <= |s| { OccursAtAppend(s, t, LF_LF, lf'.value); }
  }

  /** A CRLF CRLF completed by later bytes cannot start before an LF LF that is already there. */
  lemma LateCrlf(s: Bytes, t: Bytes, p: nat, q: nat)
    requires OccursAt(s, LF_LF, p) && OccursAt(s + t, CRLF_CRLF, q) && !OccursAt(s, CRLF_CRLF, q)
    ensures p <= q
  {
    if q + 4 <= |s| {
      OccursAtAppend(s, t, CRLF_CRLF, q);
    } else {
      assert (s + t)[q + 2] == (s + t)[q..q + 4][2] == 13;
      assert s[p + 1] == s[p..p + 2][1] == 10;
      assert q + 2 < |s| ==> (s + t)[q + 2] == s[q + 2];
    }
  }

  lemma FindInPrefix(s: Bytes, n: nat, pat: Bytes)
    requires pat != [] && n <= |s|
    ensures Find(s, pat).Some? && Find(s, pat).value + |pat| <= n ==> Find(s[..n], pat) == Find(s, pat)
    ensures Find(s[..n], pat).Some? ==> Find(s, pat) == Find(s[..n], pat)
  {
    assert s[..n] + s[n..] == s;
    if Find(s[..n], pat).Some? {
      FindAppend(s[..n], s[n..], pat);
    } else if Find(s, pat).Some? && Find(s, pat).value + |pat| <= n {
      FindFirst(s, pat);
      FindFirst(s[..n], pat);
      OccursAtAppend(s[..n], s[n..], pat, Find(s, pat).value);
    }
  }

  /** A boundary is visible as soon as its delimiter is complete. */
  lemma BoundaryTight(s: Bytes, n: nat)
    requires FrameBoundary(s).Some? && n == FrameBoundary(s).value.frameLen + FrameBoundary(s).value.delimiterLen
    ensures FrameBoundary(s[..n]) == FrameBoundary(s)
  {
    FindInPrefix(s, n, LF_LF);
    FindInPrefix(s, n, CRLF_CRLF);
  }

  // ---- events ----------------------------------------------------------------------------------

  datatype SseEvent =
    | MessageStart(inputTokens: nat)
    | TextDelta(text: Bytes)
    | ToolUseDelta
    | MessageDelta(outputTokens: nat, stopReason: Option<string>)
    | MessageStop
    | StreamError(errorType: string, message: string)

  /** The errors the stream task can send; `MessageText` gives their wording. */
  datatype LlmError =
    | ToolUseUnsupported                             // the only `InvalidRequest`
    | ConnectionError(cause: string)                 // all others are `Api` errors
    | InvalidFrame
    | Reported(errorType: string, message: string)
    | EndedEarly

  function MessageText(e: LlmError): string {
    match e
    case ToolUseUnsupported => "tool-use streaming is not supported; use complete()"
    case ConnectionError(cause) => "stream connection error: " + cause
    case InvalidFrame => "invalid UTF-8 in SSE frame"
    case Reported(errorType, message) => errorType + ": " + message
    case EndedEarly => "stream ended before completion"
  }

  datatype HostEvent =
    | HostText(text: Bytes)
    | Usage(inputTokens: nat, outputTokens: nat)
    | Stop(reason: string)
    | Error(kind: LlmError)

  type Parse = Bytes -> Option<SseEvent>

  // ---- decoders ---------------------------------------------------------------------------------

  /** A framing rule, the test that a frame is text, and a frame decoder. */
  datatype RawDecoder = RawDecoder(boundary: Bytes -> Option<Boundary>, valid: Bytes -> bool, parse: Parse)

  /** A boundary is complete when it is found, never revised when more bytes arrive, and found without looking at a
      byte beyond the delimiter. */
  ghost predicate Stable(boundary: Bytes -> Option<Boundary>, s: Bytes, t: Bytes) {
    boundary(s).Some? ==> boundary(s + t) == boundary(s)
  }

  ghost predicate Tight(boundary: Bytes -> Option<Boundary>, s: Bytes) {
    boundary(s).Some? && boundary(s).value.frameLen + boundary(s).value.delimiterLen <= |s| ==>
      boundary(s[..boundary(s).value.frameLen + boundary(s).value.delimiterLen]) == boundary(s)
  }

  predicate Complete(boundary: Bytes -> Option<Boundary>, s: Bytes) {
    boundary(s).Some? ==>
      0 < boundary(s).value.delimiterLen && boundary(s).value.frameLen + boundary(s).value.delimiterLen <= |s|
  }

  ghost predicate Sane(d: RawDecoder) {
    && (forall s :: Complete(d.boundary, s))
    && (forall s, t :: Stable(d.boundary, s, t))
    && (forall s :: Tight(d.boundary, s))
  }

  type Decoder = d: RawDecoder | Sane(d) witness RawDecoder(_ => None, _ => true, _ => None)

  lemma FrameBoundarySane(parse: Parse)
    ensures Sane(RawDecoder(FrameBoundary, ValidUtf8, parse))
  {
    forall s, t ensures Stable(FrameBoundary, s, t) {
      if FrameBoundary(s).Some? { BoundaryStable(s, t); }
    }
    forall s ensures Tight(FrameBoundary, s) {
      if FrameBoundary(s).Some? {
        BoundaryTight(s, FrameBoundary(s).value.frameLen + FrameBoundary(s).value.delimiterLen);
      }
    }
  }

  // ---- cutting ---------------------------------------------------------------------------------

  datatype Frame = Frame(text: Bytes, delimiter: Bytes)

  datatype Cut = Cut(frames: seq<Frame>, rest: Bytes)

  function Prepend(f: Frame, c: Cut): Cut { Cut([f] + c.frames, c.rest) }

  /** The first frame of a buffer that holds a complete one, and the bytes after it. */
  function FirstFrame(d: Decoder, buf: Bytes): Frame
    requires d.boundary(buf).Some?
  {
    assert Complete(d.boundary, buf);
    var b := d.boundary(buf).value;
    Frame(buf[..b.frameLen], buf[b.frameLen..b.frameLen + b.delimiterLen])
  }

  function AfterFrame(d: Decoder, buf: Bytes): (r: Bytes)
    requires d.boundary(buf).Some?
    ensures |r| < |buf|
  {
    assert Complete(d.boundary, buf);
    var b := d.boundary(buf).value;
    buf[b.frameLen + b.delimiterLen..]
  }

  /** All complete frames of a buffer, and what is left. */
  function CutFrames(d: Decoder, buf: Bytes): Cut
    decreases |buf|
  {
    if d.boundary(buf).None? then Cut([], buf) else Prepend(FirstFrame(d, buf), CutFrames(d, AfterFrame(d, buf)))
  }

  function Join(c: Cut): Bytes
    decreases |c.frames|
  {
    if c.frames == [] then c.rest
    else c.frames[0].text + c.frames[0].delimiter + Join(Cut(c.frames[1..], c.rest))
  }

  lemma FirstFrameAppend(d: Decoder, a: Bytes, b: Bytes)
    requires d.boundary(a).Some?
    ensures d.boundary(a + b).Some?
    ensures FirstFrame(d, a + b) == FirstFrame(d, a) && AfterFrame(d, a + b) == AfterFrame(d, a) + b
  {
    assert Stable(d.boundary, a, b) && Complete(d.boundary, a);
  }

  lemma FirstFrameClean(d: Decoder, buf: Bytes)
    requires d.boundary(buf).Some?
    ensures d.boundary(FirstFrame(d, buf).text).None?
    ensures FirstFrame(d, buf).text + FirstFrame(d, buf).delimiter + AfterFrame(d, buf) == buf
  {
    assert Complete(d.boundary, buf);
    var p := d.boundary(buf).value.frameLen;
    var text, later := buf[..p], buf[p..];
    assert text + later == buf;
    assert Stable(d.boundary, text, later) && Complete(d.boundary, text);
  }

  lemma JoinPrepend(f: Frame, c: Cut)
    ensures Join(Prepend(f, c)) == f.text + f.delimiter + Join(c)
  {
    assert ([f] + c.frames)[1..] == c.frames;
  }

  /** Frames, delimiters and leftover rebuild the input; nothing complete is left over, and no frame text hides
      a boundary. */
  lemma {:induction false} CutRebuilds(d: Decoder, buf: Bytes)
    ensures Join(CutFrames(d, buf)) == buf
    ensures d.boundary(CutFrames(d, buf).rest).None?
    ensures forall i :: 0 <= i < |CutFrames(d, buf).frames| ==> d.boundary(CutFrames(d, buf).frames[i].text).None?
    decreases |buf|
  {
    if d.boundary(buf).Some? {
      CutRebuilds(d, AfterFrame(d, buf));
      FirstFrameClean(d, buf);
      JoinPrepend(FirstFrame(d, buf), CutFrames(d, AfterFrame(d, buf)));
    }
  }

  lemma SseDelimiter(buf: Bytes)
    requires FrameBoundary(buf).Some?
    ensures var b := FrameBoundary(buf).value;
      buf[b.frameLen..b.frameLen + b.delimiterLen] in {LF_LF, CRLF_CRLF}
  {
    FindFirst(buf, LF_LF);
    FindFirst(buf, CRLF_CRLF);
  }

  ghost predicate Delimited(frames: seq<Frame>) {
    forall i :: 0 <= i < |frames| ==> frames[i].delimiter in {LF_LF, CRLF_CRLF}
  }

  /** Every delimiter is LF LF or CRLF CRLF. */
  lemma {:induction false} SseDelimiters(d: Decoder, buf: Bytes)
    requires d.boundary == FrameBoundary
    ensures Delimited(CutFrames(d, buf).frames)
    decreases |buf|
  {
    if d.boundary(buf).Some? {
      SseDelimiter(buf);
      SseDelimiters(d, AfterFrame(d, buf));
    }
  }

  function Extend(frames: seq<Frame>, c: Cut): Cut { Cut(frames + c.frames, c.rest) }

  lemma ExtendPrepend(f: Frame, c: Cut, d: Cut)
    ensures Extend(Prepend(f, c).frames, d) == Prepend(f, Extend(c.frames, d))
  {
    assert ([f] + c.frames) + d.frames == [f] + (c.frames + d.frames);
  }

  /** Cutting commutes with arrival: cut the first part, keep the leftover, cut the rest behind it. */
  lemma {:induction false} CutAppend(d: Decoder, a: Bytes, b: Bytes)
    ensures CutFrames(d, a + b) == Extend(CutFrames(d, a).frames, CutFrames(d, CutFrames(d, a).rest + b))
    decreases |a|
  {
    if d.boundary(a).None? {
      assert [] + CutFrames(d, a + b).frames == CutFrames(d, a + b).frames;
    } else {
      FirstFrameAppend(d, a, b);
      var f, c := FirstFrame(d, a), CutFrames(d, AfterFrame(d, a));
      CutAppend(d, AfterFrame(d, a), b);
      ExtendPrepend(f, c, CutFrames(d, c.rest + b));
    }
  }

  predicate AllValid(d: Decoder, frames: seq<Frame>) {
    forall i :: 0 <= i < |frames| ==> d.valid(frames[i].text)
  }

  lemma AllValidAppend(d: Decoder, a: seq<Frame>, b: seq<Frame>)
    ensures AllValid(d, a + b) <==> AllValid(d, a) && AllValid(d, b)
  {
    assert forall i :: 0 <= i < |a| ==> a[i] == (a + b)[i];
    assert forall i :: 0 <= i < |b| ==> b[i] == (a + b)[|a| + i];
  }

  function EventOf(parse: Parse, f: Frame): seq<SseEvent> {
    match parse(f.text) case Some(e) => [e] case None => []
  }

  /** The events of a list of frames; frames without an event are skipped. */
  function Events(parse: Parse, frames: seq<Frame>): seq<SseEvent> {
    if frames == [] then [] else EventOf(parse, frames[0]) + Events(parse, frames[1..])
  }

  lemma EventsFirst(parse: Parse, f: Frame, later: seq<Frame>)
    ensures Events(parse, [f] + later) == EventOf(parse, f) + Events(parse, later)
  {
    assert ([f] + later)[1..] == later;
  }

  lemma {:induction false} EventsAppend(parse: Parse, a: seq<Frame>, b: seq<Frame>)
    ensures Events(parse, a + b) == Events(parse, a) + Events(parse, b)
  {
    if a == [] {
      assert a + b == b;
    } else {
      var f, later := a[0], a[1..];
      EventsAppend(parse, later, b);
      assert a == [f] + later;
      AppendAssociates([f], later, b);
      EventsFirst(parse, f, later);
      EventsFirst(parse, f, later + b);
      AppendAssociates(EventOf(parse, f), Events(parse, later), Events(parse, b));
    }
  }

  /** What one `feed` returns: all events, or failure if any completed frame is not UTF-8. */
  function Fed(d: Decoder, buf: Bytes): Option<seq<SseEvent>> {
    var c := CutFrames(d, buf);
    if AllValid(d, c.frames) then Some(Events(d.parse, c.frames)) else None
  }

  class SseParser {
    var buf: Bytes
    const decoder: Decoder

    constructor (decoder: Decoder)
      ensures buf == [] && this.decoder == decoder
    {
      buf := [];
      this.decoder := decoder;
    }

    /** `feed`: append the chunk, then cut off and decode every complete frame. */
    method Feed(chunk: Bytes) returns (r: Option<seq<SseEvent>>)
      modifies this
      ensures r == Fed(decoder, old(buf) + chunk)
      ensures r.Some? ==> buf == CutFrames(decoder, old(buf) + chunk).rest
    {
      buf := buf + chunk;
      r, buf := Drain(decoder, buf);
    }
  }

  /** The loop of `feed`: cut off and decode frames until none is complete. */
  method Drain(d: Decoder, start: Bytes) returns (r: Option<seq<SseEvent>>, buf: Bytes)
    ensures r == Fed(d, start)
    ensures r.Some? ==> buf == CutFrames(d, start).rest
  {
    buf := start;
    var events: seq<SseEvent> := [];
    DrainedIsFed(d, [], start);
    FedMoreEmpty(d, start);
    while d.boundary(buf).Some?
      invariant Drained(d, [], start) == Drained(d, events, buf)
      decreases |buf|
    {
      assert Complete(d.boundary, buf);
      var b := d.boundary(buf).value;
      var text := buf[..b.frameLen];
      buf := buf[b.frameLen + b.delimiterLen..];
      if !d.valid(text) { return None, buf; }
      var e := d.parse(text);
      if e.Some? { events := events + [e.value]; }
    }
    r := Some(events);
  }

  /** The loop as a recursion. */
  function Drained(d: Decoder, events: seq<SseEvent>, buf: Bytes): (Option<seq<SseEvent>>, Bytes)
    decreases |buf|
  {
    if d.boundary(buf).None? then (Some(events), buf)
    else
      var text := FirstFrame(d, buf).text;
      if !d.valid(text) then (None, AfterFrame(d, buf))
      else Drained(d, match d.parse(text) case Some(e) => events + [e] case None => events, AfterFrame(d, buf))
  }

  lemma {:induction false} DrainedIsFed(d: Decoder, events: seq<SseEvent>, buf: Bytes)
    ensures Drained(d, events, buf).0 == FedMore(d, events, buf)
    ensures Drained(d, events, buf).0.Some? ==> Drained(d, events, buf).1 == CutFrames(d, buf).rest
    decreases |buf|
  {
    if d.boundary(buf).None? {
      FedDone(d, events, buf);
    } else {
      FedStep(d, events, buf);
      var text := FirstFrame(d, buf).text;
      DrainedIsFed(d, match d.parse(text) case Some(e) => events + [e] case None => events, AfterFrame(d, buf));
    }
  }

  /** What a feed returns if `events` have been decoded and `buf` is left to look at. */
  function FedMore(d: Decoder, events: seq<SseEvent>, buf: Bytes): Option<seq<SseEvent>> {
    match Fed(d, buf) case None => None case Some(more) => Some(events + more)
  }

  lemma FedMoreEmpty(d: Decoder, buf: Bytes)
    ensures FedMore(d, [], buf) == Fed(d, buf)
  {
    if Fed(d, buf).Some? { assert [] + Fed(d, buf).value == Fed(d, buf).value; }
  }

  lemma FedDone(d: Decoder, events: seq<SseEvent>, buf: Bytes)
    requires d.boundary(buf).None?
    ensures FedMore(d, events, buf) == Some(events)
  {
    assert events + [] == events;
  }

  lemma FedStep(d: Decoder, events: seq<SseEvent>, buf: Bytes)
    requires d.boundary(buf).Some?
    ensures CutFrames(d, buf).rest == CutFrames(d, AfterFrame(d, buf)).rest
    ensures FedMore(d, events, buf)
         == if !d.valid(FirstFrame(d, buf).text) then None
            else FedMore(d, match d.parse(FirstFrame(d, buf).text) case Some(e) => events + [e] case None => events,
                         AfterFrame(d, buf))
  {
    var f, later := FirstFrame(d, buf), CutFrames(d, AfterFrame(d, buf)).frames;
    AllValidAppend(d, [f], later);
    EventsFirst(d.parse, f, later);
    AppendAssociates(events, EventOf(d.parse, f), Events(d.parse, later));
    assert events + [] == events;
  }

  /** Feeding two pieces one after the other gives the events, the leftover or the failure of feeding both at once. */
  lemma FeedComposes(d: Decoder, a: Bytes, b: Bytes)
    ensures CutFrames(d, a + b).rest == CutFrames(d, CutFrames(d, a).rest + b).rest
    ensures Fed(d, a + b)
         == match Fed(d, a) case None => None case Some(events) => FedMore(d, events, CutFrames(d, a).rest + b)
  {
    CutAppend(d, a, b);
    var x, y := CutFrames(d, a).frames, CutFrames(d, CutFrames(d, a).rest + b).frames;
    AllValidAppend(d, x, y);
    EventsAppend(d.parse, x, y);
  }

  function Flatten(chunks: seq<Bytes>): Bytes {
    if chunks == [] then [] else chunks[0] + Flatten(chunks[1..])
  }

  /** Feeding a list of chunks to a parser that holds `buf`: all events and the leftover, or failure at the first chunk
      that fails. */
  function FeedAll(d: Decoder, buf: Bytes, chunks: seq<Bytes>): Option<(seq<SseEvent>, Bytes)>
    decreases |chunks|
  {
    if chunks == [] then Some(([], buf))
    else match Fed(d, buf + chunks[0])
      case None => None
      case Some(events) =>
        match FeedAll(d, CutFrames(d, buf + chunks[0]).rest, chunks[1..])
        case None => None
        case Some(more) => Some((events + more.0, more.1))
  }

  function FedWhole(d: Decoder, s: Bytes): Option<(seq<SseEvent>, Bytes)> {
    match Fed(d, s) case None => None case Some(events) => Some((events, CutFrames(d, s).rest))
  }

  /** Whatever the chunks are, the concatenated events, the leftover and the failure are those of the whole. */
  lemma {:induction false} FeedAllIsFed(d: Decoder, buf: Bytes, chunks: seq<Bytes>)
    requires d.boundary(buf).None?
    ensures FeedAll(d, buf, chunks) == FedWhole(d, buf + Flatten(chunks))
    decreases |chunks|
  {
    if chunks == [] {
      assert buf + Flatten(chunks) == buf;
    } else {
      var first, later := buf + chunks[0], Flatten(chunks[1..]);
      AppendAssociates(buf, chunks[0], later);
      FeedComposes(d, first, later);
      CutRebuilds(d, first);
      FeedAllIsFed(d, CutFrames(d, first).rest, chunks[1..]);
    }
  }

  /** Chunk independence of the parser: any two ways to cut the same bytes give the same events, leftover and failure. */
  lemma FeedIgnoresCuts(d: Decoder, a: seq<Bytes>, b: seq<Bytes>)
    requires Flatten(a) == Flatten(b)
    ensures FeedAll(d, [], a) == FeedAll(d, [], b) == FedWhole(d, Flatten(a))
  {
    assert [] + Flatten(a) == Flatten(a) && Complete(d.boundary, []);
    FeedAllIsFed(d, [], a);
    FeedAllIsFed(d, [], b);
  }
}
