/** The producer that reads a completion stream chunk by chunk and sends host events to a live receiver. */
module StreamTask {
  import opened Ordering
  import opened Text
  import opened Sse

  datatype Phase = Live | Stopped | Returned

  datatype Task = Task(inputTokens: nat, terminalSent: bool, sent: seq<HostEvent>, phase: Phase)

  const START := Task(0, false, [], Live)

  function Fail(t: Task, kind: LlmError): Task {
    t.(sent := t.sent + [Error(kind)], phase := Returned)
  }

  /** One event in the loop of `complete_stream`; an event after a return or a break is never looked at. */
  function Handle(t: Task, e: SseEvent): Task {
    if !t.phase.Live? then t
    else match e
      case MessageStart(n) => t.(inputTokens := n)
      case TextDelta(text) => t.(sent := t.sent + [HostText(text)])
      case ToolUseDelta => Fail(t, ToolUseUnsupported)
      case MessageDelta(out, reason) =>
        t.(sent := t.sent + [Usage(t.inputTokens, out), Stop(if reason.Some? then reason.value else "end_turn")],
           terminalSent := true)
      case MessageStop => t.(phase := Stopped)
      case StreamError(kind, message) => Fail(t, Reported(kind, message))
  }

  function HandleAll(t: Task, events: seq<SseEvent>): Task
    decreases |events|
  {
    if events == [] then t else HandleAll(Handle(t, events[0]), events[1..])
  }

  datatype Chunk = Data(bytes: Bytes) | Broken(error: string)

  function RunChunks(d: Decoder, t: Task, buf: Bytes, chunks: seq<Chunk>): Task
    decreases |chunks|
  {
    if chunks == [] || !t.phase.Live? then t
    else match chunks[0]
      case Broken(e) => Fail(t, ConnectionError(e))
      case Data(bytes) =>
        match Fed(d, buf + bytes)
        case None => Fail(t, InvalidFrame)
        case Some(events) => RunChunks(d, HandleAll(t, events), CutFrames(d, buf + bytes).rest, chunks[1..])
  }

  function Finish(t: Task): seq<HostEvent> {
    if t.phase.Returned? || t.terminalSent then t.sent else t.sent + [Error(EndedEarly)]
  }

  /** Everything the receiver gets for a sequence of chunks. */
  function Sent(d: Decoder, chunks: seq<Chunk>): seq<HostEvent> {
    Finish(RunChunks(d, START, [], chunks))
  }

  lemma {:induction false} HandleAllStep(t: Task, events: seq<SseEvent>, i: nat)
    requires i < |events|
    ensures HandleAll(t, events[..i + 1]) == Handle(HandleAll(t, events[..i]), events[i])
    decreases i
  {
    if i == 0 {
      assert events[..1] == [events[0]] && events[..0] == [];
      assert [events[0]][1..] == [];
    } else {
      var u := Handle(t, events[0]);
      assert events[..i + 1][1..] == events[1..][..i] && events[..i][1..] == events[1..][..i - 1];
      HandleAllStep(u, events[1..], i - 1);
    }
  }

  lemma {:induction false} HandledOut(t: Task, events: seq<SseEvent>)
    requires !t.phase.Live?
    ensures HandleAll(t, events) == t
  {
    if events != [] { HandledOut(t, events[1..]); }
  }

  lemma {:induction false} HandleAllAppend(t: Task, a: seq<SseEvent>, b: seq<SseEvent>)
    ensures HandleAll(t, a + b) == HandleAll(HandleAll(t, a), b)
    decreases |a|
  {
    if a == [] {
      assert a + b == b;
    } else {
      assert (a + b)[1..] == a[1..] + b;
      HandleAllAppend(Handle(t, a[0]), a[1..], b);
    }
  }

  /** The loop over the events of one chunk. */
  method HandleEvents(start: Task, events: seq<SseEvent>) returns (t: Task)
    ensures t == HandleAll(start, events)
  {
    t := start;
    var i := 0;
    while i < |events| && t.phase.Live?
      invariant 0 <= i <= |events| && t == HandleAll(start, events[..i])
    {
      HandleAllStep(start, events, i);
      t := Handle(t, events[i]);
      i := i + 1;
    }
    assert events == events[..i] + events[i..];
    HandleAllAppend(start, events[..i], events[i..]);
    if !t.phase.Live? { HandledOut(t, events[i..]); }
  }

  /** The loop over the chunks from position `k` on. */
  function RunFrom(d: Decoder, t: Task, buf: Bytes, chunks: seq<Chunk>, k: nat): Task
    requires k <= |chunks|
    decreases |chunks| - k
  {
    if k == |chunks| || !t.phase.Live? then t
    else match chunks[k]
      case Broken(e) => Fail(t, ConnectionError(e))
      case Data(bytes) =>
        match Fed(d, buf + bytes)
        case None => Fail(t, InvalidFrame)
        case Some(events) => RunFrom(d, HandleAll(t, events), CutFrames(d, buf + bytes).rest, chunks, k + 1)
  }

  lemma {:induction false} RunFromSuffix(d: Decoder, t: Task, buf: Bytes, chunks: seq<Chunk>, k: nat)
    requires k <= |chunks|
    ensures RunFrom(d, t, buf, chunks, k) == RunChunks(d, t, buf, chunks[k..])
    decreases |chunks| - k
  {
    if k < |chunks| && t.phase.Live? && chunks[k].Data? {
      var all := buf + chunks[k].bytes;
      var rest := chunks[k..];
      assert rest[0] == chunks[k] && rest[1..] == chunks[k + 1..];
      if Fed(d, all).Some? { RunFromSuffix(d, HandleAll(t, Fed(d, all).value), CutFrames(d, all).rest, chunks, k + 1); }
    }
  }

  /** The producer as written: a loop over chunks around the loop over the events of each chunk. */
  method Run(d: Decoder, chunks: seq<Chunk>) returns (sent: seq<HostEvent>)
    ensures sent == Sent(d, chunks)
  {
    RunFromSuffix(d, START, [], chunks, 0);
    assert chunks[0..] == chunks;
    sent := RunLoop(d, chunks);
  }

  method RunLoop(d: Decoder, chunks: seq<Chunk>) returns (sent: seq<HostEvent>)
    ensures sent == Finish(RunFrom(d, START, [], chunks, 0))
  {
    var parser := new SseParser(d);
    var t := START;
    var k := 0;
    ghost var end := RunFrom(d, START, [], chunks, 0);
    while k < |chunks| && t.phase.Live?
      invariant 0 <= k <= |chunks| && parser.decoder == d && fresh(parser)
      invariant end == RunFrom(d, t, parser.buf, chunks, k)
    {
      if chunks[k].Broken? { return t.sent + [Error(ConnectionError(chunks[k].error))]; }
      var r := parser.Feed(chunks[k].bytes);
      if r.None? { return t.sent + [Error(InvalidFrame)]; }
      t := HandleEvents(t, r.value);
      k := k + 1;
    }
    sent := t.sent;
    if !t.phase.Returned? && !t.terminalSent { sent := sent + [Error(EndedEarly)]; }
  }

  // ---- shape of the sent sequence -----------------------------------------------------------------

  predicate NoError(s: seq<HostEvent>) { forall i :: 0 <= i < |s| ==> !s[i].Error? }

  predicate HasStop(s: seq<HostEvent>) { exists i :: 0 <= i < |s| && s[i].Stop? }

  /** An error is the last thing sent; before it, none was. */
  predicate ErrorOnlyLast(s: seq<HostEvent>) { forall i :: 0 <= i < |s| - 1 ==> !s[i].Error? }

  ghost predicate WellFormed(t: Task) {
    && (t.terminalSent ==> HasStop(t.sent))
    && (!t.phase.Returned? ==> NoError(t.sent))
    && (t.phase.Returned? ==> t.sent != [] && t.sent[|t.sent| - 1].Error? && ErrorOnlyLast(t.sent))
  }

  lemma HandleWellFormed(t: Task, e: SseEvent)
    requires WellFormed(t)
    ensures WellFormed(Handle(t, e))
  {
    var u := Handle(t, e);
    if t.terminalSent {
      var i :| 0 <= i < |t.sent| && t.sent[i].Stop?;
      assert u.sent[i] == t.sent[i];
    }
    if t.phase.Live? && e.MessageDelta? { assert u.sent[|t.sent| + 1].Stop?; }
  }

  lemma FailWellFormed(t: Task, kind: LlmError)
    requires WellFormed(t) && t.phase.Live?
    ensures WellFormed(Fail(t, kind))
  {
    if t.terminalSent {
      var i :| 0 <= i < |t.sent| && t.sent[i].Stop?;
      assert Fail(t, kind).sent[i] == t.sent[i];
    }
  }

  lemma {:induction false} HandleAllWellFormed(t: Task, events: seq<SseEvent>)
    requires WellFormed(t)
    ensures WellFormed(HandleAll(t, events))
    decreases |events|
  {
    if events != [] {
      HandleWellFormed(t, events[0]);
      HandleAllWellFormed(Handle(t, events[0]), events[1..]);
    }
  }

  lemma {:induction false} RunWellFormed(d: Decoder, t: Task, buf: Bytes, chunks: seq<Chunk>)
    requires WellFormed(t)
    ensures WellFormed(RunChunks(d, t, buf, chunks))
    decreases |chunks|
  {
    if chunks != [] && t.phase.Live? {
      match chunks[0]
      case Broken(e) => FailWellFormed(t, ConnectionError(e));
      case Data(bytes) =>
        match Fed(d, buf + bytes)
        case None => FailWellFormed(t, InvalidFrame);
        case Some(events) =>
          HandleAllWellFormed(t, events);
          RunWellFormed(d, HandleAll(t, events), CutFrames(d, buf + bytes).rest, chunks[1..]);
    }
  }

  /** Whatever arrives, a live receiver gets a stop or an error, and an error only as the last event. */
  lemma SentAlwaysTerminates(d: Decoder, chunks: seq<Chunk>)
    ensures var s := Sent(d, chunks);
      && ErrorOnlyLast(s)
      && (HasStop(s) || (s != [] && s[|s| - 1].Error?))
  {
    RunWellFormed(d, START, [], chunks);
  }

  // ---- chunk independence --------------------------------------------------------------------------

  function AsData(chunks: seq<Bytes>): seq<Chunk> {
    seq(|chunks|, i requires 0 <= i < |chunks| => Data(chunks[i]))
  }

  /** If every completed frame is UTF-8, the producer sends what one look at the whole stream would send. */
  lemma {:induction false} RunIgnoresCuts(d: Decoder, t: Task, buf: Bytes, chunks: seq<Bytes>)
    requires AllValid(d, CutFrames(d, buf + Flatten(chunks)).frames) && d.boundary(buf).None?
    ensures RunChunks(d, t, buf, AsData(chunks))
         == HandleAll(t, Events(d.parse, CutFrames(d, buf + Flatten(chunks)).frames))
    decreases |chunks|
  {
    var whole := buf + Flatten(chunks);
    if chunks == [] {
      assert whole == buf;
    } else if !t.phase.Live? {
      HandledOut(t, Events(d.parse, CutFrames(d, whole).frames));
    } else {
      var first, later := buf + chunks[0], Flatten(chunks[1..]);
      assert whole == first + later;
      assert AsData(chunks)[1..] == AsData(chunks[1..]);
      FeedComposes(d, first, later);
      CutAppend(d, first, later);
      var rest := CutFrames(d, first).rest;
      AllValidAppend(d, CutFrames(d, first).frames, CutFrames(d, rest + later).frames);
      CutRebuilds(d, first);
      var events := Fed(d, first).value;
      RunIgnoresCuts(d, HandleAll(t, events), rest, chunks[1..]);
      HandleAllAppend(t, events, Events(d.parse, CutFrames(d, rest + later).frames));
    }
  }

  /** Chunk independence: any two ways to cut the same bytes send the same sequence. */
  lemma ChunkIndependence(d: Decoder, a: seq<Bytes>, b: seq<Bytes>)
    requires Flatten(a) == Flatten(b) && AllValid(d, CutFrames(d, Flatten(a)).frames)
    ensures Sent(d, AsData(a)) == Sent(d, AsData(b))
         == Finish(HandleAll(START, Events(d.parse, CutFrames(d, Flatten(a)).frames)))
  {
    assert [] + Flatten(a) == Flatten(a) && Complete(d.boundary, []);
    RunIgnoresCuts(d, START, [], a);
    RunIgnoresCuts(d, START, [], b);
  }

  // ---- exactly when cuts matter ---------------------------------------------------------------------

  /** A frame whose event changes nothing visible. */
  predicate Quiet(d: Decoder, f: Frame) {
    d.valid(f.text) && (d.parse(f.text).None? || d.parse(f.text).value.MessageStart?)
  }

  /** There is a frame that is not UTF-8, and all frames before it are quiet. */
  predicate QuietUntilInvalid(d: Decoder, frames: seq<Frame>) {
    frames != [] && (!d.valid(frames[0].text) || (Quiet(d, frames[0]) && QuietUntilInvalid(d, frames[1..])))
  }

  predicate Untouched(t: Task) { t.phase.Live? && !t.terminalSent && t.sent == [] }

  lemma {:induction false} QuietSplit(d: Decoder, t: Task, a: seq<Frame>, b: seq<Frame>)
    requires QuietUntilInvalid(d, a + b) && Untouched(t)
    ensures AllValid(d, a) ==> QuietUntilInvalid(d, b) && Untouched(HandleAll(t, Events(d.parse, a)))
    decreases |a|
  {
    if a == [] {
      assert a + b == b;
    } else {
      assert (a + b)[0] == a[0] && (a + b)[1..] == a[1..] + b;
      if AllValid(d, a) {
        var e := d.parse(a[0].text);
        var u := if e.Some? then Handle(t, e.value) else t;
        assert AllValid(d, a[1..]);
        QuietSplit(d, u, a[1..], b);
        var head := if e.Some? then [e.value] else [];
        HandleAllAppend(t, head, Events(d.parse, a[1..]));
        assert HandleAll(t, head) == u by { if e.Some? { assert head[1..] == []; } }
      }
    }
  }

  /** With only quiet frames before the first invalid one, every cut sends exactly the decoding error. */
  lemma {:induction false} QuietRunFails(d: Decoder, t: Task, buf: Bytes, chunks: seq<Bytes>)
    requires Untouched(t) && d.boundary(buf).None?
    requires QuietUntilInvalid(d, CutFrames(d, buf + Flatten(chunks)).frames)
    ensures Finish(RunChunks(d, t, buf, AsData(chunks))) == [Error(InvalidFrame)]
    decreases |chunks|
  {
    assert chunks == [] ==> buf + Flatten(chunks) == buf;
    if chunks != [] {
      var first, later := buf + chunks[0], Flatten(chunks[1..]);
      assert buf + Flatten(chunks) == first + later;
      assert AsData(chunks)[1..] == AsData(chunks[1..]);
      CutAppend(d, first, later);
      CutRebuilds(d, first);
      var done := CutFrames(d, first);
      QuietSplit(d, t, done.frames, CutFrames(d, done.rest + later).frames);
      if AllValid(d, done.frames) {
        QuietRunFails(d, HandleAll(t, Events(d.parse, done.frames)), done.rest, chunks[1..]);
      }
    }
  }

  lemma {:induction false} HandleAllGrows(t: Task, events: seq<SseEvent>)
    ensures t.sent <= HandleAll(t, events).sent
    decreases |events|
  {
    if events != [] { HandleAllGrows(Handle(t, events[0]), events[1..]); }
  }

  lemma {:induction false} RunGrows(d: Decoder, t: Task, buf: Bytes, chunks: seq<Chunk>)
    ensures t.sent <= RunChunks(d, t, buf, chunks).sent
    decreases |chunks|
  {
    if chunks != [] && t.phase.Live? && chunks[0].Data? && Fed(d, buf + chunks[0].bytes).Some? {
      var events := Fed(d, buf + chunks[0].bytes).value;
      HandleAllGrows(t, events);
      RunGrows(d, HandleAll(t, events), CutFrames(d, buf + chunks[0].bytes).rest, chunks[1..]);
    }
  }

  lemma NoisyEventShows(d: Decoder, t: Task, e: SseEvent, buf: Bytes, chunks: seq<Chunk>)
    requires Untouched(t) && !e.MessageStart?
    ensures Finish(RunChunks(d, Handle(t, e), buf, chunks)) != [Error(InvalidFrame)]
  {
    var u := Handle(t, e);
    RunGrows(d, u, buf, chunks);
    var r := RunChunks(d, u, buf, chunks);
    assert u.sent != [] ==> Finish(r)[0] == u.sent[0];
    match e
    case StreamError(kind, message) =>
      assert u.sent[0] == Error(Reported(kind, message));
    case MessageStop =>
      assert Finish(r)[0] == Error(EndedEarly);
    case ToolUseDelta => assert u.sent[0] == Error(ToolUseUnsupported);
    case TextDelta(text) => assert u.sent[0] == HostText(text);
    case MessageDelta(_, _) => assert u.sent[0].Usage?;
  }

  /** The bytes of the first complete frame with its delimiter. */
  function Head(d: Decoder, s: Bytes): Bytes
    requires d.boundary(s).Some?
  {
    assert Complete(d.boundary, s);
    s[..d.boundary(s).value.frameLen + d.boundary(s).value.delimiterLen]
  }

  lemma HeadIsOneFrame(d: Decoder, s: Bytes)
    requires d.boundary(s).Some?
    ensures Head(d, s) + AfterFrame(d, s) == s
    ensures CutFrames(d, Head(d, s)) == Cut([FirstFrame(d, s)], [])
  {
    assert Tight(d.boundary, s) && Complete(d.boundary, s) && Complete(d.boundary, []);
    var b, r := d.boundary(s).value, Head(d, s);
    var p, n := b.frameLen, b.frameLen + b.delimiterLen;
    assert r[..p] == s[..p] && r[p..n] == s[p..n] && r[n..] == [];
  }

  /** The state after one more frame. */
  function Absorb(d: Decoder, t: Task, f: Frame): Task {
    match d.parse(f.text) case Some(e) => Handle(t, e) case None => t
  }

  lemma AbsorbFirst(d: Decoder, t: Task, f: Frame, later: seq<Frame>)
    ensures HandleAll(t, Events(d.parse, [f] + later)) == HandleAll(Absorb(d, t, f), Events(d.parse, later))
  {
    EventsAppend(d.parse, [f], later);
    HandleAllAppend(t, Events(d.parse, [f]), Events(d.parse, later));
    assert Events(d.parse, [f][1..]) == [];
    var e := d.parse(f.text);
    if e.Some? {
      assert Events(d.parse, [f]) == [e.value] && [e.value][1..] == [];
    } else {
      assert Events(d.parse, [f]) == [];
    }
  }

  lemma CutBehindFrame(d: Decoder, s: Bytes, tail: Bytes)
    requires d.boundary(s).Some?
    ensures CutFrames(d, Head(d, s) + tail) == Prepend(FirstFrame(d, s), CutFrames(d, tail))
  {
    HeadIsOneFrame(d, s);
    CutAppend(d, Head(d, s), tail);
    assert [] + tail == tail;
  }

  /** Cut right behind the first visible event before an invalid frame. */
  lemma {:induction false} NoisyPrefix(d: Decoder, t: Task, s: Bytes) returns (a: Bytes, b: Bytes, u: Task, e: SseEvent)
    requires !AllValid(d, CutFrames(d, s).frames) && !QuietUntilInvalid(d, CutFrames(d, s).frames) && Untouched(t)
    ensures a + b == s && AllValid(d, CutFrames(d, a).frames) && CutFrames(d, a).rest == []
    ensures Untouched(u) && !e.MessageStart?
    ensures HandleAll(t, Events(d.parse, CutFrames(d, a).frames)) == Handle(u, e)
    decreases |s|
  {
    var f := FirstFrame(d, s);
    var later := CutFrames(d, AfterFrame(d, s)).frames;
    assert ([f] + later)[1..] == later;
    AllValidAppend(d, [f], later);
    HeadIsOneFrame(d, s);
    if !Quiet(d, f) {
      a, b, u, e := Head(d, s), AfterFrame(d, s), t, d.parse(f.text).value;
      AbsorbFirst(d, t, f, []);
      assert [f] + [] == [f];
    } else {
      var a';
      a', b, u, e := NoisyPrefix(d, Absorb(d, t, f), AfterFrame(d, s));
      a := Head(d, s) + a';
      AppendAssociates(Head(d, s), a', b);
      NoisyPrefixStep(d, t, s, a');
    }
  }

  lemma NoisyPrefixStep(d: Decoder, t: Task, s: Bytes, a: Bytes)
    requires d.boundary(s).Some? && d.valid(FirstFrame(d, s).text) && AllValid(d, CutFrames(d, a).frames)
    ensures var c := CutFrames(d, Head(d, s) + a);
      && AllValid(d, c.frames) && c.rest == CutFrames(d, a).rest
      && HandleAll(t, Events(d.parse, c.frames))
         == HandleAll(Absorb(d, t, FirstFrame(d, s)), Events(d.parse, CutFrames(d, a).frames))
  {
    CutBehindFrame(d, s, a);
    AllValidAppend(d, [FirstFrame(d, s)], CutFrames(d, a).frames);
    AbsorbFirst(d, t, FirstFrame(d, s), CutFrames(d, a).frames);
  }

  /** The way a stream is cut never matters if and only if all its completed frames are UTF-8, or all frames before the
      first invalid one are quiet.  (A failing `feed` drops the events it had already decoded from the same chunk.) */
  lemma CutsNeverMatterExactly(d: Decoder, s: Bytes)
    ensures (forall chunks :: Flatten(chunks) == s ==> Sent(d, AsData(chunks)) == Sent(d, AsData([s])))
      <==> AllValid(d, CutFrames(d, s).frames) || QuietUntilInvalid(d, CutFrames(d, s).frames)
  {
    OneChunk(s);
    assert [] + s == s && Complete(d.boundary, []);
    if AllValid(d, CutFrames(d, s).frames) {
      forall chunks | Flatten(chunks) == s ensures Sent(d, AsData(chunks)) == Sent(d, AsData([s])) {
        ChunkIndependence(d, chunks, [s]);
      }
    } else if QuietUntilInvalid(d, CutFrames(d, s).frames) {
      forall chunks | Flatten(chunks) == s ensures Sent(d, AsData(chunks)) == Sent(d, AsData([s])) {
        QuietRunFails(d, START, [], chunks);
        QuietRunFails(d, START, [], [s]);
      }
    } else {
      CutThatMatters(d, s);
    }
  }

  lemma OneChunk(s: Bytes)
    ensures Flatten([s]) == s
  {
    assert [s][1..] == [];
  }

  lemma WholeFails(d: Decoder, s: Bytes)
    requires !AllValid(d, CutFrames(d, s).frames)
    ensures Sent(d, AsData([s])) == [Error(InvalidFrame)]
  {
    assert [] + s == s;
  }

  lemma TwoChunks(d: Decoder, a: Bytes, b: Bytes)
    requires AllValid(d, CutFrames(d, a).frames) && CutFrames(d, a).rest == []
    ensures Flatten([a, b]) == a + b
    ensures Sent(d, AsData([a, b]))
         == Finish(RunChunks(d, HandleAll(START, Events(d.parse, CutFrames(d, a).frames)), [], [Data(b)]))
  {
    assert [a, b][1..] == [b];
    OneChunk(b);
    assert AsData([a, b])[1..] == [Data(b)];
    assert [] + a == a;
  }

  lemma NoisyCut(d: Decoder, a: Bytes, b: Bytes, u: Task, e: SseEvent)
    requires AllValid(d, CutFrames(d, a).frames) && CutFrames(d, a).rest == []
    requires Untouched(u) && !e.MessageStart? && HandleAll(START, Events(d.parse, CutFrames(d, a).frames)) == Handle(u, e)
    ensures Flatten([a, b]) == a + b
    ensures Sent(d, AsData([a, b])) != [Error(InvalidFrame)]
  {
    TwoChunks(d, a, b);
    NoisyEventShows(d, u, e, [], [Data(b)]);
  }

  /** Every stream with a visible frame before its first invalid one has a cut that changes what is sent. */
  lemma CutThatMatters(d: Decoder, s: Bytes)
    requires !AllValid(d, CutFrames(d, s).frames) && !QuietUntilInvalid(d, CutFrames(d, s).frames)
    ensures exists chunks :: Flatten(chunks) == s && Sent(d, AsData(chunks)) != Sent(d, AsData([s]))
  {
    var a, b, u, e := NoisyPrefix(d, START, s);
    WholeFails(d, s);
    NoisyCut(d, a, b, u, e);
    var chunks := [a, b];
    assert Flatten(chunks) == s && Sent(d, AsData(chunks)) != Sent(d, AsData([s]));
  }

  // ---- the guest's end of the channel -----------------------------------------------------------------

  /** `CompletionStreamState` once the producer is done: what is still in the channel, and whether `next` has ended. */
  datatype Stream = Stream(rx: seq<HostEvent>, usage: Option<(nat, nat)>, finished: bool)

  datatype NextResult = Event(event: HostEvent) | Failed(kind: LlmError) | Ended

  /** What one call of `next` returns and leaves behind. */
  function Polled(s: Stream): (NextResult, Stream) {
    if s.finished then (Ended, s)
    else if s.rx == [] then (Ended, s.(finished := true))
    else
      var e, t := s.rx[0], s.(rx := s.rx[1..]);
      match e
      case Error(kind) => (Failed(kind), t.(finished := true))
      case Usage(i, o) => (Event(e), t.(usage := Some((i, o))))
      case _ => (Event(e), t)
  }

  class CompletionStream {
    var state: Stream

    constructor (sent: seq<HostEvent>)
      ensures state == Stream(sent, None, false)
    {
      state := Stream(sent, None, false);
    }

    /** `next`. */
    method Next() returns (r: NextResult)
      modifies this
      ensures (r, state) == Polled(old(state))
    {
      if state.finished { return Ended; }
      if state.rx == [] {
        state := state.(finished := true);
        return Ended;
      }
      var e := state.rx[0];
      state := state.(rx := state.rx[1..]);
      if e.Error? {
        state := state.(finished := true);
        return Failed(e.kind);
      }
      if e.Usage? { state := state.(usage := Some((e.inputTokens, e.outputTokens))); }
      return Event(e);
    }
  }

  function NextAfter(s: Stream, calls: nat): NextResult
    decreases calls
  {
    if calls == 0 then Polled(s).0 else NextAfter(Polled(s).1, calls - 1)
  }

  lemma {:induction false} FinishedStays(s: Stream, k: nat)
    requires s.finished
    ensures NextAfter(s, k) == Ended
  {
    if k > 0 { FinishedStays(s, k - 1); }
  }

  lemma {:induction false} NextDelivers(s: Stream, k: nat)
    requires ErrorOnlyLast(s.rx) && !s.finished
    ensures NextAfter(s, k)
         == if k >= |s.rx| then Ended else if s.rx[k].Error? then Failed(s.rx[k].kind) else Event(s.rx[k])
    decreases k
  {
    if k > 0 {
      var t := Polled(s).1;
      if t.finished { FinishedStays(t, k - 1); } else { NextDelivers(t, k - 1); }
    }
  }

  /** A guest that keeps calling `next` gets every sent event in order, one failure at most and only at the end,
      and then the end of the stream for ever. */
  lemma GuestSeesEverything(d: Decoder, chunks: seq<Chunk>, k: nat)
    ensures var sent := Sent(d, chunks);
      NextAfter(Stream(sent, None, false), k)
      == if k >= |sent| then Ended else if sent[k].Error? then Failed(sent[k].kind) else Event(sent[k])
  {
    SentAlwaysTerminates(d, chunks);
    NextDelivers(Stream(Sent(d, chunks), None, false), k);
  }
}
