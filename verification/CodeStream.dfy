/** The stream results for the code's own decoder, in the words a guest gets to see. */
module CodeStream {
  import opened Ordering
  import opened Text
  import opened Sse
  import opened EventBlock
  import opened StreamTask

  // ---- what is said -----------------------------------------------------------------------------------------

  /** A host event with its error in words. */
  datatype Said = SaidText(text: Bytes) | SaidUsage(inputTokens: nat, outputTokens: nat) | SaidStop(reason: string)
                | SaidError(invalidRequest: bool, words: string)

  function Say(e: HostEvent): Said {
    match e
    case HostText(text) => SaidText(text)
    case Usage(i, o) => SaidUsage(i, o)
    case Stop(reason) => SaidStop(reason)
    case Error(kind) => SaidError(kind.ToolUseUnsupported?, MessageText(kind))
  }

  /** The wording tells the errors apart: a reported error contains a colon, the decoding error does not. */
  lemma DecodingErrorRecognizable(e: LlmError)
    ensures MessageText(e) == MessageText(InvalidFrame) ==> e == InvalidFrame
  {
    var invalid := MessageText(InvalidFrame);
    assert |invalid| == 26 && forall i :: 0 <= i < |invalid| ==> invalid[i] != ':';
    match e
    case Reported(kind, message) => assert MessageText(e)[|kind|] == ':';
    case ConnectionError(cause) => assert MessageText(e)[23] == ':';
    case ToolUseUnsupported => assert |MessageText(e)| == 51;
    case EndedEarly => assert |MessageText(e)| == 30;
    case InvalidFrame =>
  }

  /** Only the decoding error alone sounds like it. */
  lemma SoundsInvalid(sent: seq<HostEvent>)
    requires Map(Say, sent) == Map(Say, [Error(InvalidFrame)])
    ensures sent == [Error(InvalidFrame)]
  {
    var failed := [Error(InvalidFrame)];
    assert |sent| == |Map(Say, sent)| == |Map(Say, failed)| == 1;
    assert Say(sent[0]) == Map(Say, sent)[0] == Map(Say, failed)[0] == Say(Error(InvalidFrame));
    match sent[0] case Error(kind) => DecodingErrorRecognizable(kind);
  }

  /** What a guest of the code hears of a stream that arrives in these chunks. */
  function Heard(json: Json, chunks: seq<Bytes>): seq<Said> { Map(Say, Sent(CodeDecoder(json), AsData(chunks))) }

  /** Every complete frame of the stream is UTF-8. */
  predicate AllText(json: Json, s: Bytes) { AllValid(CodeDecoder(json), CutFrames(CodeDecoder(json), s).frames) }

  /** The code's parser and its guest see the same, however a stream of UTF-8 frames is cut. */
  lemma CodeIgnoresCuts(json: Json, a: seq<Bytes>, b: seq<Bytes>)
    requires Flatten(a) == Flatten(b)
    ensures FeedAll(CodeDecoder(json), [], a) == FeedAll(CodeDecoder(json), [], b)
    ensures AllText(json, Flatten(a)) ==> Heard(json, a) == Heard(json, b)
  {
    FeedIgnoresCuts(CodeDecoder(json), a, b);
    if AllText(json, Flatten(a)) { ChunkIndependence(CodeDecoder(json), a, b); }
  }

  /** The cut never matters to the guest of the code if and only if all frames are UTF-8, or all frames before the first
      invalid one carry no event or only the count of input tokens. */
  lemma CodeCutsNeverMatterExactly(json: Json, s: Bytes)
    ensures (forall chunks :: Flatten(chunks) == s ==> Heard(json, chunks) == Heard(json, [s]))
       <==> AllText(json, s) || QuietUntilInvalid(CodeDecoder(json), CutFrames(CodeDecoder(json), s).frames)
  {
    var d := CodeDecoder(json);
    CutsNeverMatterExactly(d, s);
    if !AllText(json, s) && !QuietUntilInvalid(d, CutFrames(d, s).frames) {
      WholeFails(d, s);
      var chunks :| Flatten(chunks) == s && Sent(d, AsData(chunks)) != Sent(d, AsData([s]));
      if Heard(json, chunks) == Heard(json, [s]) { SoundsInvalid(Sent(d, AsData(chunks))); }
    }
  }

  // ---- writing a stream -------------------------------------------------------------------------------------

  /** An event as a server writes it: a name, the lines of its data, and the choice of line end. */
  datatype Message = Message(name: Bytes, data: seq<Bytes>, crlf: bool)

  predicate OneTextLine(s: Bytes) { NoLineEnd(s) && ValidUtf8(s) }

  predicate Writable(m: Message) {
    Trimmed(m.name) && OneTextLine(m.name) && forall i :: 0 <= i < |m.data| ==> OneTextLine(m.data[i])
  }

  function FrameOf(m: Message): Frame {
    Frame(Block(m.name, m.data, m.crlf), if m.crlf then CRLF_CRLF else LF_LF)
  }

  function Wire(f: Frame): Bytes { f.text + f.delimiter }

  function Stream(ms: seq<Message>): Bytes { if ms == [] then [] else Wire(FrameOf(ms[0])) + Stream(ms[1..]) }

  function MeantBy(json: Json, m: Message): seq<SseEvent> {
    match EventFrom(json, m.name, Text.Join(LF, m.data)) case Some(e) => [e] case None => []
  }

  function Meant(json: Json, ms: seq<Message>): seq<SseEvent> {
    if ms == [] then [] else MeantBy(json, ms[0]) + Meant(json, ms[1..])
  }

  lemma TidyFirst(line: Bytes, crlf: bool, rest: Bytes)
    requires line != [] && NoLineEnd(line) && Tidy(rest) && rest[0] != LF && rest[0] != CR
    ensures Tidy(line + (LineEnd(crlf) + rest))
  {
    var s, n := line + (LineEnd(crlf) + rest), |line| + |LineEnd(crlf)|;
    forall i | 0 <= i < |s| - 1 ensures s[i] == 10 ==> s[i + 1] != 10 && s[i + 1] != 13 {
      if i < |line| {
        assert s[i] == line[i];
      } else if i + 1 >= n {
        assert s[i + 1] == rest[i + 1 - n];
        if i >= n { assert s[i] == rest[i - n]; }
      }
    }
  }

  lemma {:induction false} WrittenTidy(lines: seq<Bytes>, crlf: bool)
    requires lines != [] && AreLines(lines)
    ensures var w := Written(lines, crlf); Tidy(w) && w[0] != LF && w[0] != CR
  {
    assert lines[0][0] in lines[0] && lines[0][|lines[0]| - 1] in lines[0];
    if |lines| == 1 {
      assert forall i :: 0 <= i < |lines[0]| ==> lines[0][i] in lines[0];
    } else {
      WrittenTidy(lines[1..], crlf);
      TidyFirst(lines[0], crlf, Written(lines[1..], crlf));
    }
  }

  predicate AllUtf8(lines: seq<Bytes>) { forall i :: 0 <= i < |lines| ==> ValidUtf8(lines[i]) }

  lemma {:induction false} WrittenValid(lines: seq<Bytes>, crlf: bool)
    requires AllUtf8(lines)
    ensures ValidUtf8(Written(lines, crlf))
  {
    if |lines| > 1 {
      WrittenValid(lines[1..], crlf);
      LineEndValid(crlf);
      Utf8Append(LineEnd(crlf), Written(lines[1..], crlf));
      Utf8Append(lines[0], LineEnd(crlf) + Written(lines[1..], crlf));
    }
  }

  lemma LineEndValid(crlf: bool)
    ensures ValidUtf8(LineEnd(crlf))
  {
    assert LineEnd(true)[1..] == [LF] && LineEnd(false)[1..] == [];
  }

  lemma FieldValid(field: Bytes, v: Bytes)
    requires ValidUtf8(field) && ValidUtf8(v)
    ensures ValidUtf8(field + ([SPACE] + v))
  {
    AsciiValid([SPACE]);
    Utf8Append([SPACE], v);
    Utf8Append(field, [SPACE] + v);
  }

  lemma FieldNamesValid()
    ensures ValidUtf8(EVENT) && ValidUtf8(DATA)
  {
    AsciiValid(EVENT);
    AsciiValid(DATA);
  }

  lemma DataLineValid(d: Bytes)
    requires OneTextLine(d)
    ensures ValidUtf8(DataLine(d))
  {
    FieldNamesValid();
    FieldValid(DATA, d);
  }

  lemma LinesValid(head: Bytes, write: Bytes -> Bytes, data: seq<Bytes>, crlf: bool)
    requires ValidUtf8(head) && forall d :: OneTextLine(d) ==> ValidUtf8(write(d))
    requires forall i :: 0 <= i < |data| ==> OneTextLine(data[i])
    ensures ValidUtf8(Written([head] + Map(write, data), crlf))
  {
    assert AllUtf8(Map(write, data));
    WrittenValid([head] + Map(write, data), crlf);
  }

  lemma BlockValid(m: Message)
    requires Writable(m)
    ensures ValidUtf8(FrameOf(m).text)
  {
    FieldNamesValid();
    FieldValid(EVENT, m.name);
    forall d | OneTextLine(d) ensures ValidUtf8(DataLine(d)) { DataLineValid(d); }
    LinesValid(EVENT + ([SPACE] + m.name), DataLine, m.data, m.crlf);
  }

  lemma BlockTidy(m: Message)
    requires Writable(m)
    ensures Tidy(FrameOf(m).text)
  {
    assert forall i :: 0 <= i < |m.data| ==> OneTextLine(m.data[i]);
    BlockLinesFit(m.name, m.data);
    WrittenTidy(BlockLines(m.name, m.data), m.crlf);
  }

  /** One tidy frame on the wire is cut off as that frame. */
  lemma OneFrame(d: Decoder, f: Frame)
    requires d.boundary == FrameBoundary && Tidy(f.text) && (f.delimiter == LF_LF || f.delimiter == CRLF_CRLF)
    ensures CutFrames(d, Wire(f)) == Cut([f], [])
  {
    var s, n := Wire(f), |f.text|;
    TidyBoundary(f.text, f.delimiter);
    assert s[..n] == f.text && s[n..n + |f.delimiter|] == f.delimiter && s[n + |f.delimiter|..] == [];
    assert FirstFrame(d, s) == f && AfterFrame(d, s) == [];
    assert Complete(d.boundary, []);
    assert CutFrames(d, []) == Cut([], []);
  }

  lemma FrameThenRest(d: Decoder, f: Frame, rest: Bytes)
    requires CutFrames(d, Wire(f)) == Cut([f], [])
    ensures CutFrames(d, Wire(f) + rest) == Prepend(f, CutFrames(d, rest))
  {
    CutAppend(d, Wire(f), rest);
    assert [] + rest == rest;
  }

  lemma MessageReadsBack(json: Json, m: Message)
    requires Writable(m)
    ensures EventOf(CodeDecoder(json).parse, FrameOf(m)) == MeantBy(json, m)
  {
    assert forall i :: 0 <= i < |m.data| ==> OneTextLine(m.data[i]);
    BlockReadsBack(json, m.name, m.data, m.crlf);
  }

  lemma MessageFrame(json: Json, m: Message)
    requires Writable(m)
    ensures var d, f := CodeDecoder(json), FrameOf(m);
      CutFrames(d, Wire(f)) == Cut([f], []) && d.valid(f.text) && EventOf(d.parse, f) == MeantBy(json, m)
  {
    BlockTidy(m);
    BlockValid(m);
    OneFrame(CodeDecoder(json), FrameOf(m));
    MessageReadsBack(json, m);
  }

  lemma FrameRead(d: Decoder, f: Frame, rest: Bytes)
    requires CutFrames(d, Wire(f)) == Cut([f], []) && d.valid(f.text) && AllValid(d, CutFrames(d, rest).frames)
    ensures var c, more := CutFrames(d, Wire(f) + rest), CutFrames(d, rest);
      AllValid(d, c.frames) && Events(d.parse, c.frames) == EventOf(d.parse, f) + Events(d.parse, more.frames)
      && c.rest == more.rest
  {
    FrameThenRest(d, f, rest);
    EventsFirst(d.parse, f, CutFrames(d, rest).frames);
    AllValidAppend(d, [f], CutFrames(d, rest).frames);
  }

  lemma {:induction false} StreamFrames(json: Json, ms: seq<Message>)
    requires forall i :: 0 <= i < |ms| ==> Writable(ms[i])
    ensures var d, c := CodeDecoder(json), CutFrames(CodeDecoder(json), Stream(ms));
      AllValid(d, c.frames) && Events(d.parse, c.frames) == Meant(json, ms) && c.rest == []
  {
    var d := CodeDecoder(json);
    if ms == [] {
      assert Complete(d.boundary, []);
    } else {
      StreamFrames(json, ms[1..]);
      MessageFrame(json, ms[0]);
      FrameRead(d, FrameOf(ms[0]), Stream(ms[1..]));
    }
  }

  /** What is written is read: a stream of messages, cut in whatever way, gives exactly the events it means and leaves
      nothing over. */
  lemma StreamReadsBack(json: Json, ms: seq<Message>, chunks: seq<Bytes>)
    requires forall i :: 0 <= i < |ms| ==> Writable(ms[i])
    requires Flatten(chunks) == Stream(ms)
    ensures FeedAll(CodeDecoder(json), [], chunks) == Some((Meant(json, ms), []))
  {
    StreamFrames(json, ms);
    FeedIgnoresCuts(CodeDecoder(json), chunks, chunks);
  }

  // ---- a stream whose cut matters ---------------------------------------------------------------------------

  /** `event: message_stop`. */
  function StopMessage(): Message { Message(MESSAGE_STOP, [], false) }

  /** One byte that is not UTF-8. */
  function BadFrame(): Frame { Frame([255], LF_LF) }

  lemma StopWritable(json: Json)
    ensures Writable(StopMessage()) && MeantBy(json, StopMessage()) == [MessageStop]
  {
    StopTrimmed();
    AsciiValid(MESSAGE_STOP);
  }

  lemma WritableFrame(json: Json, m: Message, e: SseEvent)
    requires Writable(m) && MeantBy(json, m) == [e]
    ensures var d := CodeDecoder(json);
      && CutFrames(d, Wire(FrameOf(m))) == Cut([FrameOf(m)], [])
      && d.valid(FrameOf(m).text) && d.parse(FrameOf(m).text) == Some(e)
  {
    MessageFrame(json, m);
  }

  /** After a stop event in the first chunk the second is never read. */
  lemma StoppedFirst(d: Decoder, a: Bytes, b: Bytes, f: Frame)
    requires CutFrames(d, a) == Cut([f], []) && d.valid(f.text) && d.parse(f.text) == Some(MessageStop)
    ensures Flatten([a, b]) == a + b && Sent(d, AsData([a, b])) == [Error(EndedEarly)]
  {
    TwoChunks(d, a, b);
    EventsFirst(d.parse, f, []);
    assert [f] + [] == [f] && EventOf(d.parse, f) == [MessageStop] && [MessageStop] + [] == [MessageStop];
    HandleAllStep(START, [MessageStop], 0);
    assert [MessageStop][..1] == [MessageStop] && [MessageStop][..0] == [];
  }

  lemma BadSecond(d: Decoder, a: Bytes, b: Bytes, f: Frame, g: Frame)
    requires CutFrames(d, a) == Cut([f], []) && CutFrames(d, b) == Cut([g], []) && !d.valid(g.text)
    ensures Sent(d, AsData([a + b])) == [Error(InvalidFrame)]
  {
    CutAppend(d, a, b);
    assert [] + b == b;
    assert CutFrames(d, a + b).frames == [f] + [g];
    assert ([f] + [g])[1] == g;
    WholeFails(d, a + b);
  }

  /** A stop event and then a frame that is not text: in one piece the guest hears of the bad frame, in two pieces of
      an early end. */
  lemma StreamWithCutThatMatters(json: Json)
    ensures var a, b := Wire(FrameOf(StopMessage())), Wire(BadFrame());
      && Flatten([a, b]) == a + b
      && Sent(CodeDecoder(json), AsData([a + b])) == [Error(InvalidFrame)]
      && Sent(CodeDecoder(json), AsData([a, b])) == [Error(EndedEarly)]
      && Heard(json, [a + b]) != Heard(json, [a, b])
  {
    var d, f, g := CodeDecoder(json), FrameOf(StopMessage()), BadFrame();
    var a, b := Wire(f), Wire(g);
    StopWritable(json);
    WritableFrame(json, StopMessage(), MessageStop);
    OneFrame(d, g);
    StoppedFirst(d, a, b, f);
    BadSecond(d, a, b, f, g);
    if Heard(json, [a, b]) == Heard(json, [a + b]) { SoundsInvalid(Sent(d, AsData([a, b]))); }
  }
}
