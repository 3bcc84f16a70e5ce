/** One frame of an event stream: its lines, its event name and its data. */
module EventBlock {
  import opened Ordering
  import opened Text
  import opened Sse

  const LF: Byte := 10
  const CR: Byte := 13
  const SPACE: Byte := 32

  // ---- lines ------------------------------------------------------------------------------------------------

  function WithoutCr(line: Bytes): Bytes {
    if line != [] && line[|line| - 1] == CR then line[..|line| - 1] else line
  }

  /** `str::lines`: a line ends with LF or CR LF, and nothing comes after the last line end. */
  function Lines(s: Bytes): seq<Bytes> {
    match Find(s, [LF])
    case None => if s == [] then [] else [s]
    case Some(i) => [WithoutCr(s[..i])] + Lines(s[i + 1..])
  }

  // ---- trimming ---------------------------------------------------------------------------------------------

  /** The encodings of the characters with the property White_Space. */
  predicate IsWhite(c: Bytes) {
    || (|c| == 1 && (9 <= c[0] <= 13 || c[0] == 32))
    || (|c| == 2 && c[0] == 0xc2 && (c[1] == 0x85 || c[1] == 0xa0))
    || (|c| == 3 && c[0] == 0xe1 && c[1] == 0x9a && c[2] == 0x80)
    || (|c| == 3 && c[0] == 0xe2 && c[1] == 0x80 && (0x80 <= c[2] <= 0x8a || c[2] in [0xa8, 0xa9, 0xaf]))
    || (|c| == 3 && c[0] == 0xe2 && c[1] == 0x81 && c[2] == 0x9f)
    || (|c| == 3 && c[0] == 0xe3 && c[1] == 0x80 && c[2] == 0x80)
  }

  /** The width of the white space at the front, 0 if there is none. */
  function WhiteFront(s: Bytes): (n: nat)
    ensures n <= |s|
  {
    if |s| >= 1 && IsWhite(s[..1]) then 1
    else if |s| >= 2 && IsWhite(s[..2]) then 2
    else if |s| >= 3 && IsWhite(s[..3]) then 3
    else 0
  }

  function WhiteBack(s: Bytes): (n: nat)
    ensures n <= |s|
  {
    if |s| >= 1 && IsWhite(s[|s| - 1..]) then 1
    else if |s| >= 2 && IsWhite(s[|s| - 2..]) then 2
    else if |s| >= 3 && IsWhite(s[|s| - 3..]) then 3
    else 0
  }

  function TrimFront(s: Bytes): Bytes
    decreases |s|
  {
    if WhiteFront(s) == 0 then s else TrimFront(s[WhiteFront(s)..])
  }

  function TrimBack(s: Bytes): Bytes
    decreases |s|
  {
    if WhiteBack(s) == 0 then s else TrimBack(s[..|s| - WhiteBack(s)])
  }

  /** `str::trim`. */
  function Trim(s: Bytes): Bytes { TrimBack(TrimFront(s)) }

  // ---- fields -----------------------------------------------------------------------------------------------

  const EVENT: Bytes := [101, 118, 101, 110, 116, 58] // event:
  const DATA: Bytes := [100, 97, 116, 97, 58]         // data:

  /** `strip_prefix`. */
  function StripPrefix(s: Bytes, prefix: Bytes): Option<Bytes> {
    if |prefix| <= |s| && s[..|prefix|] == prefix then Some(s[|prefix|..]) else None
  }

  /** The name that the last event line gives, if any line does. */
  function NameIn(lines: seq<Bytes>): Bytes {
    if lines == [] then []
    else match StripPrefix(lines[|lines| - 1], EVENT)
      case Some(v) => Trim(v)
      case None => NameIn(lines[..|lines| - 1])
  }

  /** What one line adds to the data: at most one space after the field name is dropped. */
  function DataOf(line: Bytes): seq<Bytes> {
    if StripPrefix(line, EVENT).Some? then []
    else match StripPrefix(line, DATA)
      case None => []
      case Some(v) => [match StripPrefix(v, [SPACE]) case Some(w) => w case None => v]
  }

  function DataIn(lines: seq<Bytes>): seq<Bytes> {
    if lines == [] then [] else DataIn(lines[..|lines| - 1]) + DataOf(lines[|lines| - 1])
  }

  // ---- events -----------------------------------------------------------------------------------------------

  const MESSAGE_START: Bytes := [109, 101, 115, 115, 97, 103, 101, 95, 115, 116, 97, 114, 116]
  const CONTENT_BLOCK_DELTA: Bytes :=
    [99, 111, 110, 116, 101, 110, 116, 95, 98, 108, 111, 99, 107, 95, 100, 101, 108, 116, 97]
  const MESSAGE_DELTA: Bytes := [109, 101, 115, 115, 97, 103, 101, 95, 100, 101, 108, 116, 97]
  const MESSAGE_STOP: Bytes := [109, 101, 115, 115, 97, 103, 101, 95, 115, 116, 111, 112]
  const ERROR: Bytes := [101, 114, 114, 111, 114]
  const TEXT_DELTA: Bytes := [116, 101, 120, 116, 95, 100, 101, 108, 116, 97]
  const INPUT_JSON_DELTA: Bytes := [105, 110, 112, 117, 116, 95, 106, 115, 111, 110, 95, 100, 101, 108, 116, 97]

  datatype Delta = Delta(kind: Bytes, text: Bytes)

  datatype MessageChange = MessageChange(outputTokens: Option<nat>, stopReason: Option<string>)

  datatype ReportedError = ReportedError(errorType: string, message: string)

  /** The JSON decoder, for each of the four payloads: `None` when the text does not decode. */
  datatype Json = Json(start: Bytes -> Option<nat>, delta: Bytes -> Option<Delta>,
                       change: Bytes -> Option<MessageChange>, error: Bytes -> Option<ReportedError>)

  function EventFrom(json: Json, name: Bytes, data: Bytes): Option<SseEvent> {
    if name == MESSAGE_START then
      match json.start(data) case None => None case Some(n) => Some(MessageStart(n))
    else if name == CONTENT_BLOCK_DELTA then
      match json.delta(data)
      case None => None
      case Some(d) => if d.kind == TEXT_DELTA then Some(TextDelta(d.text))
                      else if d.kind == INPUT_JSON_DELTA then Some(ToolUseDelta) else None
    else if name == MESSAGE_DELTA then
      match json.change(data)
      case None => None
      case Some(m) => Some(MessageDelta(if m.outputTokens.None? then 0 else m.outputTokens.value, m.stopReason))
    else if name == MESSAGE_STOP then Some(MessageStop)
    else if name == ERROR then
      match json.error(data)
      case None => Some(StreamError("", ""))
      case Some(e) => Some(StreamError(e.errorType, e.message))
    else None
  }

  /** What a block says: the last event name, and all data lines joined. */
  function Parsed(json: Json, block: Bytes): Option<SseEvent> {
    EventFrom(json, NameIn(Lines(block)), Text.Join(LF, DataIn(Lines(block))))
  }

  /** `parse_block`: one loop over the lines that keeps the name and collects the data. */
  method ParseBlock(json: Json, block: Bytes) returns (r: Option<SseEvent>)
    ensures r == Parsed(json, block)
  {
    var lines := Lines(block);
    var name: Bytes, data: seq<Bytes> := [], [];
    for i := 0 to |lines|
      invariant name == NameIn(lines[..i]) && data == DataIn(lines[..i])
    {
      assert lines[..i + 1][..i] == lines[..i];
      var event, value := StripPrefix(lines[i], EVENT), StripPrefix(lines[i], DATA);
      if event.Some? {
        name := Trim(event.value);
      } else if value.Some? {
        var stripped := StripPrefix(value.value, [SPACE]);
        data := data + [if stripped.Some? then stripped.value else value.value];
      }
    }
    assert lines[..|lines|] == lines;
    return EventFrom(json, name, Text.Join(LF, data));
  }

  /** The code's own decoder: its framing rule, its text test, and its reading of a block, with only JSON left open. */
  function CodeDecoder(json: Json): (d: Decoder)
    ensures d.boundary == FrameBoundary && d.valid == ValidUtf8 && forall b :: d.parse(b) == Parsed(json, b)
  {
    FrameBoundarySane((b: Bytes) => Parsed(json, b));
    RawDecoder(FrameBoundary, ValidUtf8, (b: Bytes) => Parsed(json, b))
  }

  // ---- writing a block --------------------------------------------------------------------------------------

  predicate NoLineEnd(s: Bytes) { LF !in s && CR !in s }

  predicate AreLines(lines: seq<Bytes>) { forall i :: 0 <= i < |lines| ==> lines[i] != [] && NoLineEnd(lines[i]) }

  function LineEnd(crlf: bool): Bytes { if crlf then [CR, LF] else [LF] }

  function Written(lines: seq<Bytes>, crlf: bool): Bytes {
    if lines == [] then []
    else if |lines| == 1 then lines[0]
    else lines[0] + (LineEnd(crlf) + Written(lines[1..], crlf))
  }

  lemma LineFeedFound(s: Bytes)
    requires Find(s, [LF]).Some?
    ensures LF in s
  {
    FindFirst(s, [LF]);
    var i := Find(s, [LF]).value;
    assert s[i..i + 1][0] == s[i];
  }

  lemma LastLine(s: Bytes)
    requires s != [] && NoLineEnd(s)
    ensures Lines(s) == [s]
  {
    if Find(s, [LF]).Some? { LineFeedFound(s); }
  }

  lemma FirstLineFeed(line: Bytes, rest: Bytes)
    requires LF !in line
    ensures Find(line + ([LF] + rest), [LF]) == Some(|line|)
  {
    var s, i := line + ([LF] + rest), |line|;
    assert s[i..i + 1] == [LF];
    forall j | 0 <= j < i ensures !OccursAt(s, [LF], j) {
      assert s[j..j + 1][0] == line[j];
    }
    FindUnique(s, [LF], i);
  }

  lemma FirstLine(line: Bytes, crlf: bool, rest: Bytes)
    requires NoLineEnd(line)
    ensures Lines(line + (LineEnd(crlf) + rest)) == [line] + Lines(rest)
  {
    var raw := if crlf then line + [CR] else line;
    var s := raw + ([LF] + rest);
    assert s == line + (LineEnd(crlf) + rest);
    FirstLineFeed(raw, rest);
    assert s[..|raw|] == raw && s[|raw| + 1..] == rest;
    assert WithoutCr(raw) == line;
  }

  lemma {:induction false} LinesReadBack(lines: seq<Bytes>, crlf: bool)
    requires AreLines(lines)
    ensures Lines(Written(lines, crlf)) == lines
  {
    if |lines| == 1 {
      LastLine(lines[0]);
    } else if lines != [] {
      FirstLine(lines[0], crlf, Written(lines[1..], crlf));
      LinesReadBack(lines[1..], crlf);
    }
  }

  /** Neither starts nor ends with white space. */
  predicate Trimmed(s: Bytes) { WhiteFront(s) == 0 && WhiteBack(s) == 0 }

  lemma TrimName(name: Bytes)
    requires Trimmed(name)
    ensures Trim([SPACE] + name) == name
  {
    var s := [SPACE] + name;
    assert s[..1] == [SPACE] && s[1..] == name;
    assert WhiteFront(s) == 1;
    assert TrimFront(s) == TrimFront(name) == name;
  }

  function DataLine(d: Bytes): Bytes { DATA + ([SPACE] + d) }

  /** An event with its name and the lines of its data. */
  function BlockLines(name: Bytes, data: seq<Bytes>): seq<Bytes> { [EVENT + ([SPACE] + name)] + Map(DataLine, data) }

  function Block(name: Bytes, data: seq<Bytes>, crlf: bool): Bytes { Written(BlockLines(name, data), crlf) }

  lemma EventField(name: Bytes)
    requires Trimmed(name)
    ensures var line := EVENT + ([SPACE] + name); NameIn([line]) == name && DataIn([line]) == []
  {
    var line := EVENT + ([SPACE] + name);
    assert line[..6] == EVENT && line[6..] == [SPACE] + name;
    TrimName(name);
    assert [line][..0] == [] && DataOf(line) == [];
  }

  lemma DataField(d: Bytes)
    ensures StripPrefix(DataLine(d), EVENT).None? && DataOf(DataLine(d)) == [d]
  {
    var line, v := DataLine(d), [SPACE] + d;
    assert line[0] == 100;
    assert line[..5] == DATA && line[5..] == v;
    assert v[..1] == [SPACE] && v[1..] == d;
    if |line| >= 6 { assert line[..6][0] == 100; }
  }

  /** `write(d)` is a line that adds `d` to the data. */
  predicate WritesData(write: Bytes -> Bytes, d: Bytes) {
    StripPrefix(write(d), EVENT).None? && DataOf(write(d)) == [d]
  }

  lemma OneMoreData(write: Bytes -> Bytes, lines: seq<Bytes>, d: Bytes)
    requires WritesData(write, d)
    ensures NameIn(lines + [write(d)]) == NameIn(lines) && DataIn(lines + [write(d)]) == DataIn(lines) + [d]
  {
    assert (lines + [write(d)])[..|lines|] == lines;
  }

  lemma MapFirst<S, T>(f: S -> T, s: seq<S>)
    requires s != []
    ensures Map(f, s) == [f(s[0])] + Map(f, s[1..])
  {
  }

  lemma {:induction false} MoreData(write: Bytes -> Bytes, lines: seq<Bytes>, data: seq<Bytes>)
    requires forall d :: WritesData(write, d)
    ensures NameIn(lines + Map(write, data)) == NameIn(lines)
    ensures DataIn(lines + Map(write, data)) == DataIn(lines) + data
    decreases |data|
  {
    if data == [] {
      assert lines + Map(write, data) == lines && DataIn(lines) + data == DataIn(lines);
    } else {
      var d, later := data[0], data[1..];
      OneMoreData(write, lines, d);
      MoreData(write, lines + [write(d)], later);
      MapFirst(write, data);
      AppendAssociates(lines, [write(d)], Map(write, later));
      AppendAssociates(DataIn(lines), [d], later);
      assert [d] + later == data;
    }
  }

  lemma FieldsReadBack(name: Bytes, data: seq<Bytes>)
    requires Trimmed(name)
    ensures NameIn(BlockLines(name, data)) == name && DataIn(BlockLines(name, data)) == data
  {
    EventField(name);
    forall d ensures WritesData(DataLine, d) { DataField(d); }
    MoreData(DataLine, [EVENT + ([SPACE] + name)], data);
    assert [] + data == data;
  }

  lemma BlockLinesFit(name: Bytes, data: seq<Bytes>)
    requires NoLineEnd(name) && forall i :: 0 <= i < |data| ==> NoLineEnd(data[i])
    ensures AreLines(BlockLines(name, data))
  {
    assert NoLineEnd(EVENT) && NoLineEnd(DATA) && NoLineEnd([SPACE]);
    assert NoLineEnd(EVENT + ([SPACE] + name));
    var lines := BlockLines(name, data);
    forall i | 0 < i < |lines| ensures lines[i] != [] && NoLineEnd(lines[i]) {
      assert lines[i] == DataLine(data[i - 1]);
    }
  }

  /** A written event is read back: its name, and its data lines joined, with either line end. */
  lemma BlockReadsBack(json: Json, name: Bytes, data: seq<Bytes>, crlf: bool)
    requires Trimmed(name) && NoLineEnd(name) && forall i :: 0 <= i < |data| ==> NoLineEnd(data[i])
    ensures Parsed(json, Block(name, data, crlf)) == EventFrom(json, name, Text.Join(LF, data))
  {
    BlockLinesFit(name, data);
    LinesReadBack(BlockLines(name, data), crlf);
    FieldsReadBack(name, data);
  }

  lemma StopTrimmed()
    ensures Trimmed(MESSAGE_STOP) && NoLineEnd(MESSAGE_STOP)
  {
    var s := MESSAGE_STOP;
    assert s[..1][0] == 109 && s[..2][0] == 109 && s[..3][0] == 109;
    assert s[11..][0] == 112 && s[10..][0] == 111 && s[9..][0] == 116;
  }
}
