/** MeshCore serial frames (lunarcore/lunar/protocol.c): sync bytes, length, command, sequence, data, checksum, end. */
module MeshCoreFrames {
  import opened Bytes
  import opened Streaming
  import opened Crc16

  const SYNC1: byte := 0xAA
  const SYNC2: byte := 0x55
  const END: byte := 0x0D
  const MAX_DATA_SIZE: nat := 255
  const MAX_FRAME_SIZE: nat := 264

  datatype Command =
    | Ping | Pong | Configure | ConfigAck | Transmit | TxDone | TxError | Receive
    | GetStats | StatsResponse | Cad | CadResult | Reset | Version | VersionResponse | ErrorReport

  type Data = s: seq<byte> | |s| <= MAX_DATA_SIZE witness []

  datatype Frame = Frame(command: Command, sequence: byte, data: Data)

  function CommandByte(c: Command): (b: byte)
  {
    match c
    case Ping => 0x01 case Pong => 0x02 case Configure => 0x10 case ConfigAck => 0x11
    case Transmit => 0x20 case TxDone => 0x21 case TxError => 0x22 case Receive => 0x30
    case GetStats => 0x40 case StatsResponse => 0x41 case Cad => 0x50 case CadResult => 0x51
    case Reset => 0xF0 case Version => 0xF1 case VersionResponse => 0xF2 case ErrorReport => 0xFF
  }

  function CommandFromByte(b: byte): (c: Option<Command>)
  {
    if b == 0x01 then Some(Ping) else if b == 0x02 then Some(Pong)
    else if b == 0x10 then Some(Configure) else if b == 0x11 then Some(ConfigAck)
    else if b == 0x20 then Some(Transmit) else if b == 0x21 then Some(TxDone)
    else if b == 0x22 then Some(TxError) else if b == 0x30 then Some(Receive)
    else if b == 0x40 then Some(GetStats) else if b == 0x41 then Some(StatsResponse)
    else if b == 0x50 then Some(Cad) else if b == 0x51 then Some(CadResult)
    else if b == 0xF0 then Some(Reset) else if b == 0xF1 then Some(Version)
    else if b == 0xF2 then Some(VersionResponse) else if b == 0xFF then Some(ErrorReport)
    else None
  }

  lemma CommandRoundTrip(c: Command, b: byte)
    ensures CommandFromByte(b) == Some(c) <==> b == CommandByte(c)
  {
  }

  // ---------------------------------------------------------------- encoding

  /** A frame on the wire, for any command byte and any checksum value. */
  function Wire(command: byte, sequence: byte, data: Data, crc: u16): (s: seq<byte>)
    ensures |s| == |data| + 9
  {
    Head(command, sequence, |data|) + data + Tail(crc)
  }

  function Head(command: byte, sequence: byte, len: u16): (s: seq<byte>)
  {
    [SYNC1, SYNC2, len % 0x100, len / 0x100, command, sequence]
  }

  function Tail(crc: u16): (s: seq<byte>)
  {
    [crc % 0x100, crc / 0x100, END]
  }

  function Body(command: byte, sequence: byte, data: seq<byte>): (s: seq<byte>)
  {
    [command, sequence] + data
  }

  function Encode(f: Frame): (s: seq<byte>)
    ensures |s| == |f.data| + 9
  {
    Wire(CommandByte(f.command), f.sequence, f.data, Checksum(Body(CommandByte(f.command), f.sequence, f.data)))
  }

  /** The frame byte by byte: 0xAA 0x55, data length low byte first, command, sequence, data, checksum of everything
      from the command on, low byte first, 0x0D. */
  lemma FrameBytes(f: Frame)
    ensures var e, n := Encode(f), |f.data|;
      && |e| == n + 9 && n <= 255
      && e[..6] == [0xAA, 0x55, n % 0x100, n / 0x100, CommandByte(f.command), f.sequence]
      && e[6..6 + n] == f.data
      && e[6 + n] as int + 0x100 * e[7 + n] as int == Checksum(e[4..6 + n]) && e[8 + n] == 0x0D
  {
    hide Checksum;
    var e, n := Encode(f), |f.data|;
    assert e[4..6 + n] == Body(CommandByte(f.command), f.sequence, f.data);
  }

  lemma CommandCodes()
    ensures CommandByte(Ping) == 0x01 && CommandByte(Pong) == 0x02
    ensures CommandByte(Configure) == 0x10 && CommandByte(ConfigAck) == 0x11
    ensures CommandByte(Transmit) == 0x20 && CommandByte(TxDone) == 0x21 && CommandByte(TxError) == 0x22
    ensures CommandByte(Receive) == 0x30 && CommandByte(GetStats) == 0x40 && CommandByte(StatsResponse) == 0x41
    ensures CommandByte(Cad) == 0x50 && CommandByte(CadResult) == 0x51 && CommandByte(Reset) == 0xF0
    ensures CommandByte(Version) == 0xF1 && CommandByte(VersionResponse) == 0xF2 && CommandByte(ErrorReport) == 0xFF
  {
  }

  method EncodeFrame(f: Frame, out: array<byte>) returns (len: nat)
    requires out.Length == MAX_FRAME_SIZE
    modifies out
    ensures len <= MAX_FRAME_SIZE && out[..len] == Encode(f)
  {
    hide Checksum;
    len := WriteBody(f, out);
    ghost var prefix := out[..len];
    assert out[4..len] == prefix[4..] == Body(CommandByte(f.command), f.sequence, f.data);
    var crc := ComputeCrc16(out[4..len]);
    out[len], out[len + 1], out[len + 2] := crc % 0x100, crc / 0x100, END;
    len := len + 3;
    assert out[..len] == prefix + Tail(crc);
  }

  method WriteBody(f: Frame, out: array<byte>) returns (len: nat)
    requires out.Length == MAX_FRAME_SIZE
    modifies out
    ensures len == 6 + |f.data| && out[..len] == Head(CommandByte(f.command), f.sequence, |f.data|) + f.data
  {
    var command := CommandByte(f.command);
    var size := |f.data|;
    out[0], out[1] := SYNC1, SYNC2;
    out[2], out[3] := size % 0x100, size / 0x100;
    out[4], out[5] := command, f.sequence;
    len := 6;
    ghost var head := out[..6];
    assert head == Head(command, f.sequence, size);
    for i := 0 to size
      invariant len == 6 + i && out[..len] == head + f.data[..i]
    {
      out[len] := f.data[i];
      assert out[..len + 1] == out[..len] + [f.data[i]];
      len := len + 1;
    }
    assert f.data[..size] == f.data;
  }

  // ---------------------------------------------------------------- parsing

  datatype ParserState =
    | WaitSync1 | WaitSync2 | WaitLenLow | WaitLenHigh | WaitCommand | WaitSequence
    | WaitData | WaitCrcLow | WaitCrcHigh | WaitEnd

  datatype RawParser = Parser(
    state: ParserState, dataLen: u16, dataIdx: nat, command: byte, sequence: byte, data: seq<byte>, crcLow: byte)

  const NEW_PARSER: RawParser := Parser(WaitSync1, 0, 0, 0, 0, [], 0)

  function Restart(p: RawParser): (r: RawParser)
  {
    p.(state := WaitSync1, data := [], dataLen := 0, dataIdx := 0)
  }

  /** The room the data buffer needs is there: at every byte of data the buffer holds data_idx bytes, fewer than
      announced, and at most 255 were announced. */
  predicate Sound(p: RawParser)
  {
    && |p.data| <= MAX_DATA_SIZE
    && (p.state == WaitLenHigh ==> p.dataLen < 0x100)
    && (p.state == WaitCommand || p.state == WaitSequence ==> p.dataLen <= MAX_DATA_SIZE)
    && (p.state == WaitData ==> |p.data| == p.dataIdx < p.dataLen <= MAX_DATA_SIZE)
  }

  function ParseByte(p: RawParser, b: byte): (r: (RawParser, Option<Frame>))
    requires Sound(p)
    ensures Sound(r.0)
  {
    match p.state
    case WaitSync1 => (if b == SYNC1 then p.(state := WaitSync2) else p, None)
    case WaitSync2 =>
      (if b == SYNC2 then p.(state := WaitLenLow) else if b == SYNC1 then p else Restart(p), None)
    case WaitLenLow => (p.(dataLen := b, state := WaitLenHigh), None)
    case WaitLenHigh =>
      var len := p.dataLen + 0x100 * b;
      (if len > MAX_DATA_SIZE then Restart(p) else p.(dataLen := len, state := WaitCommand), None)
    case WaitCommand => (p.(command := b, state := WaitSequence), None)
    case WaitSequence =>
      (p.(sequence := b, data := [], dataIdx := 0, state := if p.dataLen == 0 then WaitCrcLow else WaitData), None)
    case WaitData =>
      (p.(data := p.data + [b], dataIdx := p.dataIdx + 1,
          state := if p.dataIdx + 1 >= p.dataLen then WaitCrcLow else WaitData), None)
    case WaitCrcLow => (p.(crcLow := b, state := WaitCrcHigh), None)
    case WaitCrcHigh =>
      (if p.crcLow + 0x100 * b == Checksum(Body(p.command, p.sequence, p.data)) then p.(state := WaitEnd)
       else Restart(p), None)
    case WaitEnd =>
      var c := CommandFromByte(p.command);
      (Restart(p), if b == END && c.Some? then Some(Frame(c.value, p.sequence, p.data)) else None)
  }

  /** Parsers as they occur: NEW_PARSER is one, and ParseByte never leaves them. */
  type Parser = p: RawParser | Sound(p) witness NEW_PARSER

  function Feed(p: Parser, b: byte): (r: (Parser, Option<Frame>))
  {
    ParseByte(p, b)
  }

  lemma FeedSync(p: Parser, rest: seq<byte>)
    requires p.state == WaitSync1
    ensures var p1: Parser := p.(state := WaitLenLow);
      FeedAll(Feed, p, [SYNC1, SYNC2] + rest) == FeedAll(Feed, p1, rest)
  {
    var h := [SYNC1, SYNC2] + rest;
    var p1: Parser := p.(state := WaitSync2);
    FeedOne(Feed, p, h);
    FeedOne(Feed, p1, h[1..]);
    assert h[1..][1..] == rest;
  }

  lemma LengthFed(p: Parser, len: u16)
    requires p.state == WaitLenLow && len <= MAX_DATA_SIZE
    ensures var p1 := p.(state := WaitLenHigh, dataLen := len % 0x100);
      && Feed(p, len % 0x100) == (p1, None)
      && Feed(p1, len / 0x100) == (p.(dataLen := len, state := WaitCommand), None)
  {
  }

  lemma FeedLength(p: Parser, len: u16, rest: seq<byte>)
    requires p.state == WaitLenLow && len <= MAX_DATA_SIZE
    ensures var p1: Parser := p.(dataLen := len, state := WaitCommand);
      FeedAll(Feed, p, [len % 0x100, len / 0x100] + rest) == FeedAll(Feed, p1, rest)
  {
    hide Feed, FeedAll;
    var h := [len % 0x100, len / 0x100] + rest;
    var p1: Parser := p.(state := WaitLenHigh, dataLen := len % 0x100);
    LengthFed(p, len);
    FeedOne(Feed, p, h);
    FeedOne(Feed, p1, h[1..]);
    assert h[1..][1..] == rest;
  }

  lemma FeedCommand(p: Parser, command: byte, sequence: byte)
    requires p.state == WaitCommand
    ensures FeedAll(Feed, p, [command, sequence]) ==
      (p.(command := command, sequence := sequence, data := [], dataIdx := 0,
          state := if p.dataLen == 0 then WaitCrcLow else WaitData), [])
  {
    var h := [command, sequence];
    var p1: Parser := p.(state := WaitSequence, command := command);
    FeedOne(Feed, p, h);
    FeedOne(Feed, p1, h[1..]);
    FeedNothing(Feed, Feed(p1, sequence).0, h[1..][1..]);
  }

  /** The six header bytes. */
  lemma FeedHead(p: Parser, command: byte, sequence: byte, len: u16)
    requires p.state == WaitSync1 && len <= MAX_DATA_SIZE
    ensures FeedAll(Feed, p, Head(command, sequence, len)) ==
      (p.(dataLen := len, command := command, sequence := sequence, data := [], dataIdx := 0,
          state := if len == 0 then WaitCrcLow else WaitData), [])
  {
    hide Feed, FeedAll;
    var rest := [len % 0x100, len / 0x100] + [command, sequence];
    assert Head(command, sequence, len) == [SYNC1, SYNC2] + rest;
    FeedSync(p, rest);
    FeedLength(p.(state := WaitLenLow), len, [command, sequence]);
    FeedCommand(p.(state := WaitCommand, dataLen := len), command, sequence);
  }

  /** The data bytes, from any point on. */
  lemma {:induction false} FeedData(p: Parser, data: seq<byte>)
    requires p.state == WaitData && data != [] && p.dataIdx + |data| == p.dataLen
    ensures FeedAll(Feed, p, data) == (p.(data := p.data + data, dataIdx := p.dataLen, state := WaitCrcLow), [])
    decreases |data|
  {
    var p1 := Feed(p, data[0]).0;
    FeedOne(Feed, p, data);
    assert p.data + [data[0]] + data[1..] == p.data + data;
    if |data| > 1 {
      FeedData(p1, data[1..]);
    } else {
      assert data == [data[0]];
      FeedNothing(Feed, p1, data[1..]);
    }
  }

  /** The checksum and end bytes decide whether the frame comes out. */
  lemma FeedTail(p: Parser, crc: u16)
    requires p.state == WaitCrcLow
    ensures var (p1, out) := FeedAll(Feed, p, Tail(crc));
      && p1.state == WaitSync1
      && out == if crc == Checksum(Body(p.command, p.sequence, p.data)) && CommandFromByte(p.command).Some?
                then [Frame(CommandFromByte(p.command).value, p.sequence, p.data)] else []
  {
    var t := Tail(crc);
    FeedOne(Feed, p, t);
    var p1 := Feed(p, t[0]).0;
    FeedOne(Feed, p1, t[1..]);
    assert t[1..][1..] == [END];
    var p2 := Feed(p1, t[1]).0;
    FeedOne(Feed, p2, [END]);
  }

  /** Everything up to the checksum. */
  lemma FeedBody(p: Parser, command: byte, sequence: byte, data: Data)
    requires p.state == WaitSync1
    ensures var (p1, out) := FeedAll(Feed, p, Head(command, sequence, |data|) + data);
      && out == [] && p1.state == WaitCrcLow
      && p1.command == command && p1.sequence == sequence && p1.data == data
  {
    hide Feed, FeedAll;
    FeedHead(p, command, sequence, |data|);
    var p1 := FeedAll(Feed, p, Head(command, sequence, |data|)).0;
    FeedConcat(Feed, p, Head(command, sequence, |data|), data);
    if |data| > 0 {
      FeedData(p1, data);
      assert [] + data == data;
    } else {
      FeedNothing(Feed, p1, data);
    }
  }

  /** What a parser between frames makes of one frame-shaped byte string: the frame, exactly when the checksum
      is the one of the body and the command byte is known. Either way it is between frames again. */
  lemma FeedWire(p: Parser, command: byte, sequence: byte, data: Data, crc: u16)
    requires p.state == WaitSync1
    ensures var (p1, out) := FeedAll(Feed, p, Wire(command, sequence, data, crc));
      && p1.state == WaitSync1
      && out == if crc == Checksum(Body(command, sequence, data)) && CommandFromByte(command).Some?
                then [Frame(CommandFromByte(command).value, sequence, data)] else []
  {
    hide Feed, FeedAll;
    FeedBody(p, command, sequence, data);
    FeedConcat(Feed, p, Head(command, sequence, |data|) + data, Tail(crc));
    FeedTail(FeedAll(Feed, p, Head(command, sequence, |data|) + data).0, crc);
  }

  /** A frame that is right but for its last byte is dropped. */
  lemma WrongEndRefused(p: Parser, command: byte, sequence: byte, data: Data, end: byte)
    requires p.state == WaitSync1 && end != 0x0D
    ensures var crc := Checksum(Body(command, sequence, data));
      var wire := Head(command, sequence, |data|) + data + [crc % 0x100, crc / 0x100, end];
      FeedAll(Feed, p, wire).1 == [] && FeedAll(Feed, p, wire).0.state == WaitSync1
  {
    hide Feed, FeedAll, Checksum;
    var crc := Checksum(Body(command, sequence, data));
    FeedBody(p, command, sequence, data);
    FeedConcat(Feed, p, Head(command, sequence, |data|) + data, [crc % 0x100, crc / 0x100, end]);
    FeedWrongEnd(FeedAll(Feed, p, Head(command, sequence, |data|) + data).0, end);
  }

  lemma FeedWrongEnd(p: Parser, end: byte)
    requires p.state == WaitCrcLow && end != 0x0D
    ensures var crc := Checksum(Body(p.command, p.sequence, p.data));
      var (p1, out) := FeedAll(Feed, p, [crc % 0x100, crc / 0x100, end]);
      out == [] && p1.state == WaitSync1
  {
    hide Checksum, FeedAll;
    var crc := Checksum(Body(p.command, p.sequence, p.data));
    var t := [crc % 0x100, crc / 0x100, end];
    FeedOne(Feed, p, t);
    var p1 := Feed(p, t[0]).0;
    FeedOne(Feed, p1, t[1..]);
    assert t[1..][1..] == [end];
    var p2 := Feed(p1, t[1]).0;
    FeedOne(Feed, p2, [end]);
    FeedNothing(Feed, Feed(p2, end).0, [end][1..]);
  }

  /** A length of more than 255 sends the parser back to looking for a frame. */
  lemma OversizeRefused(p: Parser, low: byte, high: byte)
    requires p.state == WaitSync1 && high > 0
    ensures var (p1, out) := FeedAll(Feed, p, [0xAA, 0x55, low, high]);
      out == [] && p1.state == WaitSync1
  {
    hide FeedAll;
    var s := [low, high];
    assert [0xAA, 0x55, low, high] == [SYNC1, SYNC2] + s;
    FeedSync(p, s);
    var p1: Parser := p.(state := WaitLenLow);
    FeedOne(Feed, p1, s);
    var p2: Parser := Feed(p1, low).0;
    FeedOne(Feed, p2, s[1..]);
    FeedNothing(Feed, Feed(p2, high).0, s[1..][1..]);
  }

  // ---------------------------------------------------------------- streams

  /** No sync pair in it. */
  predicate Quiet(noise: seq<byte>)
  {
    forall i :: 0 <= i < |noise| - 1 ==> !(noise[i] == 0xAA && noise[i + 1] == 0x55)
  }

  predicate Searching(p: Parser)
  {
    p.state == WaitSync1 || p.state == WaitSync2
  }

  /** Bytes without a sync pair yield nothing and leave the parser looking for one. */
  lemma {:induction false} FeedNoise(p: Parser, noise: seq<byte>)
    requires Searching(p) && Quiet(noise)
    requires p.state == WaitSync2 && noise != [] ==> noise[0] != 0x55
    ensures var (p1, out) := FeedAll(Feed, p, noise);
      out == [] && Searching(p1)
    decreases |noise|
  {
    hide FeedAll;
    if noise == [] {
      FeedNothing(Feed, p, noise);
    } else {
      FeedOne(Feed, p, noise);
      var p1 := Feed(p, noise[0]).0;
      forall i | 0 <= i < |noise[1..]| - 1
        ensures !(noise[1..][i] == 0xAA && noise[1..][i + 1] == 0x55)
      {
        assert noise[1..][i] == noise[i + 1] && noise[1..][i + 1] == noise[i + 2];
      }
      assert noise[0] == 0xAA && |noise| > 1 ==> noise[0 + 1] != 0x55;
      FeedNoise(p1, noise[1..]);
    }
  }

  /** A first sync byte that was noise is made good by the frame's own. */
  lemma FeedFromSearch(p: Parser, rest: seq<byte>)
    requires Searching(p)
    ensures var p1: Parser := p.(state := WaitSync1);
      FeedAll(Feed, p, [SYNC1] + rest) == FeedAll(Feed, p1, [SYNC1] + rest)
  {
    hide FeedAll;
    var p1: Parser := p.(state := WaitSync1);
    FeedOne(Feed, p, [SYNC1] + rest);
    FeedOne(Feed, p1, [SYNC1] + rest);
  }

  predicate Idle(p: Parser)
  {
    p.state == WaitSync1
  }

  /** Stream round trip: any list of frames, with any noise in between that has no sync pair in it (it may even end
      with a first sync byte), comes out as exactly that list, from any parser between frames. */
  lemma StreamRoundTrip(p: Parser, frames: seq<Frame>, noise: seq<seq<byte>>)
    requires p.state == WaitSync1 && |noise| == |frames|
    requires forall i :: 0 <= i < |noise| ==> Quiet(noise[i])
    ensures var (p1, out) := FeedAll(Feed, p, Stream(Encode, frames, noise));
      out == frames && p1.state == WaitSync1
  {
    hide Feed, FeedAll, Encode;
    forall q: Parser, i | Idle(q) && 0 <= i < |frames|
      ensures var (q1, out) := FeedAll(Feed, q, noise[i] + Encode(frames[i]));
        out == [frames[i]] && Idle(q1)
    {
      FeedNoisyFrame(q, noise[i], frames[i]);
    }
    StreamOut(Feed, Encode, Idle, p, frames, noise);
  }

  lemma FeedNoisyFrame(p: Parser, noise: seq<byte>, f: Frame)
    requires p.state == WaitSync1 && Quiet(noise)
    ensures var (p1, out) := FeedAll(Feed, p, noise + Encode(f));
      out == [f] && p1.state == WaitSync1
  {
    hide Feed, FeedAll, Encode, Quiet;
    FeedNoise(p, noise);
    FeedFrame(FeedAll(Feed, p, noise).0, f);
    FeedConcat(Feed, p, noise, Encode(f));
  }

  /** One frame, from any parser looking for a sync pair. */
  lemma FeedFrame(p: Parser, f: Frame)
    requires Searching(p)
    ensures var (p1, out) := FeedAll(Feed, p, Encode(f));
      out == [f] && p1.state == WaitSync1
  {
    hide Feed, FeedAll, Checksum;
    var p1: Parser := p.(state := WaitSync1);
    var command := CommandByte(f.command);
    CommandRoundTrip(f.command, command);
    FeedWire(p1, command, f.sequence, f.data, Checksum(Body(command, f.sequence, f.data)));
    assert Encode(f) == [SYNC1] + Encode(f)[1..];
    FeedFromSearch(p, Encode(f)[1..]);
  }

  /** Corruption detection: change any one byte, or any two adjacent bytes, of command, sequence and data, and
      the parser emits no frame from that encoding. */
  lemma CorruptionDetected(p: Parser, f: Frame, command: byte, sequence: byte, data: Data, i: nat)
    requires p.state == WaitSync1 && |data| == |f.data| && i + 2 <= |data| + 2
    requires var sent, received := Body(CommandByte(f.command), f.sequence, f.data), Body(command, sequence, data);
      && sent != received
      && forall k :: 0 <= k < |sent| && k != i && k != i + 1 ==> sent[k] == received[k]
    ensures var (p1, out) := FeedAll(Feed, p, Wire(command, sequence, data,
                                             Checksum(Body(CommandByte(f.command), f.sequence, f.data))));
      out == [] && p1.state == WaitSync1
  {
    var sent, received := Body(CommandByte(f.command), f.sequence, f.data), Body(command, sequence, data);
    BurstDetected(sent, received, i);
    FeedWire(p, command, sequence, data, Checksum(sent));
  }

  // ---------------------------------------------------------------- the implementation

  class FrameParser {
    var state: ParserState
    var dataLen: u16
    var dataIdx: nat
    var command: byte
    var sequence: byte
    const data: array<byte>
    var len: nat
    var crcLow: byte

    ghost predicate Valid()
      reads this, data
    {
      data.Length == MAX_DATA_SIZE && len <= MAX_DATA_SIZE && Sound(View())
    }

    ghost function View(): (p: RawParser)
      reads this, data
      requires len <= data.Length
    {
      Parser(state, dataLen, dataIdx, command, sequence, data[..len], crcLow)
    }

    constructor ()
      ensures Valid() && View() == NEW_PARSER && fresh(data)
    {
      state, dataLen, dataIdx, command, sequence, len, crcLow := WaitSync1, 0, 0, 0, 0, 0, 0;
      data := new byte[MAX_DATA_SIZE](_ => 0);
    }

    method ResetParser()
      requires Valid()
      modifies this
      ensures Valid() && View() == Restart(old(View()))
    {
      state, len, dataLen, dataIdx := WaitSync1, 0, 0, 0;
    }

    method FeedByte(b: byte) returns (frame: Option<Frame>)
      requires Valid()
      modifies this, data
      ensures Valid() && (View(), frame) == ParseByte(old(View()), b)
    {
      frame := None;
      match state
      case WaitSync1 =>
        if b == SYNC1 { state := WaitSync2; }
      case WaitSync2 =>
        if b == SYNC2 {
          state := WaitLenLow;
        } else if b != SYNC1 {
          ResetParser();
        }
      case WaitLenLow =>
        dataLen := b;
        state := WaitLenHigh;
      case WaitLenHigh =>
        var announced := dataLen + 0x100 * b;
        if announced > MAX_DATA_SIZE {
          ResetParser();
        } else {
          dataLen := announced;
          state := WaitCommand;
        }
      case WaitCommand =>
        command := b;
        state := WaitSequence;
      case WaitSequence =>
        sequence := b;
        len, dataIdx := 0, 0;
        state := if dataLen == 0 then WaitCrcLow else WaitData;
      case WaitData =>
        StoreByte(b);
      case WaitCrcLow =>
        crcLow := b;
        state := WaitCrcHigh;
      case WaitCrcHigh =>
        var received := crcLow + 0x100 * b;
        var calculated := ComputeCrc16([command, sequence] + data[..len]);
        if received == calculated {
          state := WaitEnd;
        } else {
          ResetParser();
        }
      case WaitEnd =>
        if b == END {
          var c := CommandFromByte(command);
          if c.Some? {
            frame := Some(Frame(c.value, sequence, data[..len]));
          }
        }
        ResetParser();
    }

    /** Append one data byte; the buffer has room by the invariant. */
    method StoreByte(b: byte)
      requires Valid() && state == WaitData
      modifies this, data
      ensures Valid() && View() == ParseByte(old(View()), b).0
    {
      ghost var before := data[..len];
      data[len] := b;
      len := len + 1;
      assert data[..len] == before + [b];
      dataIdx := dataIdx + 1;
      if dataIdx >= dataLen {
        state := WaitCrcLow;
      }
    }
  }
}
