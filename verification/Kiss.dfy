/** KISS framing (lunarcore/lunar/rnode.c, first half; section 2 of "The KISS TNC"). */
module Kiss {
  import opened Bytes
  import opened Streaming

  const FEND: byte := 0xC0
  const FESC: byte := 0xDB
  const TFEND: byte := 0xDC
  const TFESC: byte := 0xDD
  const MAX_DATA_SIZE: nat := 512
  const MAX_FRAME_SIZE: nat := 1028

  type Data = s: seq<byte> | |s| <= MAX_DATA_SIZE witness []

  datatype Frame = Frame(command: byte, data: Data)

  // ---------------------------------------------------------------- encoding

  function Escape(b: byte): (s: seq<byte>)
    ensures 1 <= |s| <= 2
  {
    if b == FEND then [FESC, TFEND] else if b == FESC then [FESC, TFESC] else [b]
  }

  function EscapeAll(data: seq<byte>): (s: seq<byte>)
    ensures |s| <= 2 * |data|
  {
    if data == [] then [] else Escape(data[0]) + EscapeAll(data[1..])
  }

  function Encode(f: Frame): (s: seq<byte>)
  {
    [FEND] + Escape(f.command) + EscapeAll(f.data) + [FEND]
  }

  /** The output buffer; a push into a full one is dropped. */
  class FrameBuffer {
    const data: array<byte>
    var len: nat
    /** Whether every push so far found room. */
    ghost var complete: bool

    ghost predicate Valid()
      reads this
    {
      data.Length == MAX_FRAME_SIZE && len <= MAX_FRAME_SIZE
    }

    ghost function View(): (s: seq<byte>)
      reads this, data
      requires len <= data.Length
    {
      data[..len]
    }

    constructor ()
      ensures Valid() && View() == [] && complete && fresh(data)
    {
      data := new byte[MAX_FRAME_SIZE](_ => 0);
      len := 0;
      complete := true;
    }

    method Push(b: byte) returns (stored: bool)
      requires Valid()
      modifies this, data
      ensures Valid() && stored == (|old(View())| < MAX_FRAME_SIZE)
      ensures View() == if stored then old(View()) + [b] else old(View())
      ensures complete == (old(complete) && stored)
    {
      stored := len < MAX_FRAME_SIZE;
      complete := complete && stored;
      if stored {
        ghost var before := View();
        data[len] := b;
        len := len + 1;
        assert View() == before + [b];
      }
    }

    method PushEscaped(b: byte)
      requires Valid()
      modifies this, data
      ensures Valid()
      ensures |old(View())| + 2 <= MAX_FRAME_SIZE ==>
        View() == old(View()) + Escape(b) && complete == old(complete)
    {
      if b == FEND {
        var _ := Push(FESC);
        var _ := Push(TFEND);
      } else if b == FESC {
        var _ := Push(FESC);
        var _ := Push(TFESC);
      } else {
        var _ := Push(b);
      }
    }

    /** Encoding fills the buffer with the whole frame: 1028 bytes are always enough. */
    method EncodeFrame(f: Frame)
      requires Valid()
      modifies this, data
      ensures Valid() && View() == Encode(f) && complete
    {
      hide Escape, EscapeAll;
      len, complete := 0, true;
      assert View() == [];
      var _ := Push(FEND);
      PushEscaped(f.command);
      ghost var prefix := View();
      assert prefix == [FEND] + Escape(f.command);
      for i := 0 to |f.data|
        invariant Valid() && complete
        invariant View() == prefix + EscapeAll(f.data[..i])
      {
        EscapeAppend(f.data[..i], f.data[i]);
        assert f.data[..i + 1] == f.data[..i] + [f.data[i]];
        PushEscaped(f.data[i]);
      }
      assert f.data[..|f.data|] == f.data;
      var _ := Push(FEND);
    }
  }

  lemma {:induction false} EscapeAppend(data: seq<byte>, b: byte)
    ensures EscapeAll(data + [b]) == EscapeAll(data) + Escape(b)
  {
    if data == [] {
      assert ([] + [b])[1..] == [];
    } else {
      assert (data + [b])[1..] == data[1..] + [b];
      EscapeAppend(data[1..], b);
    }
  }

  lemma {:induction false} EscapeHidesFend(data: seq<byte>)
    ensures FEND !in EscapeAll(data)
  {
    if data != [] {
      EscapeHidesFend(data[1..]);
    }
  }

  /** What stuffing does to a byte string: piece by piece, 0xC0 becomes 0xDB 0xDC, 0xDB becomes 0xDB 0xDD, and every
      other byte is kept; a frame is 0xC0, the stuffed command, the stuffed data, 0xC0. */
  lemma StuffedBytes(f: Frame, data: seq<byte>, b: byte)
    ensures EscapeAll(data + [b]) == EscapeAll(data) + (if b == 0xC0 then [0xDB, 0xDC] else if b == 0xDB then [0xDB, 0xDD] else [b])
    ensures EscapeAll([]) == []
    ensures Encode(f) == [0xC0] + EscapeAll([f.command]) + EscapeAll(f.data) + [0xC0]
  {
    EscapeAppend(data, b);
    EscapeAppend([], f.command);
    assert [] + [f.command] == [f.command];
    assert [] + Escape(f.command) == Escape(f.command);
  }

  /** In an encoding the delimiter occurs exactly at the two ends. */
  lemma FendDelimits(f: Frame, k: nat)
    requires k < |Encode(f)|
    ensures Encode(f)[k] == FEND <==> k == 0 || k == |Encode(f)| - 1
  {
    EscapeHidesFend(f.data);
    var e := EscapeAll(f.data);
    if 1 + |Escape(f.command)| <= k < |Encode(f)| - 1 {
      assert Encode(f)[k] == e[k - 1 - |Escape(f.command)|];
      assert Encode(f)[k] in e;
    }
  }

  // ---------------------------------------------------------------- parsing

  datatype ParserState = WaitStart | WaitCommand | ReadData | InEscape

  datatype Parser = Parser(state: ParserState, command: byte, data: Data)

  const NEW_PARSER: Parser := Parser(WaitStart, 0, [])

  function Append(data: Data, b: byte): (r: Data)
  {
    if |data| >= MAX_DATA_SIZE then data else data + [b]
  }

  function Unescape(b: byte): (r: byte)
  {
    if b == TFEND then FEND else if b == TFESC then FESC else b
  }

  function Feed(p: Parser, b: byte): (r: (Parser, Option<Frame>))
  {
    match p.state
    case WaitStart => (if b == FEND then p.(state := WaitCommand, data := []) else p, None)
    case WaitCommand =>
      (if b == FEND then p
       else if b == FESC then p.(state := InEscape)
       else p.(command := b, state := ReadData), None)
    case ReadData =>
      if b == FEND then (NEW_PARSER, Some(Frame(p.command, p.data)))
      else if b == FESC then (p.(state := InEscape), None)
      else (p.(data := Append(p.data, b)), None)
    case InEscape => (p.(data := Append(p.data, Unescape(b)), state := ReadData), None)
  }

  /** One escaped byte, read as data. */
  lemma FeedEscape(p: Parser, b: byte)
    requires p.state == ReadData
    ensures FeedAll(Feed, p, Escape(b)) == (p.(data := Append(p.data, b)), [])
  {
    FeedOne(Feed, p, Escape(b));
    if |Escape(b)| == 2 {
      FeedOne(Feed, p.(state := InEscape), Escape(b)[1..]);
    }
  }

  /** Data past 512 bytes is dropped. */
  lemma {:induction false} DataCut(p: Parser, data: seq<byte>)
    requires p.state == ReadData
    ensures FeedAll(Feed, p, EscapeAll(data)) == (p.(data := CutData(p.data + data)), [])
    decreases |data|
  {
    hide Feed, FeedAll;
    if data == [] {
      FeedNothing(Feed, p, []);
      assert p.data + data == p.data && EscapeAll(data) == [];
    } else {
      var p1 := p.(data := Append(p.data, data[0]));
      FeedEscape(p, data[0]);
      FeedConcat(Feed, p, Escape(data[0]), EscapeAll(data[1..]));
      DataCut(p1, data[1..]);
      assert CutData(p1.data + data[1..]) == CutData(p.data + data);
      assert FeedAll(Feed, p1, EscapeAll(data[1..])) == (p.(data := CutData(p.data + data)), []);
      assert FeedAll(Feed, p, Escape(data[0]) + EscapeAll(data[1..])).1 == [];
    }
  }

  function CutData(data: seq<byte>): (r: Data)
  {
    data[..Min(|data|, MAX_DATA_SIZE)]
  }

  lemma FeedData(p: Parser, data: seq<byte>)
    requires p.state == ReadData && |p.data| + |data| <= MAX_DATA_SIZE
    ensures FeedAll(Feed, p, EscapeAll(data)) == (p.(data := p.data + data), [])
  {
    DataCut(p, data);
    assert CutData(p.data + data) == p.data + data;
  }

  lemma FeedStart(p: Parser)
    requires p.state == WaitStart
    ensures FeedAll(Feed, p, [FEND]) == (p.(state := WaitCommand, data := []), [])
  {
    FeedOne(Feed, p, [FEND]);
  }

  lemma FeedEnd(p: Parser)
    requires p.state == ReadData
    ensures FeedAll(Feed, p, [FEND]) == (NEW_PARSER, [Frame(p.command, p.data)])
  {
    FeedOne(Feed, p, [FEND]);
    assert [FEND][1..] == [];
    FeedNothing(Feed, NEW_PARSER, []);
    assert [Frame(p.command, p.data)] + [] == [Frame(p.command, p.data)];
  }

  /** Inside data, 0xDB takes the next byte with it, whatever that is: 0xDC gives 0xC0, 0xDD gives 0xDB, and any other
      byte, a delimiter included, is itself. */
  lemma FeedEscaped(p: Parser, b: byte)
    requires p.state == ReadData
    ensures var d := if b == 0xDC then 0xC0 else if b == 0xDD then 0xDB else b;
      FeedAll(Feed, p, [0xDB, b]) == (p.(data := if |p.data| >= 512 then p.data else p.data + [d]), [])
  {
    var s := [0xDB, b];
    FeedOne(Feed, p, s);
    FeedOne(Feed, p.(state := InEscape), s[1..]);
    FeedNothing(Feed, p.(data := Append(p.data, Unescape(b))), s[1..][1..]);
  }

  /** The command position does not undo escaping: an escaped command byte is taken for data. */
  lemma FeedCommand(p: Parser, command: byte)
    requires p.state == WaitCommand && p.data == []
    ensures FeedAll(Feed, p, Escape(command)) ==
      (if command == FEND || command == FESC then p.(data := [command], state := ReadData)
       else p.(command := command, state := ReadData), [])
  {
    FeedOne(Feed, p, Escape(command));
    if |Escape(command)| == 2 {
      FeedOne(Feed, p.(state := InEscape), Escape(command)[1..]);
      assert p.data + [command] == [command];
    }
  }

  predicate PlainCommand(f: Frame)
  {
    f.command != FEND && f.command != FESC
  }

  lemma FeedPlainFrame(p: Parser, f: Frame)
    requires p.state == WaitStart && PlainCommand(f)
    ensures FeedAll(Feed, p, Encode(f)) == (NEW_PARSER, [f])
  {
    hide Feed, FeedAll;
    var s, c, d := [FEND], Escape(f.command), EscapeAll(f.data);
    FeedStart(p);
    FeedCommand(p.(state := WaitCommand, data := []), f.command);
    FeedConcat(Feed, p, s, c);
    var p1 := p.(command := f.command, state := ReadData, data := []);
    FeedData(p1, f.data);
    assert [] + f.data == f.data;
    FeedConcat(Feed, p, s + c, d);
    FeedEnd(p1.(data := f.data));
    FeedConcat(Feed, p, s + c + d, [FEND]);
    assert FeedAll(Feed, p, s + c + d).1 + [f] == [f];
  }

  lemma {:induction false} FeedNoise(p: Parser, noise: seq<byte>)
    requires p.state == WaitStart && FEND !in noise
    ensures FeedAll(Feed, p, noise) == (p, [])
    decreases |noise|
  {
    if noise != [] {
      assert noise[0] in noise;
      FeedOne(Feed, p, noise);
      FeedNoise(p, noise[1..]);
    }
  }

  /** A frame whose command is a delimiter or the escape byte comes out under the parser's previous command, with its
      command byte in front of its data, cut to 512 bytes. */
  lemma FeedEscapedCommand(p: Parser, f: Frame)
    requires p.state == WaitStart && !PlainCommand(f)
    ensures FeedAll(Feed, p, Encode(f)) == (NEW_PARSER, [Frame(p.command, CutData([f.command] + f.data))])
  {
    hide Feed, FeedAll;
    var s, c, d := [FEND], Escape(f.command), EscapeAll(f.data);
    FeedStart(p);
    FeedCommand(p.(state := WaitCommand, data := []), f.command);
    FeedConcat(Feed, p, s, c);
    var p1 := p.(data := [f.command], state := ReadData);
    assert FeedAll(Feed, p, s + c).0 == p1 && FeedAll(Feed, p, s + c).1 == [];
    DataCut(p1, f.data);
    var cut := CutData([f.command] + f.data);
    assert FeedAll(Feed, p1, d) == (p1.(data := cut), []);
    FeedConcat(Feed, p, s + c, d);
    assert FeedAll(Feed, p, s + c + d) == (p1.(data := cut), []);
    FeedEnd(p1.(data := cut));
    FeedConcat(Feed, p, s + c + d, [FEND]);
    assert [] + [Frame(p.command, cut)] == [Frame(p.command, cut)];
  }

  /** A new parser recovers a frame from its encoding exactly when the command byte needs no escape. */
  lemma FrameRoundTrip(f: Frame)
    ensures FeedAll(Feed, NEW_PARSER, Encode(f)).1 == [f] <==> PlainCommand(f)
  {
    if PlainCommand(f) {
      FeedPlainFrame(NEW_PARSER, f);
    } else {
      FeedEscapedCommand(NEW_PARSER, f);
    }
  }

  /** Stream round trip: every list of frames with plain commands and delimiter-free noise in between. */
  lemma StreamRoundTrip(p: Parser, frames: seq<Frame>, noise: seq<seq<byte>>)
    requires p.state == WaitStart && |noise| == |frames|
    requires forall i :: 0 <= i < |frames| ==> PlainCommand(frames[i]) && FEND !in noise[i]
    ensures var (p1, out) := FeedAll(Feed, p, Stream(Encode, frames, noise));
      out == frames && p1.state == WaitStart
  {
    hide Feed, FeedAll, Encode;
    forall q: Parser, i | Idle(q) && 0 <= i < |frames|
      ensures var (q1, out) := FeedAll(Feed, q, noise[i] + Encode(frames[i]));
        out == [frames[i]] && Idle(q1)
    {
      FeedNoise(q, noise[i]);
      FeedPlainFrame(q, frames[i]);
      FeedConcat(Feed, q, noise[i], Encode(frames[i]));
    }
    StreamOut(Feed, Encode, Idle, p, frames, noise);
  }

  predicate Idle(p: Parser)
  {
    p.state == WaitStart
  }

  function Delimiters(n: nat): (s: seq<byte>)
  {
    if n == 0 then [] else Delimiters(n - 1) + [0xC0]
  }

  /** Any number of extra delimiters may stand before a frame. */
  lemma ExtraDelimiters(p: Parser, n: nat, f: Frame)
    requires p.state == WaitStart && PlainCommand(f)
    ensures FeedAll(Feed, p, Delimiters(n) + Encode(f)) == (NEW_PARSER, [f])
  {
    hide Feed, FeedAll;
    var rest := Escape(f.command) + EscapeAll(f.data) + [FEND];
    var ready := p.(state := WaitCommand, data := []);
    assert Encode(f) == [FEND] + rest;
    FeedConcat(Feed, p, [FEND], rest);
    FeedStart(p);
    FeedPlainFrame(p, f);
    assert FeedAll(Feed, ready, rest).0 == NEW_PARSER && FeedAll(Feed, ready, rest).1 == [f];
    assert Delimiters(n) + Encode(f) == Delimiters(n + 1) + rest;
    FeedDelimiters(p, n + 1);
    FeedConcat(Feed, p, Delimiters(n + 1), rest);
  }

  lemma {:induction false} FeedDelimiters(p: Parser, n: nat)
    requires p.state == WaitStart && n > 0
    ensures FeedAll(Feed, p, Delimiters(n)) == (p.(state := WaitCommand, data := []), [])
    decreases n
  {
    hide FeedAll;
    if n == 1 {
      assert Delimiters(1) == [FEND];
      FeedStart(p);
    } else {
      var ready := p.(state := WaitCommand, data := []);
      FeedDelimiters(p, n - 1);
      FeedConcat(Feed, p, Delimiters(n - 1), [FEND]);
      FeedOne(Feed, ready, [FEND]);
      FeedNothing(Feed, ready, [FEND][1..]);
      assert FeedAll(Feed, ready, [FEND]).0 == ready && FeedAll(Feed, ready, [FEND]).1 == [];
      assert Delimiters(n) == Delimiters(n - 1) + [FEND];
      assert FeedAll(Feed, p, Delimiters(n)).0 == ready && FeedAll(Feed, p, Delimiters(n)).1 == [];
    }
  }

  // ---------------------------------------------------------------- the implementation

  class KissParser {
    var state: ParserState
    var command: byte
    const data: array<byte>
    var len: nat

    ghost predicate Valid()
      reads this
    {
      data.Length == MAX_DATA_SIZE && len <= MAX_DATA_SIZE
    }

    ghost function View(): (p: Parser)
      reads this, data
      requires Valid()
    {
      Parser(state, command, data[..len])
    }

    constructor ()
      ensures Valid() && View() == NEW_PARSER && fresh(data)
    {
      state, command, len := WaitStart, 0, 0;
      data := new byte[MAX_DATA_SIZE](_ => 0);
    }

    method Push(b: byte)
      requires Valid()
      modifies this`len, data
      ensures Valid() && View() == old(View()).(data := Append(old(View()).data, b))
    {
      if len < MAX_DATA_SIZE {
        ghost var before := data[..len];
        data[len] := b;
        len := len + 1;
        assert data[..len] == before + [b];
      }
    }

    method FeedByte(b: byte) returns (frame: Option<Frame>)
      requires Valid()
      modifies this, data
      ensures Valid() && (View(), frame) == Feed(old(View()), b)
    {
      frame := None;
      match state
      case WaitStart =>
        if b == FEND {
          state := WaitCommand;
          len := 0;
        }
      case WaitCommand =>
        if b == FESC {
          state := InEscape;
        } else if b != FEND {
          command := b;
          state := ReadData;
        }
      case ReadData =>
        if b == FEND {
          frame := Some(Frame(command, data[..len]));
          state, command, len := WaitStart, 0, 0;
        } else if b == FESC {
          state := InEscape;
        } else {
          Push(b);
        }
      case InEscape =>
        Push(if b == TFEND then FEND else if b == TFESC then FESC else b);
        state := ReadData;
    }
  }
}
