/** The frame checksum (lunarcore/lunar/protocol.c): CRC-16/CCITT-FALSE, polynomial 0x1021, initial value 0xFFFF.

    The meaning is the bit-serial division; the implementation looks bytes up in a table. */
module Crc16 {
  import opened Bytes

  /** One bit of the division: shift left, and subtract the polynomial when a one falls out. */
  function Bit(x: bv16): (r: bv16)
  {
    if x & 0x8000 != 0 then (x << 1) ^ 0x1021 else x << 1
  }

  /** Eight zero input bits. */
  function Octet(x: bv16): (r: bv16)
  {
    Bit(Bit(Bit(Bit(Bit(Bit(Bit(Bit(x))))))))
  }

  /** A byte as a register word, bit by bit. */
  function Word(b: byte): (w: bv16)
    decreases b
  {
    if b == 0 then 0 else PushBit(Word(b / 2), b % 2 == 1)
  }

  function PushBit(w: bv16, on: bool): (r: bv16)
  {
    (w << 1) | (if on then 1 else 0)
  }

  /** Addition of polynomials with coefficients in {0, 1}. */
  function Add(x: bv16, y: bv16): (r: bv16)
  {
    x ^ y
  }

  function Up(w: bv16): (r: bv16)
  {
    w << 8
  }

  /** One input byte enters at the top of the register. */
  function Step(crc: bv16, w: bv16): (r: bv16)
  {
    Octet(Add(crc, Up(w)))
  }

  /** The bit-serial CRC of a byte string, continuing from a register value. */
  function Crc(crc: bv16, data: seq<byte>): (r: bv16)
    decreases |data|
  {
    if data == [] then crc else Crc(Step(crc, Word(data[0])), data[1..])
  }

  /** The checksum as a 16-bit number. */
  function Checksum(data: seq<byte>): (r: u16)
  {
    Crc(0xFFFF, data) as int
  }

  // ---------------------------------------------------------------- the table

  // CRC16_TABLE, eight entries to a row as in the source

  function Table0(r: bv16): (row: seq<bv16>)
    requires 0 <= r < 8
    ensures |row| == 8
  {
    if r == 0 then [0x0000, 0x1021, 0x2042, 0x3063, 0x4084, 0x50A5, 0x60C6, 0x70E7]
    else if r == 1 then [0x8108, 0x9129, 0xA14A, 0xB16B, 0xC18C, 0xD1AD, 0xE1CE, 0xF1EF]
    else if r == 2 then [0x1231, 0x0210, 0x3273, 0x2252, 0x52B5, 0x4294, 0x72F7, 0x62D6]
    else if r == 3 then [0x9339, 0x8318, 0xB37B, 0xA35A, 0xD3BD, 0xC39C, 0xF3FF, 0xE3DE]
    else if r == 4 then [0x2462, 0x3443, 0x0420, 0x1401, 0x64E6, 0x74C7, 0x44A4, 0x5485]
    else if r == 5 then [0xA56A, 0xB54B, 0x8528, 0x9509, 0xE5EE, 0xF5CF, 0xC5AC, 0xD58D]
    else if r == 6 then [0x3653, 0x2672, 0x1611, 0x0630, 0x76D7, 0x66F6, 0x5695, 0x46B4]
    else [0xB75B, 0xA77A, 0x9719, 0x8738, 0xF7DF, 0xE7FE, 0xD79D, 0xC7BC]
  }

  function Table1(r: bv16): (row: seq<bv16>)
    requires 8 <= r < 16
    ensures |row| == 8
  {
    if r == 8 then [0x48C4, 0x58E5, 0x6886, 0x78A7, 0x0840, 0x1861, 0x2802, 0x3823]
    else if r == 9 then [0xC9CC, 0xD9ED, 0xE98E, 0xF9AF, 0x8948, 0x9969, 0xA90A, 0xB92B]
    else if r == 10 then [0x5AF5, 0x4AD4, 0x7AB7, 0x6A96, 0x1A71, 0x0A50, 0x3A33, 0x2A12]
    else if r == 11 then [0xDBFD, 0xCBDC, 0xFBBF, 0xEB9E, 0x9B79, 0x8B58, 0xBB3B, 0xAB1A]
    else if r == 12 then [0x6CA6, 0x7C87, 0x4CE4, 0x5CC5, 0x2C22, 0x3C03, 0x0C60, 0x1C41]
    else if r == 13 then [0xEDAE, 0xFD8F, 0xCDEC, 0xDDCD, 0xAD2A, 0xBD0B, 0x8D68, 0x9D49]
    else if r == 14 then [0x7E97, 0x6EB6, 0x5ED5, 0x4EF4, 0x3E13, 0x2E32, 0x1E51, 0x0E70]
    else [0xFF9F, 0xEFBE, 0xDFDD, 0xCFFC, 0xBF1B, 0xAF3A, 0x9F59, 0x8F78]
  }

  function Table2(r: bv16): (row: seq<bv16>)
    requires 16 <= r < 24
    ensures |row| == 8
  {
    if r == 16 then [0x9188, 0x81A9, 0xB1CA, 0xA1EB, 0xD10C, 0xC12D, 0xF14E, 0xE16F]
    else if r == 17 then [0x1080, 0x00A1, 0x30C2, 0x20E3, 0x5004, 0x4025, 0x7046, 0x6067]
    else if r == 18 then [0x83B9, 0x9398, 0xA3FB, 0xB3DA, 0xC33D, 0xD31C, 0xE37F, 0xF35E]
    else if r == 19 then [0x02B1, 0x1290, 0x22F3, 0x32D2, 0x4235, 0x5214, 0x6277, 0x7256]
    else if r == 20 then [0xB5EA, 0xA5CB, 0x95A8, 0x8589, 0xF56E, 0xE54F, 0xD52C, 0xC50D]
    else if r == 21 then [0x34E2, 0x24C3, 0x14A0, 0x0481, 0x7466, 0x6447, 0x5424, 0x4405]
    else if r == 22 then [0xA7DB, 0xB7FA, 0x8799, 0x97B8, 0xE75F, 0xF77E, 0xC71D, 0xD73C]
    else [0x26D3, 0x36F2, 0x0691, 0x16B0, 0x6657, 0x7676, 0x4615, 0x5634]
  }

  function Table3(r: bv16): (row: seq<bv16>)
    requires 24 <= r < 32
    ensures |row| == 8
  {
    if r == 24 then [0xD94C, 0xC96D, 0xF90E, 0xE92F, 0x99C8, 0x89E9, 0xB98A, 0xA9AB]
    else if r == 25 then [0x5844, 0x4865, 0x7806, 0x6827, 0x18C0, 0x08E1, 0x3882, 0x28A3]
    else if r == 26 then [0xCB7D, 0xDB5C, 0xEB3F, 0xFB1E, 0x8BF9, 0x9BD8, 0xABBB, 0xBB9A]
    else if r == 27 then [0x4A75, 0x5A54, 0x6A37, 0x7A16, 0x0AF1, 0x1AD0, 0x2AB3, 0x3A92]
    else if r == 28 then [0xFD2E, 0xED0F, 0xDD6C, 0xCD4D, 0xBDAA, 0xAD8B, 0x9DE8, 0x8DC9]
    else if r == 29 then [0x7C26, 0x6C07, 0x5C64, 0x4C45, 0x3CA2, 0x2C83, 0x1CE0, 0x0CC1]
    else if r == 30 then [0xEF1F, 0xFF3E, 0xCF5D, 0xDF7C, 0xAF9B, 0xBFBA, 0x8FD9, 0x9FF8]
    else [0x6E17, 0x7E36, 0x4E55, 0x5E74, 0x2E93, 0x3EB2, 0x0ED1, 0x1EF0]
  }

  function TableRow(r: bv16): (row: seq<bv16>)
    requires r < 32
    ensures |row| == 8
  {
    if r < 8 then Table0(r) else if r < 16 then Table1(r) else if r < 24 then Table2(r) else Table3(r)
  }

  /** The entry for one index. */
  function Table(i: bv16): (t: bv16)
    requires i < 256
  {
    TableRow(i >> 3)[(i & 7) as int]
  }

  /** What a row has to contain: eight consecutive index bytes, each divided out. */
  function RowSpec(x: bv16): (row: seq<bv16>)
  {
    [Octet(x), Octet(x ^ 0x100), Octet(x ^ 0x200), Octet(x ^ 0x300),
     Octet(x ^ 0x400), Octet(x ^ 0x500), Octet(x ^ 0x600), Octet(x ^ 0x700)]
  }

  lemma Rows0To7(r: bv16)
    requires 0 <= r < 8
    ensures Table0(r) == RowSpec(r << 11)
  {
    if r == 0 {
      assert Table0(0) == RowSpec(0x0000);
    } else if r == 1 {
      assert Table0(1) == RowSpec(0x0800);
    } else if r == 2 {
      assert Table0(2) == RowSpec(0x1000);
    } else if r == 3 {
      assert Table0(3) == RowSpec(0x1800);
    } else if r == 4 {
      assert Table0(4) == RowSpec(0x2000);
    } else if r == 5 {
      assert Table0(5) == RowSpec(0x2800);
    } else if r == 6 {
      assert Table0(6) == RowSpec(0x3000);
    } else if r == 7 {
      assert Table0(7) == RowSpec(0x3800);
    }
  }

  lemma Rows8To15(r: bv16)
    requires 8 <= r < 16
    ensures Table1(r) == RowSpec(r << 11)
  {
    if r == 8 {
      assert Table1(8) == RowSpec(0x4000);
    } else if r == 9 {
      assert Table1(9) == RowSpec(0x4800);
    } else if r == 10 {
      assert Table1(10) == RowSpec(0x5000);
    } else if r == 11 {
      assert Table1(11) == RowSpec(0x5800);
    } else if r == 12 {
      assert Table1(12) == RowSpec(0x6000);
    } else if r == 13 {
      assert Table1(13) == RowSpec(0x6800);
    } else if r == 14 {
      assert Table1(14) == RowSpec(0x7000);
    } else if r == 15 {
      assert Table1(15) == RowSpec(0x7800);
    }
  }

  lemma Rows16To23(r: bv16)
    requires 16 <= r < 24
    ensures Table2(r) == RowSpec(r << 11)
  {
    if r == 16 {
      assert Table2(16) == RowSpec(0x8000);
    } else if r == 17 {
      assert Table2(17) == RowSpec(0x8800);
    } else if r == 18 {
      assert Table2(18) == RowSpec(0x9000);
    } else if r == 19 {
      assert Table2(19) == RowSpec(0x9800);
    } else if r == 20 {
      assert Table2(20) == RowSpec(0xA000);
    } else if r == 21 {
      assert Table2(21) == RowSpec(0xA800);
    } else if r == 22 {
      assert Table2(22) == RowSpec(0xB000);
    } else if r == 23 {
      assert Table2(23) == RowSpec(0xB800);
    }
  }

  lemma Rows24To31(r: bv16)
    requires 24 <= r < 32
    ensures Table3(r) == RowSpec(r << 11)
  {
    if r == 24 {
      assert Table3(24) == RowSpec(0xC000);
    } else if r == 25 {
      assert Table3(25) == RowSpec(0xC800);
    } else if r == 26 {
      assert Table3(26) == RowSpec(0xD000);
    } else if r == 27 {
      assert Table3(27) == RowSpec(0xD800);
    } else if r == 28 {
      assert Table3(28) == RowSpec(0xE000);
    } else if r == 29 {
      assert Table3(29) == RowSpec(0xE800);
    } else if r == 30 {
      assert Table3(30) == RowSpec(0xF000);
    } else if r == 31 {
      assert Table3(31) == RowSpec(0xF800);
    }
  }

  lemma RowCorrect(r: bv16)
    requires r < 32
    ensures TableRow(r) == RowSpec(r << 11)
  {
    if r < 8 {
      Rows0To7(r);
    } else if r < 16 {
      Rows8To15(r);
    } else if r < 24 {
      Rows16To23(r);
    } else {
      Rows24To31(r);
    }
  }

  /** Every table entry is the bit-serial remainder of its index. */
  lemma TableCorrect(i: bv16)
    requires i < 256
    ensures Table(i) == Octet(Up(i))
  {
    hide TableRow, Octet;
    RowCorrect(i >> 3);
    var x, j := (i >> 3) << 11, i & 7;
    assert i << 8 == x ^ (j << 8);
    assert j == 0 || j == 1 || j == 2 || j == 3 || j == 4 || j == 5 || j == 6 || j == 7;
  }

  lemma PushSmall(w: bv16, on: bool)
    ensures w < 1 ==> PushBit(w, on) < 2
    ensures w < 2 ==> PushBit(w, on) < 4
    ensures w < 4 ==> PushBit(w, on) < 8
    ensures w < 8 ==> PushBit(w, on) < 0x10
    ensures w < 0x10 ==> PushBit(w, on) < 0x20
    ensures w < 0x20 ==> PushBit(w, on) < 0x40
    ensures w < 0x40 ==> PushBit(w, on) < 0x80
    ensures w < 0x80 ==> PushBit(w, on) < 0x100
  {
  }

  /** A byte's word uses no more bits than the byte has. */
  lemma {:induction false} WordBound(b: byte)
    ensures b < 1 ==> Word(b) < 1
    ensures b < 2 ==> Word(b) < 2
    ensures b < 4 ==> Word(b) < 4
    ensures b < 8 ==> Word(b) < 8
    ensures b < 0x10 ==> Word(b) < 0x10
    ensures b < 0x20 ==> Word(b) < 0x20
    ensures b < 0x40 ==> Word(b) < 0x40
    ensures b < 0x80 ==> Word(b) < 0x80
    ensures Word(b) < 0x100
    decreases b
  {
    hide PushBit;
    if b > 0 {
      WordBound(b / 2);
      PushSmall(Word(b / 2), b % 2 == 1);
    }
  }

  lemma PushInjective(v: bv16, p: bool, w: bv16, q: bool)
    requires v < 0x100 && w < 0x100 && PushBit(v, p) == PushBit(w, q)
    ensures v == w && p == q
  {
  }

  lemma PushZero()
    ensures PushBit(0, false) == 0
  {
  }

  lemma {:induction false} WordInjective(a: byte, b: byte)
    requires Word(a) == Word(b)
    ensures a == b
    decreases a + b
  {
    hide PushBit;
    if a > 0 || b > 0 {
      WordBound(a / 2);
      WordBound(b / 2);
      PushZero();
      PushInjective(Word(a / 2), a % 2 == 1, Word(b / 2), b % 2 == 1);
      WordInjective(a / 2, b / 2);
    }
  }

  predicate Top(x: bv16)
  {
    x & 0x8000 != 0
  }

  function Double(x: bv16): (r: bv16)
  {
    x << 1
  }

  /** Subtract the polynomial. */
  function Reduce(x: bv16): (r: bv16)
  {
    Add(x, 0x1021)
  }

  lemma BitCases(x: bv16)
    ensures Bit(x) == if Top(x) then Reduce(Double(x)) else Double(x)
  {
  }

  lemma TopLinear(x: bv16, y: bv16)
    ensures Top(Add(x, y)) <==> Top(x) != Top(y)
  {
  }

  lemma DoubleLinear(x: bv16, y: bv16)
    ensures Double(Add(x, y)) == Add(Double(x), Double(y))
  {
    assert (x ^ y) << 1 == (x << 1) ^ (y << 1);
  }

  lemma AddAssociates(x: bv16, y: bv16, z: bv16)
    ensures Add(Add(x, y), z) == Add(Add(x, z), y) == Add(x, Add(y, z))
  {
  }

  lemma ReduceLinear(x: bv16, y: bv16)
    ensures Reduce(Add(x, y)) == Add(Reduce(x), y) == Add(x, Reduce(y))
  {
    hide Add;
    AddAssociates(x, y, 0x1021);
  }

  lemma ReduceTwice(x: bv16)
    ensures Reduce(Reduce(x)) == x
  {
  }

  /** One bit of the division is linear over exclusive or. */
  lemma BitLinear(x: bv16, y: bv16)
    ensures Bit(Add(x, y)) == Add(Bit(x), Bit(y))
  {
    hide Bit, Top, Double, Reduce, Add;
    var dx, dy := Double(x), Double(y);
    BitCases(x);
    BitCases(y);
    BitCases(Add(x, y));
    TopLinear(x, y);
    DoubleLinear(x, y);
    ReduceLinear(dx, dy);
    ReduceLinear(Reduce(dx), dy);
    ReduceTwice(Add(dx, dy));
  }

  /** The inverse of Bit: the polynomial is odd, so the low bit tells whether it was subtracted. */
  function Unbit(r: bv16): (x: bv16)
  {
    if r & 1 != 0 then ((r ^ 0x1021) >> 1) | 0x8000 else r >> 1
  }

  lemma BitRoundTrip(x: bv16)
    ensures Unbit(Bit(x)) == x
  {
    hide Bit, Unbit, Top, Double, Reduce;
    BitCases(x);
    if Top(x) {
      UnbitHigh(x);
    } else {
      UnbitLow(x);
    }
  }

  lemma UnbitHigh(x: bv16)
    requires Top(x)
    ensures Unbit(Reduce(Double(x))) == x
  {
  }

  lemma UnbitLow(x: bv16)
    requires !Top(x)
    ensures Unbit(Double(x)) == x
  {
  }

  /** Division by the polynomial is linear over exclusive or. */
  lemma OctetLinear(x: bv16, y: bv16)
    ensures Octet(Add(x, y)) == Add(Octet(x), Octet(y))
  {
    hide Bit, Add;
    var x1, y1 := Bit(x), Bit(y);
    var x2, y2 := Bit(x1), Bit(y1);
    var x3, y3 := Bit(x2), Bit(y2);
    var x4, y4 := Bit(x3), Bit(y3);
    var x5, y5 := Bit(x4), Bit(y4);
    var x6, y6 := Bit(x5), Bit(y5);
    var x7, y7 := Bit(x6), Bit(y6);
    BitLinear(x, y);
    BitLinear(x1, y1);
    BitLinear(x2, y2);
    BitLinear(x3, y3);
    BitLinear(x4, y4);
    BitLinear(x5, y5);
    BitLinear(x6, y6);
    BitLinear(x7, y7);
  }

  function Unoctet(r: bv16): (x: bv16)
  {
    Unbit(Unbit(Unbit(Unbit(Unbit(Unbit(Unbit(Unbit(r))))))))
  }

  lemma OctetRoundTrip(x: bv16)
    ensures Unoctet(Octet(x)) == x
  {
    hide Bit, Unbit;
    var x1 := Bit(x);
    var x2 := Bit(x1);
    var x3 := Bit(x2);
    var x4 := Bit(x3);
    var x5 := Bit(x4);
    var x6 := Bit(x5);
    var x7 := Bit(x6);
    BitRoundTrip(x7);
    BitRoundTrip(x6);
    BitRoundTrip(x5);
    BitRoundTrip(x4);
    BitRoundTrip(x3);
    BitRoundTrip(x2);
    BitRoundTrip(x1);
    BitRoundTrip(x);
  }

  lemma OctetInjective(x: bv16, y: bv16)
    requires Octet(x) == Octet(y)
    ensures x == y
  {
    hide Octet, Unoctet;
    OctetRoundTrip(x);
    OctetRoundTrip(y);
  }

  /** Nothing falls out of the register while its top byte is empty. */
  lemma OctetLow(x: bv16)
    requires x < 0x100
    ensures Octet(x) == Up(x)
  {
  }

  /** One step of the table-driven loop. */
  function TableStep(crc: bv16, w: bv16): (r: bv16)
  {
    Add(Up(crc), Table(((crc >> 8) ^ w) & 0xFF))
  }

  lemma SplitRegister(crc: bv16, w: bv16)
    requires w < 0x100
    ensures Add(crc, Up(w)) == Add(Up(((crc >> 8) ^ w) & 0xFF), crc & 0xFF)
    ensures Up(crc & 0xFF) == Up(crc)
  {
  }

  lemma TableStepCorrect(crc: bv16, w: bv16)
    requires w < 0x100
    ensures TableStep(crc, w) == Step(crc, w)
  {
    hide Octet, Table, Up, Add;
    var i, low := ((crc >> 8) ^ w) & 0xFF, crc & 0xFF;
    SplitRegister(crc, w);
    OctetLinear(Up(i), low);
    OctetLow(low);
    TableCorrect(i);
    AddCommutes(Table(i), Up(crc));
  }

  lemma AddCommutes(x: bv16, y: bv16)
    ensures Add(x, y) == Add(y, x)
  {
  }

  /** The implementation: one table lookup per byte computes the bit-serial checksum, for every length. */
  method ComputeCrc16(data: seq<byte>) returns (crc16: u16)
    ensures crc16 == Checksum(data)
  {
    hide Step, TableStep, Word;
    var crc: bv16 := 0xFFFF;
    assert data[0..] == data;
    for i := 0 to |data|
      invariant Crc(crc, data[i..]) == Crc(0xFFFF, data)
    {
      WordBound(data[i]);
      TableStepCorrect(crc, Word(data[i]));
      assert data[i..][0] == data[i] && data[i..][1..] == data[i + 1..];
      crc := TableStep(crc, Word(data[i]));
    }
    return crc as int;
  }

  /** The check value of CRC-16/CCITT-FALSE: the digits 1 to 9 in ASCII give 0x29B1. */
  lemma CheckValue()
    ensures Checksum([0x31, 0x32, 0x33, 0x34, 0x35, 0x36, 0x37, 0x38, 0x39]) == 0x29B1
  {
    hide Step, Word;
    CheckSteps();
    CheckWords();
    var d: seq<byte> := [0x31, 0x32, 0x33, 0x34, 0x35, 0x36, 0x37, 0x38, 0x39];
    CrcFrom(0xFFFF, d, 0);
    CrcFrom(0xC782, d, 1);
    CrcFrom(0x3DBA, d, 2);
    CrcFrom(0x5BCE, d, 3);
    CrcFrom(0x5349, d, 4);
    CrcFrom(0x4560, d, 5);
    CrcFrom(0x2EF4, d, 6);
    CrcFrom(0x7718, d, 7);
    CrcFrom(0xA12B, d, 8);
    assert d[0..] == d && d[9..] == [];
  }

  lemma CrcFrom(crc: bv16, data: seq<byte>, k: nat)
    requires k < |data|
    ensures Crc(crc, data[k..]) == Crc(Step(crc, Word(data[k])), data[k + 1..])
  {
    hide Step, Word;
    assert data[k..][0] == data[k] && data[k..][1..] == data[k + 1..];
  }

  lemma CheckWords()
    ensures Word(0x31) == 0x31 && Word(0x32) == 0x32 && Word(0x33) == 0x33
    ensures Word(0x34) == 0x34 && Word(0x35) == 0x35 && Word(0x36) == 0x36
    ensures Word(0x37) == 0x37 && Word(0x38) == 0x38 && Word(0x39) == 0x39
  {
    assert Word(3) == 3;
    assert Word(6) == 6 && Word(7) == 7;
    assert Word(0xC) == 0xC && Word(0xD) == 0xD && Word(0xE) == 0xE;
    assert Word(0x18) == 0x18 && Word(0x19) == 0x19 && Word(0x1A) == 0x1A && Word(0x1B) == 0x1B && Word(0x1C) == 0x1C;
  }

  lemma CheckSteps()
    ensures Step(0xFFFF, 0x31) == 0xC782
    ensures Step(0xC782, 0x32) == 0x3DBA
    ensures Step(0x3DBA, 0x33) == 0x5BCE
    ensures Step(0x5BCE, 0x34) == 0x5349
    ensures Step(0x5349, 0x35) == 0x4560
    ensures Step(0x4560, 0x36) == 0x2EF4
    ensures Step(0x2EF4, 0x37) == 0x7718
    ensures Step(0x7718, 0x38) == 0xA12B
    ensures Step(0xA12B, 0x39) == 0x29B1
  {
  }

  // ---------------------------------------------------------------- what the checksum detects

  lemma {:induction false} CrcConcat(crc: bv16, a: seq<byte>, b: seq<byte>)
    ensures Crc(crc, a + b) == Crc(Crc(crc, a), b)
    decreases |a|
  {
    hide Step, Word;
    if a == [] {
      assert a + b == b;
    } else {
      assert (a + b)[1..] == a[1..] + b;
      CrcConcat(Step(crc, Word(a[0])), a[1..], b);
    }
  }

  lemma StepInjective(x: bv16, y: bv16, w: bv16)
    requires Step(x, w) == Step(y, w)
    ensures x == y
  {
    hide Octet, Up;
    OctetInjective(Add(x, Up(w)), Add(y, Up(w)));
  }

  /** Common bytes never merge two different registers. */
  lemma {:induction false} CrcInjective(x: bv16, y: bv16, data: seq<byte>)
    requires Crc(x, data) == Crc(y, data)
    ensures x == y
    decreases |data|
  {
    hide Step, Word;
    if data != [] {
      var w := Word(data[0]);
      CrcInjective(Step(x, w), Step(y, w), data[1..]);
      StepInjective(x, y, w);
    }
  }

  /** Two bytes enter the register as one 16-bit word divided twice. */
  lemma TwoSteps(crc: bv16, a: bv16, b: bv16)
    requires b < 0x100
    ensures Step(Step(crc, a), b) == Octet(Octet(Add(Add(crc, Up(a)), b)))
  {
    hide Octet, Up, Add;
    OctetLinear(Add(crc, Up(a)), b);
    OctetLow(b);
  }

  lemma WordsDistinct(crc: bv16, a: bv16, b: bv16, c: bv16, d: bv16)
    requires a < 0x100 && b < 0x100 && c < 0x100 && d < 0x100
    requires Add(Add(crc, Up(a)), b) == Add(Add(crc, Up(c)), d)
    ensures a == c && b == d
  {
    assert crc ^ ((crc ^ Up(a)) ^ b) == Up(a) ^ b;
    assert crc ^ ((crc ^ Up(c)) ^ d) == Up(c) ^ d;
  }

  lemma TwoStepsInjective(crc: bv16, a: bv16, b: bv16, c: bv16, d: bv16)
    requires a < 0x100 && b < 0x100 && c < 0x100 && d < 0x100
    requires Step(Step(crc, a), b) == Step(Step(crc, c), d)
    ensures a == c && b == d
  {
    hide Octet, Step, Up, Add;
    TwoSteps(crc, a, b);
    TwoSteps(crc, c, d);
    var x, y := Add(Add(crc, Up(a)), b), Add(Add(crc, Up(c)), d);
    OctetInjective(Octet(x), Octet(y));
    OctetInjective(x, y);
    WordsDistinct(crc, a, b, c, d);
  }

  lemma PairEnters(crc: bv16, pre: seq<byte>, a: byte, b: byte, post: seq<byte>)
    ensures Crc(crc, pre + [a, b] + post) == Crc(Step(Step(Crc(crc, pre), Word(a)), Word(b)), post)
  {
    hide Step, Word;
    CrcConcat(crc, pre + [a, b], post);
    CrcConcat(crc, pre, [a, b]);
    var s := Crc(crc, pre);
    assert [a, b][1..] == [b];
    assert Crc(s, [a, b]) == Crc(Step(s, Word(a)), [b]) == Crc(Step(Step(s, Word(a)), Word(b)), []);
  }

  lemma PairDetected(crc: bv16, a: byte, b: byte, c: byte, d: byte, post: seq<byte>)
    requires Crc(Step(Step(crc, Word(a)), Word(b)), post) == Crc(Step(Step(crc, Word(c)), Word(d)), post)
    ensures a == c && b == d
  {
    hide Step, Word;
    CrcInjective(Step(Step(crc, Word(a)), Word(b)), Step(Step(crc, Word(c)), Word(d)), post);
    WordBound(a);
    WordBound(b);
    WordBound(c);
    WordBound(d);
    TwoStepsInjective(crc, Word(a), Word(b), Word(c), Word(d));
    WordInjective(a, c);
    WordInjective(b, d);
  }

  lemma ToIntInjective(x: bv16, y: bv16)
    requires x as int == y as int
    ensures x == y
  {
    assert (x as int) as bv16 == x && (y as int) as bv16 == y;
  }

  /** Two byte strings that differ only inside a window of two adjacent bytes have different checksums. */
  lemma BurstDetected(data: seq<byte>, other: seq<byte>, i: nat)
    requires |data| == |other| && i + 2 <= |data|
    requires forall k :: 0 <= k < |data| && k != i && k != i + 1 ==> data[k] == other[k]
    ensures Checksum(data) == Checksum(other) <==> data == other
  {
    hide Step, Word;
    var pre, post := data[..i], data[i + 2..];
    assert data == pre + [data[i], data[i + 1]] + post;
    assert other == pre + [other[i], other[i + 1]] + post;
    PairEnters(0xFFFF, pre, data[i], data[i + 1], post);
    PairEnters(0xFFFF, pre, other[i], other[i + 1], post);
    if Checksum(data) == Checksum(other) {
      ToIntInjective(Crc(0xFFFF, data), Crc(0xFFFF, other));
      PairDetected(Crc(0xFFFF, pre), data[i], data[i + 1], other[i], other[i + 1], post);
    }
  }
}
