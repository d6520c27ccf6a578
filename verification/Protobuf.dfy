/** The minimal protobuf reader and writer (meshtastic_lite/pb_functions.c).

    The functions say what a read makes of the bytes still ahead: a value and how many bytes it took.
    The Cursor and Writer classes are the implementation, working on a position in a buffer. */
module Protobuf {
  import opened Bytes

  const VARINT_LIMIT: int := 0x8000_0000_0000_0000

  datatype Parsed<+T> = Parsed(value: T, used: nat) | Malformed

  /** One turn of a message decoder's loop: a field taken in, a tag that cannot be read (the loop ends quietly),
      or a field whose value cannot be read (the message is refused). */
  datatype Turn<+T> = Next(data: T, used: nat) | Stop | Refuse

  // ---------------------------------------------------------------- varints

  /** Seven bits a byte, least significant first, high bit set on all but the last byte. */
  function EncodeVarint(v: nat): (s: seq<byte>)
    ensures |s| > 0
  {
    if v < 128 then [v] else [v % 128 + 128] + EncodeVarint(v / 128)
  }

  /** Reading with k bytes already taken: the tenth byte is always refused. */
  function VarintFrom(s: seq<byte>, k: nat): (r: Parsed<nat>)
    ensures r.Parsed? ==> 0 < r.used <= |s|
    decreases |s|
  {
    if s == [] || 7 * (k + 1) > 63 then Malformed
    else if s[0] < 128 then Parsed(s[0], 1)
    else
      match VarintFrom(s[1..], k + 1)
      case Malformed => Malformed
      case Parsed(v, n) => Parsed(s[0] % 128 + 128 * v, n + 1)
  }

  function ReadVarint(s: seq<byte>): (r: Parsed<nat>)
    ensures r.Parsed? ==> 0 < r.used <= |s|
  {
    VarintFrom(s, 0)
  }

  function Pow128(k: nat): (r: nat)
    ensures r > 0
  {
    if k == 0 then 1 else 128 * Pow128(k - 1)
  }

  lemma Pow128Nine()
    ensures Pow128(9) == VARINT_LIMIT
  {
    assert Pow128(3) == 0x20_0000;
    assert Pow128(5) == 128 * (128 * Pow128(3));
    assert Pow128(7) == 128 * (128 * Pow128(5));
    assert Pow128(9) == 128 * (128 * Pow128(7));
  }

  lemma {:induction false} VarintFromRoundTrip(v: nat, k: nat, rest: seq<byte>)
    requires k <= 9
    ensures VarintFrom(EncodeVarint(v) + rest, k) ==
            if k < 9 && v < Pow128(9 - k) then Parsed(v, |EncodeVarint(v)|) else Malformed
    decreases v
  {
    var s := EncodeVarint(v) + rest;
    if k < 9 {
      assert Pow128(9 - k) == 128 * Pow128(8 - k);
      if v >= 128 {
        VarintFromRoundTrip(v / 128, k + 1, rest);
        assert s[1..] == EncodeVarint(v / 128) + rest;
      }
    }
  }

  lemma DivDiv(n: nat, a: nat, b: nat)
    requires a > 0 && b > 0
    ensures a * b > 0 && n / a / b == n / (a * b)
  {
    var q, t := n / a, n % a;
    var r, u := q / b, q % b;
    Remainders(n, a, b, q, t, r, u);
    QuotientIs(n, a * b, r, u * a + t);
  }

  lemma Remainders(n: nat, a: nat, b: nat, q: nat, t: nat, r: nat, u: nat)
    requires a > 0 && b > 0 && n == q * a + t && t < a && q == r * b + u && u < b
    ensures a * b > 0 && n == r * (a * b) + (u * a + t) && u * a + t < a * b
  {
    Regroup(r, b, u, a);
    MulLess(u, b, a);
    assert b * a == a * b;
  }

  lemma Regroup(r: nat, b: nat, u: nat, a: nat)
    ensures (r * b + u) * a == r * (a * b) + u * a
  {
  }

  lemma MulLess(x: nat, y: nat, d: nat)
    requires d > 0
    ensures x * d < y * d <==> x < y
    ensures x < y ==> x * d + d <= y * d
  {
    if x < y {
      assert (x + 1) * d <= y * d;
    } else {
      assert y * d <= x * d;
    }
  }

  lemma DivBounds(n: nat, d: nat)
    requires d > 0
    ensures n / d * d <= n < (n / d + 1) * d
  {
  }

  lemma QuotientIs(n: nat, d: nat, q: nat, rest: nat)
    requires n == q * d + rest && rest < d
    ensures n / d == q
  {
    var k := n / d;
    DivBounds(n, d);
    assert (q + 1) * d == q * d + d;
    MulLess(q, k + 1, d);
    MulLess(k, q + 1, d);
  }

  /** A varint byte by byte: byte i holds the i-th group of seven bits, lowest group first, and has its high bit set
      exactly when another follows; there are as many as the value needs. */
  lemma {:induction false} VarintBytes(v: nat, i: nat)
    requires i < |EncodeVarint(v)|
    ensures EncodeVarint(v)[i] % 128 == v / Pow128(i) % 128
    ensures EncodeVarint(v)[i] >= 128 <==> i < |EncodeVarint(v)| - 1
    ensures i < |EncodeVarint(v)| - 1 <==> v / Pow128(i) >= 128
    decreases i
  {
    if i > 0 {
      VarintBytes(v / 128, i - 1);
      DivDiv(v, 128, Pow128(i - 1));
    }
  }

  /** Every value below 2^63 is read back, taking exactly its own bytes; every larger one is refused. */
  lemma VarintRoundTrip(v: nat, rest: seq<byte>)
    ensures ReadVarint(EncodeVarint(v) + rest) ==
            if v < VARINT_LIMIT then Parsed(v, |EncodeVarint(v)|) else Malformed
  {
    VarintFromRoundTrip(v, 0, rest);
    Pow128Nine();
  }

  lemma {:induction false} VarintFromBound(s: seq<byte>, k: nat)
    requires k <= 9 && VarintFrom(s, k).Parsed?
    ensures VarintFrom(s, k).value < Pow128(9 - k) && k < 9
    decreases |s|
  {
    if s[0] >= 128 {
      VarintFromBound(s[1..], k + 1);
    }
  }

  lemma VarintBound(s: seq<byte>)
    requires ReadVarint(s).Parsed?
    ensures ReadVarint(s).value < VARINT_LIMIT
  {
    VarintFromBound(s, 0);
    Pow128Nine();
  }

  /** A successful read does not depend on what follows. */
  lemma {:induction false} VarintLocal(s: seq<byte>, k: nat, rest: seq<byte>)
    requires VarintFrom(s, k).Parsed?
    ensures VarintFrom(s + rest, k) == VarintFrom(s, k)
    decreases |s|
  {
    if s[0] >= 128 {
      VarintLocal(s[1..], k + 1, rest);
      assert (s + rest)[1..] == s[1..] + rest;
    }
  }

  // ---------------------------------------------------------------- the other reads

  function ReadFixed32(s: seq<byte>): (r: Parsed<u32>)
    ensures r.Parsed? ==> r.used <= |s|
  {
    if |s| < 4 then Malformed else Parsed(ReadLe32(s[..4]), 4)
  }

  /** Field number, truncated to 32 bits, and wire type. */
  function ReadTag(s: seq<byte>): (r: Parsed<(u32, nat)>)
    ensures r.Parsed? ==> 0 < r.used <= |s|
  {
    match ReadVarint(s)
    case Malformed => Malformed
    case Parsed(v, n) => Parsed(((v / 8) % 0x1_0000_0000, v % 8), n)
  }

  /** A length and that many bytes. */
  function ReadDelimited(s: seq<byte>): (r: Parsed<seq<byte>>)
    ensures r.Parsed? ==> 0 < r.used <= |s|
  {
    match ReadVarint(s)
    case Malformed => Malformed
    case Parsed(len, n) => if |s| - n < len then Malformed else Parsed(s[n..n + len], n + len)
  }

  /** The same, keeping at most max bytes. */
  function ReadBytes(s: seq<byte>, max: nat): (r: Parsed<seq<byte>>)
    ensures r.Parsed? ==> 0 < r.used <= |s| && |r.value| <= max
  {
    match ReadDelimited(s)
    case Malformed => Malformed
    case Parsed(v, n) => Parsed(v[..Min(|v|, max)], n)
  }

  /** The bytes of a field of the given wire type. */
  function SkipField(wireType: nat, s: seq<byte>): (r: Parsed<()>)
    ensures r.Parsed? ==> r.used <= |s|
  {
    if wireType == 0 then
      match ReadVarint(s) case Malformed => Malformed case Parsed(_, n) => Parsed((), n)
    else if wireType == 1 then
      if |s| < 8 then Malformed else Parsed((), 8)
    else if wireType == 2 then
      match ReadDelimited(s) case Malformed => Malformed case Parsed(_, n) => Parsed((), n)
    else if wireType == 5 then
      if |s| < 4 then Malformed else Parsed((), 4)
    else Malformed
  }

  /** What skipping a field takes: a varint, eight bytes, a length with that many bytes, four bytes; no other wire type
      can be skipped. */
  lemma SkipExactly(wireType: nat, s: seq<byte>)
    ensures SkipField(wireType, s).Parsed? <==>
      || (wireType == 0 && ReadVarint(s).Parsed?) || (wireType == 1 && |s| >= 8)
      || (wireType == 2 && ReadVarint(s).Parsed? && |s| >= ReadVarint(s).used + ReadVarint(s).value)
      || (wireType == 5 && |s| >= 4)
    ensures SkipField(wireType, s).Parsed? ==>
      var used := if wireType == 0 then ReadVarint(s).used else if wireType == 1 then 8
                  else if wireType == 2 then ReadVarint(s).used + ReadVarint(s).value else 4;
      SkipField(wireType, s).used == used
  {
    hide ReadVarint;
  }

  lemma ReadsLocal(s: seq<byte>, rest: seq<byte>, max: nat, wireType: nat)
    ensures ReadVarint(s).Parsed? ==> ReadVarint(s + rest) == ReadVarint(s)
    ensures ReadFixed32(s).Parsed? ==> ReadFixed32(s + rest) == ReadFixed32(s)
    ensures ReadTag(s).Parsed? ==> ReadTag(s + rest) == ReadTag(s)
    ensures ReadDelimited(s).Parsed? ==> ReadDelimited(s + rest) == ReadDelimited(s)
    ensures ReadBytes(s, max).Parsed? ==> ReadBytes(s + rest, max) == ReadBytes(s, max)
    ensures SkipField(wireType, s).Parsed? ==> SkipField(wireType, s + rest) == SkipField(wireType, s)
  {
    if ReadVarint(s).Parsed? {
      VarintLocal(s, 0, rest);
      var n, len := ReadVarint(s).used, ReadVarint(s).value;
      if |s| - n >= len {
        SliceOfPrefix(s, rest, n, n + len);
      }
    }
    if |s| >= 4 {
      SliceOfPrefix(s, rest, 0, 4);
    }
  }

  lemma SliceOfPrefix(s: seq<byte>, rest: seq<byte>, from: nat, to: nat)
    requires from <= to <= |s|
    ensures (s + rest)[from..to] == s[from..to]
  {
  }

  // ---------------------------------------------------------------- the writes

  function EncodeTag(field: nat, wireType: nat): (s: seq<byte>)
    ensures |s| > 0
  {
    EncodeVarint(field * 8 + wireType)
  }

  function EncodeVarintField(field: nat, v: nat): (s: seq<byte>)
  {
    EncodeTag(field, 0) + EncodeVarint(v)
  }

  function EncodeBytesField(field: nat, data: seq<byte>): (s: seq<byte>)
  {
    EncodeTag(field, 2) + EncodeVarint(|data|) + data
  }

  lemma TagRoundTrip(field: nat, wireType: nat, rest: seq<byte>)
    requires field < 0x1_0000_0000 && wireType < 8
    ensures ReadTag(EncodeTag(field, wireType) + rest) == Parsed((field, wireType), |EncodeTag(field, wireType)|)
  {
    hide ReadVarint, EncodeVarint;
    VarintRoundTrip(field * 8 + wireType, rest);
  }

  lemma DelimitedRoundTrip(data: seq<byte>, rest: seq<byte>)
    requires |data| < VARINT_LIMIT
    ensures var e := EncodeVarint(|data|) + data;
      ReadDelimited(e + rest) == Parsed(data, |e|)
  {
    var e := EncodeVarint(|data|) + data;
    assert e + rest == EncodeVarint(|data|) + (data + rest);
    VarintRoundTrip(|data|, data + rest);
    var n := |EncodeVarint(|data|)|;
    assert (e + rest)[n..n + |data|] == data;
  }

  // ---------------------------------------------------------------- the reader

  lemma {:induction false} OrDisjoint(a: nat, x: nat, k: nat)
    requires a < Pow2(k)
    ensures Or(a, x * Pow2(k)) == a + x * Pow2(k)
    decreases k
  {
    hide Or, Pow2;
    Pow2Unfolds(k);
    if k == 0 {
      OrZero(x);
    } else {
      OrDisjoint(a / 2, x, k - 1);
      TwiceProduct(x, Pow2(k - 1));
      OrEven(a, x * Pow2(k - 1));
    }
  }

  lemma Pow2Unfolds(k: nat)
    ensures Pow2(k) == if k == 0 then 1 else 2 * Pow2(k - 1)
  {
  }

  lemma TwiceProduct(x: nat, y: nat)
    ensures x * (2 * y) == 2 * (x * y)
  {
  }

  lemma OrEven(a: nat, y: nat)
    ensures Or(a, 2 * y) == 2 * Or(a / 2, y) + a % 2
  {
  }

  lemma {:induction false} OrZero(x: nat)
    ensures Or(0, x) == x
  {
    if x > 0 {
      OrZero(x / 2);
    }
  }

  class Cursor {
    const buf: seq<byte>
    var pos: nat

    ghost predicate Valid()
      reads this
    {
      pos <= |buf| < 0x1_0000
    }

    /** The bytes still ahead. */
    ghost function Ahead(): (s: seq<byte>)
      reads this
      requires Valid()
    {
      buf[pos..]
    }

    constructor (data: seq<byte>)
      requires |data| < 0x1_0000
      ensures Valid() && buf == data && Ahead() == data
    {
      buf := data;
      pos := 0;
    }

    method Exhausted() returns (end: bool)
      requires Valid()
      ensures end <==> Ahead() == []
    {
      return pos >= |buf|;
    }

    method ReadByte() returns (b: Option<byte>)
      requires Valid()
      modifies this
      ensures Valid() && pos >= old(pos)
      ensures b.None? <==> old(Ahead()) == []
      ensures b.Some? ==> b.value == old(Ahead())[0] && Ahead() == old(Ahead())[1..] && pos == old(pos) + 1
    {
      if pos >= |buf| {
        return None;
      }
      b := Some(buf[pos]);
      pos := pos + 1;
    }

    /** Shift-and-or, one byte at a time; on refusal the cursor stays somewhere inside the buffer. */
    method TakeVarint() returns (r: Option<nat>)
      requires Valid()
      modifies this
      ensures Valid() && pos >= old(pos)
      ensures match ReadVarint(old(Ahead()))
              case Parsed(v, n) => r == Some(v) && pos == old(pos) + n
              case Malformed => r.None?
    {
      var out: nat, shift: nat := 0, 0;
      ghost var k: nat := 0;
      ghost var start := Ahead();
      hide Reading, ReadVarint, Or, Pow2;
      ReadingStart(start);
      while true
        invariant Valid() && pos == old(pos) + k && shift == 7 * k && k <= 9
        invariant Reading(start, Ahead(), out, k)
        decreases 9 - k
      {
        ghost var ahead := Ahead();
        var b := ReadByte();
        if b.None? {
          ReadingEnd(start, ahead, out, k);
          return None;
        }
        ReadingStep(start, ahead, out, k);
        out := Or(out, (b.value % 128) * Pow2(shift));
        shift := shift + 7;
        k := k + 1;
        if shift > 63 {
          return None;
        }
        if b.value < 128 {
          return Some(out);
        }
      }
      return None;
    }

    method TakeFixed32() returns (r: Option<u32>)
      requires Valid()
      modifies this
      ensures Valid() && pos >= old(pos)
      ensures match ReadFixed32(old(Ahead()))
              case Parsed(v, n) => r == Some(v) && pos == old(pos) + n
              case Malformed => r.None?
    {
      if |buf| - pos < 4 {
        return None;
      }
      assert Ahead()[..4] == buf[pos..pos + 4];
      r := Some(ReadLe32(buf[pos..pos + 4]));
      pos := pos + 4;
    }

    method TakeTag() returns (r: Option<(u32, nat)>)
      requires Valid()
      modifies this
      ensures Valid() && pos >= old(pos)
      ensures match ReadTag(old(Ahead()))
              case Parsed(v, n) => r == Some(v) && pos == old(pos) + n
              case Malformed => r.None?
    {
      var tag := TakeVarint();
      if tag.None? {
        return None;
      }
      return Some(((tag.value / 8) % 0x1_0000_0000, tag.value % 8));
    }

    method Skip(wireType: nat) returns (ok: bool)
      requires Valid()
      modifies this
      ensures Valid() && pos >= old(pos)
      ensures match SkipField(wireType, old(Ahead()))
              case Parsed(_, n) => ok && pos == old(pos) + n
              case Malformed => !ok
    {
      if wireType == 0 {
        var v := TakeVarint();
        return v.Some?;
      } else if wireType == 1 {
        if |buf| - pos < 8 {
          return false;
        }
        pos := pos + 8;
        return true;
      } else if wireType == 2 {
        var len := TakeVarint();
        if len.None? || |buf| - pos < len.value {
          return false;
        }
        pos := pos + len.value;
        return true;
      } else if wireType == 5 {
        if |buf| - pos < 4 {
          return false;
        }
        pos := pos + 4;
        return true;
      }
      return false;
    }

    method TakeBytes(max: nat) returns (r: Option<seq<byte>>)
      requires Valid()
      modifies this
      ensures Valid() && pos >= old(pos)
      ensures match ReadBytes(old(Ahead()), max)
              case Parsed(v, n) => r == Some(v) && pos == old(pos) + n
              case Malformed => r.None?
    {
      ghost var ahead, start := Ahead(), pos;
      var len := TakeVarint();
      if len.None? || |buf| - pos < len.value {
        return None;
      }
      var copied := Min(len.value, max);
      ghost var n := pos - start;
      SliceFrom(buf, start, n, n + len.value);
      assert buf[pos..pos + len.value][..copied] == buf[pos..pos + copied];
      r := Some(buf[pos..pos + copied]);
      pos := pos + len.value;
    }
  }

  /** k bytes of a varint are in `out`; the bytes ahead decide the rest. */
  ghost predicate Reading(start: seq<byte>, ahead: seq<byte>, out: nat, k: nat)
  {
    && out < Pow2(7 * k)
    && match VarintFrom(ahead, k)
       case Parsed(v, n) => ReadVarint(start) == Parsed(out + v * Pow2(7 * k), k + n)
       case Malformed => ReadVarint(start).Malformed?
  }

  lemma ReadingStart(s: seq<byte>)
    ensures Reading(s, s, 0, 0)
  {
  }

  lemma ReadingEnd(start: seq<byte>, ahead: seq<byte>, out: nat, k: nat)
    requires Reading(start, ahead, out, k) && ahead == []
    ensures ReadVarint(start).Malformed?
  {
  }

  lemma ReadingStep(start: seq<byte>, ahead: seq<byte>, out: nat, k: nat)
    requires Reading(start, ahead, out, k) && k <= 9 && ahead != []
    ensures var out1 := Or(out, (ahead[0] % 128) * Pow2(7 * k));
      if k == 9 then ReadVarint(start).Malformed?
      else if ahead[0] < 128 then ReadVarint(start) == Parsed(out1, k + 1)
      else Reading(start, ahead[1..], out1, k + 1)
  {
    hide Or, Pow2, ReadVarint, VarintFrom;
    var low := ahead[0] % 128;
    VarintCases(ahead, k);
    OrDisjoint(out, low, 7 * k);
    ShiftStep(out, low, 7 * k);
    if k < 9 && ahead[0] >= 128 && VarintFrom(ahead[1..], k + 1).Parsed? {
      ShiftJoin(low, VarintFrom(ahead[1..], k + 1).value, 7 * k);
    }
  }

  /** The equations of reading one more byte. */
  lemma VarintCases(s: seq<byte>, k: nat)
    requires s != [] && k <= 9
    ensures k == 9 ==> VarintFrom(s, k).Malformed?
    ensures k < 9 && s[0] < 128 ==> VarintFrom(s, k) == Parsed(s[0], 1)
    ensures k < 9 && s[0] >= 128 ==>
      var later := VarintFrom(s[1..], k + 1);
      VarintFrom(s, k) == if later.Parsed? then Parsed(s[0] % 128 + 128 * later.value, later.used + 1) else Malformed
  {
  }

  /** Seven more bits above the ones already read. */
  lemma ShiftStep(out: nat, low: nat, shift: nat)
    requires out < Pow2(shift) && low < 128
    ensures out + low * Pow2(shift) < Pow2(shift + 7) && Pow2(shift + 7) == 128 * Pow2(shift)
  {
    Pow2Plus7(shift);
    assert low * Pow2(shift) <= 127 * Pow2(shift);
  }

  lemma Pow2Plus7(k: nat)
    ensures Pow2(k + 7) == 128 * Pow2(k)
  {
    assert Pow2(k + 2) == 4 * Pow2(k);
    assert Pow2(k + 4) == 4 * Pow2(k + 2);
    assert Pow2(k + 6) == 4 * Pow2(k + 4);
  }

  lemma ShiftJoin(low: nat, v: nat, shift: nat)
    ensures (low + 128 * v) * Pow2(shift) == low * Pow2(shift) + v * Pow2(shift + 7)
  {
    Pow2Plus7(shift);
    assert v * (128 * Pow2(shift)) == (128 * v) * Pow2(shift);
  }

  lemma VarintUnfolds(v: nat, before: seq<byte>)
    ensures before + EncodeVarint(v) ==
      if v < 128 then before + [v] else (before + [v % 128 + 128]) + EncodeVarint(v / 128)
    ensures |EncodeVarint(v)| == if v < 128 then 1 else 1 + |EncodeVarint(v / 128)|
  {
  }

  // ---------------------------------------------------------------- the writer

  class Writer {
    const buf: array<byte>
    const capacity: nat
    var pos: nat

    ghost predicate Valid()
      reads this
    {
      pos <= capacity <= buf.Length
    }

    ghost function Written(): (s: seq<byte>)
      reads this, buf
      requires Valid()
    {
      buf[..pos]
    }

    constructor (target: array<byte>, room: nat)
      requires room <= target.Length
      ensures Valid() && buf == target && capacity == room && Written() == []
    {
      buf := target;
      capacity := room;
      pos := 0;
    }

    method PutByte(b: byte) returns (ok: bool)
      requires Valid()
      modifies this, buf
      ensures Valid() && (ok <==> |old(Written())| < capacity)
      ensures Written() == if ok then old(Written()) + [b] else old(Written())
    {
      ok := pos < capacity;
      if ok {
        ghost var before := Written();
        buf[pos] := b;
        pos := pos + 1;
        assert Written() == before + [b];
      }
    }

    method PutVarint(v: nat) returns (ok: bool)
      requires Valid()
      modifies this, buf
      ensures Valid() && (ok <==> |old(Written())| + |EncodeVarint(v)| <= capacity)
      ensures ok ==> Written() == old(Written()) + EncodeVarint(v)
    {
      hide EncodeVarint;
      var left := v;
      ghost var before := Written();
      while left >= 128
        invariant Valid()
        invariant Written() + EncodeVarint(left) == before + EncodeVarint(v)
        decreases left
      {
        ghost var now := Written();
        VarintUnfolds(left, now);
        var stored := PutByte(left % 128 + 128);
        if !stored {
          return false;
        }
        left := left / 128;
      }
      VarintUnfolds(left, Written());
      ok := PutByte(left);
    }

    method PutVarintField(field: nat, v: nat) returns (ok: bool)
      requires Valid()
      modifies this, buf
      ensures Valid() && (ok <==> |old(Written())| + |EncodeVarintField(field, v)| <= capacity)
      ensures ok ==> Written() == old(Written()) + EncodeVarintField(field, v)
    {
      ok := PutVarint(field * 8);
      if ok {
        ok := PutVarint(v);
      }
    }

    method PutBytesField(field: nat, data: seq<byte>) returns (ok: bool)
      requires Valid()
      modifies this, buf
      ensures Valid() && (ok <==> |old(Written())| + |EncodeBytesField(field, data)| <= capacity)
      ensures ok ==> Written() == old(Written()) + EncodeBytesField(field, data)
    {
      hide EncodeVarint;
      ok := PutVarint(field * 8 + 2);
      if ok {
        ok := PutVarint(|data|);
      }
      if ok {
        ok := PutRaw(data);
      }
    }

    method PutRaw(data: seq<byte>) returns (ok: bool)
      requires Valid()
      modifies this, buf
      ensures Valid() && (ok <==> |old(Written())| + |data| <= capacity)
      ensures ok ==> Written() == old(Written()) + data
    {
      if pos + |data| > capacity {
        return false;
      }
      ghost var before := Written();
      for i := 0 to |data|
        modifies buf
        invariant buf[..pos + i] == before + data[..i]
      {
        buf[pos + i] := data[i];
        assert buf[..pos + i + 1] == buf[..pos + i] + [data[i]];
      }
      pos := pos + |data|;
      return true;
    }
  }
}
