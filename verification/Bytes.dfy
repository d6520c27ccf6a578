/** Bytes, machine words and the bit operations that every other module shares.

    Words are integers with an explicit range.  Bitwise XOR and OR are defined on
    naturals bit by bit, so that their algebra is proved here once and the modules
    above never have to reason about bit vectors. */
module Bytes {

  datatype Option<+T> = None | Some(value: T)

  datatype Result<+T, +E> = Ok(value: T) | Err(error: E)

  type byte = x: int | 0 <= x < 0x100
  type u16 = x: int | 0 <= x < 0x1_0000
  type u32 = x: int | 0 <= x < 0x1_0000_0000
  type u64 = x: int | 0 <= x < 0x1_0000_0000_0000_0000

  // ---------------------------------------------------------------- powers of two

  function Pow2(k: nat): (r: nat)
    ensures r > 0
  {
    if k == 0 then 1 else 2 * Pow2(k - 1)
  }

  lemma Pow2Plus8(k: nat)
    ensures Pow2(k + 8) == 256 * Pow2(k)
  {
    assert Pow2(k + 2) == 4 * Pow2(k);
    assert Pow2(k + 4) == 4 * Pow2(k + 2);
    assert Pow2(k + 6) == 4 * Pow2(k + 4);
    assert Pow2(k + 8) == 4 * Pow2(k + 6);
  }

  lemma Pow2Words()
    ensures Pow2(8) == 0x100 && Pow2(16) == 0x1_0000 && Pow2(32) == 0x1_0000_0000
  {
    Pow2Plus8(0);
    Pow2Plus8(8);
    Pow2Plus8(16);
    Pow2Plus8(24);
  }

  // ---------------------------------------------------------------- exclusive or

  /** Bitwise exclusive or. */
  function Xor(a: nat, b: nat): (r: nat)
    decreases a + b
  {
    if a == 0 && b == 0 then 0
    else (if a % 2 == b % 2 then 0 else 1) + 2 * Xor(a / 2, b / 2)
  }

  lemma {:induction false} XorComm(a: nat, b: nat)
    ensures Xor(a, b) == Xor(b, a)
    decreases a + b
  {
    if a != 0 || b != 0 {
      XorComm(a / 2, b / 2);
    }
  }

  lemma {:induction false} XorZero(a: nat)
    ensures Xor(a, 0) == a
  {
    if a != 0 {
      XorZero(a / 2);
    }
  }

  lemma {:induction false} XorAssoc(a: nat, b: nat, c: nat)
    ensures Xor(Xor(a, b), c) == Xor(a, Xor(b, c))
    decreases a + b + c
  {
    if a != 0 || b != 0 || c != 0 {
      XorAssoc(a / 2, b / 2, c / 2);
      XorStep(a, b);
      XorStep(b, c);
      XorStep(Xor(a, b), c);
      XorStep(a, Xor(b, c));
    }
  }

  /** The defining equation, without the guard for two zeros. */
  lemma XorStep(a: nat, b: nat)
    ensures Xor(a, b) % 2 == (if a % 2 == b % 2 then 0 else 1)
    ensures Xor(a, b) / 2 == Xor(a / 2, b / 2)
    ensures Xor(a, b) == (if a % 2 == b % 2 then 0 else 1) + 2 * Xor(a / 2, b / 2)
  {
  }

  lemma {:induction false} XorSelf(a: nat)
    ensures Xor(a, a) == 0
  {
    if a != 0 {
      XorSelf(a / 2);
    }
  }

  /** Applying the same mask twice gives the value back. */
  lemma XorCancel(a: nat, k: nat)
    ensures Xor(Xor(a, k), k) == a
  {
    XorAssoc(a, k, k);
    XorSelf(k);
    XorZero(a);
  }

  lemma {:induction false} XorEqualsZero(a: nat, b: nat)
    ensures Xor(a, b) == 0 <==> a == b
    decreases a + b
  {
    if a != 0 || b != 0 {
      XorEqualsZero(a / 2, b / 2);
    }
  }

  lemma {:induction false} XorBound(a: nat, b: nat, k: nat)
    requires a < Pow2(k) && b < Pow2(k)
    ensures Xor(a, b) < Pow2(k)
    decreases k
  {
    if k > 0 {
      XorBound(a / 2, b / 2, k - 1);
      XorStep(a, b);
    }
  }

  /** Logical right shift by k bits. */
  function Shr(a: nat, k: nat): (r: nat)
    ensures r <= a
  {
    if k == 0 then a else Shr(a / 2, k - 1)
  }

  lemma {:induction false} ShrAdd(a: nat, j: nat, k: nat)
    ensures Shr(Shr(a, j), k) == Shr(a, j + k)
  {
    if j > 0 {
      ShrAdd(a / 2, j - 1, k);
    }
  }

  lemma {:induction false} ShrVanishes(a: nat, k: nat)
    requires a < Pow2(k)
    ensures Shr(a, k) == 0
  {
    if k > 0 {
      ShrVanishes(a / 2, k - 1);
    }
  }

  /** Shifting right distributes over exclusive or. */
  lemma {:induction false} XorShr(a: nat, b: nat, k: nat)
    ensures Shr(Xor(a, b), k) == Xor(Shr(a, k), Shr(b, k))
    decreases k
  {
    if k > 0 {
      XorShr(a / 2, b / 2, k - 1);
      XorStep(a, b);
    }
  }

  lemma {:induction false} ShrBounds(a: nat, k: nat)
    ensures Shr(a, k) * Pow2(k) <= a < (Shr(a, k) + 1) * Pow2(k)
  {
    if k > 0 {
      var q, d := Shr(a, k), Pow2(k - 1);
      ShrBounds(a / 2, k - 1);
      TwiceBounds(a, q, d);
    }
  }

  lemma TwiceBounds(a: nat, q: nat, d: nat)
    requires q * d <= a / 2 < (q + 1) * d
    ensures q * (2 * d) <= a < (q + 1) * (2 * d)
  {
    assert q * (2 * d) == 2 * (q * d);
    assert (q + 1) * (2 * d) == 2 * ((q + 1) * d);
  }

  /** Bit i of an exclusive or is set exactly when bit i of one side is and that of the other is not. */
  lemma XorBit(a: nat, b: nat, i: nat)
    ensures Shr(Xor(a, b), i) % 2 == 1 <==> (Shr(a, i) % 2 == 1) != (Shr(b, i) % 2 == 1)
  {
    XorShr(a, b, i);
    XorStep(Shr(a, i), Shr(b, i));
  }

  function XorByte(a: byte, b: byte): (r: byte)
  {
    Pow2Words();
    XorBound(a, b, 8);
    Xor(a, b)
  }

  function XorWord(a: u32, b: u32): (r: u32)
  {
    Pow2Words();
    XorBound(a, b, 32);
    Xor(a, b)
  }

  // ---------------------------------------------------------------- inclusive or

  function Or(a: nat, b: nat): (r: nat)
    decreases a + b
  {
    if a == 0 && b == 0 then 0
    else (if a % 2 == 0 && b % 2 == 0 then 0 else 1) + 2 * Or(a / 2, b / 2)
  }

  lemma {:induction false} OrEqualsZero(a: nat, b: nat)
    ensures Or(a, b) == 0 <==> a == 0 && b == 0
    decreases a + b
  {
    if a != 0 || b != 0 {
      OrEqualsZero(a / 2, b / 2);
    }
  }

  /** The firmware's constant-time comparison: fold every byte difference into one accumulator. */
  method ConstantTimeEq(a: seq<byte>, b: seq<byte>) returns (equal: bool)
    ensures equal <==> a == b
  {
    if |a| != |b| {
      return false;
    }
    var diff: nat := 0;
    for i := 0 to |a|
      invariant diff == 0 <==> a[..i] == b[..i]
    {
      OrEqualsZero(diff, Xor(a[i], b[i]));
      XorEqualsZero(a[i], b[i]);
      assert a[..i + 1] == a[..i] + [a[i]] && b[..i + 1] == b[..i] + [b[i]];
      diff := Or(diff, Xor(a[i], b[i]));
    }
    assert a[..|a|] == a && b[..|b|] == b;
    return diff == 0;
  }

  // ---------------------------------------------------------------- byte order

  function Pow256(k: nat): (r: nat)
    ensures r > 0
  {
    if k == 0 then 1 else 256 * Pow256(k - 1)
  }

  lemma Pow256Words()
    ensures Pow256(2) == 0x1_0000 && Pow256(4) == 0x1_0000_0000
    ensures Pow256(8) == 0x1_0000_0000_0000_0000
  {
    assert Pow256(2) == 0x1_0000;
    assert Pow256(4) == 256 * (256 * Pow256(2));
    assert Pow256(6) == 256 * (256 * Pow256(4));
    assert Pow256(8) == 256 * (256 * Pow256(6));
  }

  /** The k low-order bytes of n, least significant first. */
  function ToLe(n: nat, k: nat): (s: seq<byte>)
    ensures |s| == k
  {
    if k == 0 then [] else [n % 256] + ToLe(n / 256, k - 1)
  }

  function FromLe(s: seq<byte>): (n: nat)
  {
    if s == [] then 0 else s[0] + 256 * FromLe(s[1..])
  }

  lemma {:induction false} LeRoundTrip(n: nat, k: nat)
    requires n < Pow256(k)
    ensures FromLe(ToLe(n, k)) == n
  {
    if k > 0 {
      LeRoundTrip(n / 256, k - 1);
      assert ToLe(n, k)[1..] == ToLe(n / 256, k - 1);
    }
  }

  lemma {:induction false} LeInverse(s: seq<byte>)
    ensures ToLe(FromLe(s), |s|) == s
  {
    if s != [] {
      LeInverse(s[1..]);
      var first: nat, rest := s[0], FromLe(s[1..]);
      assert (first + 256 * rest) % 256 == first && (first + 256 * rest) / 256 == rest;
      assert [s[0]] + s[1..] == s;
    }
  }

  lemma {:induction false} LeBound(s: seq<byte>)
    ensures FromLe(s) < Pow256(|s|)
  {
    if s != [] {
      LeBound(s[1..]);
    }
  }

  function Le16(n: u16): (s: seq<byte>) ensures |s| == 2 { ToLe(n, 2) }
  function Le32(n: u32): (s: seq<byte>) ensures |s| == 4 { ToLe(n, 4) }
  function Le64(n: u64): (s: seq<byte>) ensures |s| == 8 { ToLe(n, 8) }

  function ReadLe16(s: seq<byte>): (n: u16)
    requires |s| == 2
  {
    LeBound(s); Pow256Words(); FromLe(s)
  }

  function ReadLe32(s: seq<byte>): (n: u32)
    requires |s| == 4
  {
    LeBound(s); Pow256Words(); FromLe(s)
  }

  function ReadLe64(s: seq<byte>): (n: u64)
    requires |s| == 8
  {
    LeBound(s); Pow256Words(); FromLe(s)
  }

  lemma Le16RoundTrip(n: u16)
    ensures ReadLe16(Le16(n)) == n
  {
    Pow256Words();
    LeRoundTrip(n, 2);
  }

  lemma Le32RoundTrip(n: u32)
    ensures ReadLe32(Le32(n)) == n
  {
    Pow256Words();
    LeRoundTrip(n, 4);
  }

  lemma Le64RoundTrip(n: u64)
    ensures ReadLe64(Le64(n)) == n
  {
    Pow256Words();
    LeRoundTrip(n, 8);
  }

  /** The words byte by byte, least significant first. */
  lemma Le16Bytes(n: u16)
    ensures Le16(n) == [n % 0x100, n / 0x100]
  {
    assert ToLe(n / 256, 1) == [n / 256];
  }

  lemma Le32Bytes(n: u32)
    ensures Le32(n) == [n % 0x100, n / 0x100 % 0x100, n / 0x1_0000 % 0x100, n / 0x100_0000]
  {
    var n2 := n / 256 / 256;
    assert ToLe(n2, 2) == [n2 % 256, n2 / 256 % 256];
    assert ToLe(n, 4) == [n % 256, n / 256 % 256] + ToLe(n2, 2);
  }

  lemma Le64Bytes(n: u64)
    ensures Le64(n) == Le32(n % 0x1_0000_0000) + Le32(n / 0x1_0000_0000)
  {
    var low, high := n % 0x1_0000_0000, n / 0x1_0000_0000;
    assert Pow256(4) == 0x1_0000_0000 by { Pow256Words(); }
    assert n == low + Pow256(4) * high;
    LeSplit(low, high, 4, 4);
  }

  /** Low-order bytes first: a number's bytes are those of its low part and then those of the rest. */
  lemma {:induction false} LeSplit(low: nat, high: nat, j: nat, k: nat)
    requires low < Pow256(j)
    ensures ToLe(low + Pow256(j) * high, j + k) == ToLe(low, j) + ToLe(high, k)
    decreases j
  {
    if j == 0 {
      assert low + Pow256(j) * high == high;
    } else {
      var n := low + Pow256(j) * high;
      assert Pow256(j) * high == 256 * (Pow256(j - 1) * high);
      assert n % 256 == low % 256 && n / 256 == low / 256 + Pow256(j - 1) * high;
      LeSplit(low / 256, high, j - 1, k);
    }
  }

  // ---------------------------------------------------------------- sequences

  /** A slice of a suffix. */
  lemma SliceFrom(s: seq<byte>, start: nat, from: nat, to: nat)
    requires from <= to && start + to <= |s|
    ensures s[start..][from..to] == s[start + from..start + to]
  {
  }

  lemma DropDrop(s: seq<byte>, a: nat, b: nat)
    requires a + b <= |s|
    ensures s[a..][b..] == s[a + b..]
  {
  }

  function Zeros(n: nat): (s: seq<byte>)
    ensures |s| == n
  {
    seq(n, _ => 0)
  }

  function Ascii(s: string): (b: seq<byte>)
    requires forall i :: 0 <= i < |s| ==> s[i] < 128 as char
    ensures |b| == |s|
  {
    seq(|s|, i requires 0 <= i < |s| => s[i] as int)
  }

  function Min(a: int, b: int): (r: int)
  {
    if a < b then a else b
  }

  function Max(a: int, b: int): (r: int)
  {
    if a < b then b else a
  }

  function Flatten<T>(parts: seq<seq<T>>): (r: seq<T>)
  {
    if parts == [] then [] else parts[0] + Flatten(parts[1..])
  }
}
