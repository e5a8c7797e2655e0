/**
  The byte codec of data_view.h. A `store` overload writes one fixed-width
  value into the first bytes of a window of a caller's buffer, in little- or
  big-endian order; a `get` specialisation reads it back. Signed integers are
  written as their two's complement bit pattern whatever the host does.

  Bytes are the unsigned values 0..255 of the `char` bit patterns.
*/
module DataView {

  type Byte = b: int | 0 <= b < 0x100

  type U8 = Byte
  type U16 = x: int | 0 <= x < 0x1_0000
  type U32 = x: int | 0 <= x < 0x1_0000_0000
  type U64 = x: int | 0 <= x < 0x1_0000_0000_0000_0000
  type I8 = x: int | -0x80 <= x < 0x80
  type I16 = x: int | -0x8000 <= x < 0x8000
  type I32 = x: int | -0x8000_0000 <= x < 0x8000_0000
  type I64 = x: int | -0x8000_0000_0000_0000 <= x < 0x8000_0000_0000_0000

  /** `data_view<char>`: the buffer, the index of the window's first byte, the byte order. */
  datatype DataView = DataView(bytes: array<Byte>, start: nat, isBigEndian: bool)

  /**
    `data_view<const char>`: the bytes from the window's first byte on, the
    logical length that only the string `get` reads, and the byte order.
  */
  datatype ConstView = ConstView(bytes: seq<Byte>, size: nat, isBigEndian: bool)

  predicate IsWidth(n: nat) {
    n == 1 || n == 2 || n == 4 || n == 8
  }

  function Pow256(n: nat): (p: nat)
    ensures p > 0
  {
    if n == 0 then 1 else 0x100 * Pow256(n - 1)
  }

  /** Byte `i` of `v`, `(v >> 8*i) & 0xFF`: drop the low byte `i` times, keep the next. */
  function ByteOf(v: nat, i: nat): Byte {
    if i == 0 then v % 0x100 else ByteOf(v / 0x100, i - 1)
  }

  /** The `n` bytes an `n`-byte store of `v` writes, in window order. */
  function Image(v: nat, n: nat, bigEndian: bool): (w: seq<Byte>)
    ensures |w| == n
  {
    seq(n, k requires 0 <= k < n => ByteOf(v, if bigEndian then n - 1 - k else k))
  }

  /** The number whose little-endian bytes are `s`. */
  function LittleValue(s: seq<Byte>): nat {
    if s == [] then 0 else s[0] + 0x100 * LittleValue(s[1..])
  }

  /** The first `n` bytes of a window, least significant first. */
  function LittleOrder(w: seq<Byte>, n: nat, bigEndian: bool): (s: seq<Byte>)
    requires n <= |w|
    ensures |s| == n
  {
    seq(n, i requires 0 <= i < n => w[if bigEndian then n - 1 - i else i])
  }

  /** `s` with the bytes at `at .. at + |w|` replaced by `w`. */
  function Splice(s: seq<Byte>, at: nat, w: seq<Byte>): (r: seq<Byte>)
    requires at + |w| <= |s|
    ensures |r| == |s|
  {
    seq(|s|, i requires 0 <= i < |s| => if at <= i < at + |w| then w[i - at] else s[i])
  }

  /** A one-byte image is the byte itself, in either byte order. */
  lemma ImageOfByte(v: Byte, bigEndian: bool)
    ensures Image(v, 1, bigEndian) == [v]
  {
    assert Image(v, 1, bigEndian)[0] == ByteOf(v, 0) == v;
  }

  /** A buffer that differs from `a` only in the window `at .. at + |w|`, which holds `w`. */
  lemma WindowWritten(a: seq<Byte>, b: seq<Byte>, at: nat, w: seq<Byte>)
    requires |a| == |b| && at + |w| <= |a|
    requires forall i :: 0 <= i < at ==> b[i] == a[i]
    requires forall i :: at + |w| <= i < |a| ==> b[i] == a[i]
    requires forall i :: 0 <= i < |w| ==> b[at + i] == w[i]
    ensures b == Splice(a, at, w)
  {
  }

  /** The eight bytes of a 64-bit store, written out in both byte orders. */
  lemma ImageOf8(v: nat)
    ensures Image(v, 8, false) == [v % 0x100, ByteOf(v, 1), ByteOf(v, 2), ByteOf(v, 3),
                                   ByteOf(v, 4), ByteOf(v, 5), ByteOf(v, 6), ByteOf(v, 7)]
    ensures Image(v, 8, true) == [ByteOf(v, 7), ByteOf(v, 6), ByteOf(v, 5), ByteOf(v, 4),
                                  ByteOf(v, 3), ByteOf(v, 2), ByteOf(v, 1), v % 0x100]
  {
  }

  function Reversed(s: seq<Byte>): (r: seq<Byte>)
    ensures |r| == |s|
  {
    if s == [] then [] else Reversed(s[1..]) + [s[0]]
  }

  // ---------------------------------------------------------------------
  // Store

  method StoreU8(d: DataView, v: U8)
    requires d.start + 1 <= d.bytes.Length
    modifies d.bytes
    ensures d.bytes[..] == Splice(old(d.bytes[..]), d.start, Image(v, 1, d.isBigEndian))
  {
    d.bytes[d.start] := v % 0x100;
    ImageOfByte(v, d.isBigEndian);
  }

  method StoreBool(d: DataView, v: bool)
    requires d.start + 1 <= d.bytes.Length
    modifies d.bytes
    ensures d.bytes[..] == Splice(old(d.bytes[..]), d.start, [if v then 1 else 0])
  {
    d.bytes[d.start] := if v then 1 else 0;
  }

  method StoreU16(d: DataView, v: U16)
    requires d.start + 2 <= d.bytes.Length
    modifies d.bytes
    ensures d.bytes[..] == Splice(old(d.bytes[..]), d.start, Image(v, 2, d.isBigEndian))
  {
    var s := d.start;
    if !d.isBigEndian {
      d.bytes[s] := v % 0x100;
      d.bytes[s + 1] := ByteOf(v, 1);
    } else {
      d.bytes[s + 1] := v % 0x100;
      d.bytes[s] := ByteOf(v, 1);
    }
    WindowWritten(old(d.bytes[..]), d.bytes[..], s, Image(v, 2, d.isBigEndian));
  }

  method StoreU32(d: DataView, v: U32)
    requires d.start + 4 <= d.bytes.Length
    modifies d.bytes
    ensures d.bytes[..] == Splice(old(d.bytes[..]), d.start, Image(v, 4, d.isBigEndian))
  {
    var s := d.start;
    if !d.isBigEndian {
      d.bytes[s] := v % 0x100;
      d.bytes[s + 1] := ByteOf(v, 1);
      d.bytes[s + 2] := ByteOf(v, 2);
      d.bytes[s + 3] := ByteOf(v, 3);
    } else {
      d.bytes[s + 3] := v % 0x100;
      d.bytes[s + 2] := ByteOf(v, 1);
      d.bytes[s + 1] := ByteOf(v, 2);
      d.bytes[s] := ByteOf(v, 3);
    }
    WindowWritten(old(d.bytes[..]), d.bytes[..], s, Image(v, 4, d.isBigEndian));
  }

  method StoreU64(d: DataView, v: U64)
    requires d.start + 8 <= d.bytes.Length
    modifies d.bytes
    ensures d.bytes[..] == Splice(old(d.bytes[..]), d.start, Image(v, 8, d.isBigEndian))
  {
    var s := d.start;
    if !d.isBigEndian {
      d.bytes[s] := v % 0x100;
      d.bytes[s + 1] := ByteOf(v, 1);
      d.bytes[s + 2] := ByteOf(v, 2);
      d.bytes[s + 3] := ByteOf(v, 3);
      d.bytes[s + 4] := ByteOf(v, 4);
      d.bytes[s + 5] := ByteOf(v, 5);
      d.bytes[s + 6] := ByteOf(v, 6);
      d.bytes[s + 7] := ByteOf(v, 7);
      WindowWritten(old(d.bytes[..]), d.bytes[..], s,
        [v % 0x100, ByteOf(v, 1), ByteOf(v, 2), ByteOf(v, 3), ByteOf(v, 4), ByteOf(v, 5), ByteOf(v, 6), ByteOf(v, 7)]);
    } else {
      d.bytes[s + 7] := v % 0x100;
      d.bytes[s + 6] := ByteOf(v, 1);
      d.bytes[s + 5] := ByteOf(v, 2);
      d.bytes[s + 4] := ByteOf(v, 3);
      d.bytes[s + 3] := ByteOf(v, 4);
      d.bytes[s + 2] := ByteOf(v, 5);
      d.bytes[s + 1] := ByteOf(v, 6);
      d.bytes[s] := ByteOf(v, 7);
      WindowWritten(old(d.bytes[..]), d.bytes[..], s,
        [ByteOf(v, 7), ByteOf(v, 6), ByteOf(v, 5), ByteOf(v, 4), ByteOf(v, 3), ByteOf(v, 2), ByteOf(v, 1), v % 0x100]);
    }
    ImageOf8(v);
  }

  method StoreI8(d: DataView, v: I8)
    requires d.start + 1 <= d.bytes.Length
    modifies d.bytes
    ensures d.bytes[..] == Splice(old(d.bytes[..]), d.start, Image(v % 0x100, 1, d.isBigEndian))
  {
    StoreU8(d, Int8Bits(v));
  }

  method StoreI16(d: DataView, v: I16)
    requires d.start + 2 <= d.bytes.Length
    modifies d.bytes
    ensures d.bytes[..] == Splice(old(d.bytes[..]), d.start, Image(v % 0x1_0000, 2, d.isBigEndian))
  {
    StoreU16(d, Int16Bits(v));
  }

  method StoreI32(d: DataView, v: I32)
    requires d.start + 4 <= d.bytes.Length
    modifies d.bytes
    ensures d.bytes[..] == Splice(old(d.bytes[..]), d.start, Image(v % 0x1_0000_0000, 4, d.isBigEndian))
  {
    StoreU32(d, Int32Bits(v));
  }

  method StoreI64(d: DataView, v: I64)
    requires d.start + 8 <= d.bytes.Length
    modifies d.bytes
    ensures d.bytes[..] == Splice(old(d.bytes[..]), d.start,
                                  Image(v % 0x1_0000_0000_0000_0000, 8, d.isBigEndian))
  {
    StoreU64(d, Int64Bits(v));
  }

  /** Copies every byte of `str`, however long the window is said to be. */
  method StoreString(d: DataView, str: seq<Byte>)
    requires d.start + |str| <= d.bytes.Length
    modifies d.bytes
    ensures d.bytes[..] == Splice(old(d.bytes[..]), d.start, str)
  {
    for i := 0 to |str|
      invariant forall j :: 0 <= j < d.start ==> d.bytes[j] == old(d.bytes[j])
      invariant forall j :: d.start + i <= j < d.bytes.Length ==> d.bytes[j] == old(d.bytes[j])
      invariant forall j :: 0 <= j < i ==> d.bytes[d.start + j] == str[j]
    {
      d.bytes[d.start + i] := str[i];
    }
    WindowWritten(old(d.bytes[..]), d.bytes[..], d.start, str);
  }

  // ---------------------------------------------------------------------
  // Two's complement bit patterns of the signed stores

  /** `store(signed char)`: `v` when positive, otherwise `0xFF + v + 1` cut to 8 bits. */
  function Int8Bits(v: I8): (b: U8)
    ensures b == v % 0x100
  {
    if v > 0 then v else (0xFF + v + 1) % 0x100
  }

  /** `store(int16_t)`: `v` when positive, otherwise `0xFFFF + v + 1` cut to 16 bits. */
  function Int16Bits(v: I16): (b: U16)
    ensures b == v % 0x1_0000
  {
    if v > 0 then v else (0xFFFF + v + 1) % 0x1_0000
  }

  /** `store(int32_t)`: the 64-bit sum `0xFFFFFFFF + uint32(v) + 1`, cut to 32 bits. */
  function Int32Bits(v: I32): (b: U32)
    ensures b == v % 0x1_0000_0000
  {
    if v > 0 then v
    else (0xFFFF_FFFF + v % 0x1_0000_0000 + 1) % 0x1_0000_0000
  }

  /** `store(int64_t)`: `0xFFFFFFFFFFFFFFFF + uint64(v) + 1` in 64-bit unsigned arithmetic. */
  function Int64Bits(v: I64): (b: U64)
    ensures b == v % 0x1_0000_0000_0000_0000
  {
    if v > 0 then v
    else (0xFFFF_FFFF_FFFF_FFFF + v % 0x1_0000_0000_0000_0000 + 1) % 0x1_0000_0000_0000_0000
  }

  // ---------------------------------------------------------------------
  // Get

  function GetU8(d: ConstView): (r: U8)
    requires 1 <= |d.bytes|
    ensures r == LittleValue(LittleOrder(d.bytes, 1, d.isBigEndian))
  {
    LittleValueUnroll(LittleOrder(d.bytes, 1, d.isBigEndian), 0);
    d.bytes[0] % 0x100
  }

  /** Any nonzero byte reads as true. */
  function GetBool(d: ConstView): (r: bool)
    requires 1 <= |d.bytes|
    ensures r <==> d.bytes[0] != 0
  {
    GetU8(d) != 0
  }

  function GetU16(d: ConstView): (r: U16)
    requires 2 <= |d.bytes|
    ensures r == LittleValue(LittleOrder(d.bytes, 2, d.isBigEndian))
  {
    LittleValueOf2(LittleOrder(d.bytes, 2, d.isBigEndian));
    if !d.isBigEndian then d.bytes[0] + (d.bytes[1] as int) * 0x100
    else d.bytes[1] + (d.bytes[0] as int) * 0x100
  }

  function GetU32(d: ConstView): (r: U32)
    requires 4 <= |d.bytes|
    ensures r == LittleValue(LittleOrder(d.bytes, 4, d.isBigEndian))
  {
    LittleValueOf4(LittleOrder(d.bytes, 4, d.isBigEndian));
    if !d.isBigEndian then
      d.bytes[0] + (d.bytes[1] as int) * 0x100 + (d.bytes[2] as int) * 0x1_0000 + (d.bytes[3] as int) * 0x100_0000
    else
      d.bytes[3] + (d.bytes[2] as int) * 0x100 + (d.bytes[1] as int) * 0x1_0000 + (d.bytes[0] as int) * 0x100_0000
  }

  function GetU64(d: ConstView): (r: U64)
    requires 8 <= |d.bytes|
    ensures r == LittleValue(LittleOrder(d.bytes, 8, d.isBigEndian))
  {
    LittleValueOf8(LittleOrder(d.bytes, 8, d.isBigEndian));
    if !d.isBigEndian then
      d.bytes[0] + (d.bytes[1] as int) * 0x100 + (d.bytes[2] as int) * 0x1_0000 + (d.bytes[3] as int) * 0x100_0000
      + (d.bytes[4] as int) * 0x1_0000_0000 + (d.bytes[5] as int) * 0x100_0000_0000
      + (d.bytes[6] as int) * 0x1_0000_0000_0000 + (d.bytes[7] as int) * 0x100_0000_0000_0000
    else
      d.bytes[7] + (d.bytes[6] as int) * 0x100 + (d.bytes[5] as int) * 0x1_0000 + (d.bytes[4] as int) * 0x100_0000
      + (d.bytes[3] as int) * 0x1_0000_0000 + (d.bytes[2] as int) * 0x100_0000_0000
      + (d.bytes[1] as int) * 0x1_0000_0000_0000 + (d.bytes[0] as int) * 0x100_0000_0000_0000
  }

  // `static_cast` to a signed type: the value of the signed range with the
  // same low bits.

  function ToI8(x: int): (r: I8)
    ensures r % 0x100 == x % 0x100
  {
    var m := x % 0x100;
    if m < 0x80 then m else m - 0x100
  }

  function ToI16(x: int): (r: I16)
    ensures r % 0x1_0000 == x % 0x1_0000
  {
    var m := x % 0x1_0000;
    if m < 0x8000 then m else m - 0x1_0000
  }

  function ToI32(x: int): (r: I32)
    ensures r % 0x1_0000_0000 == x % 0x1_0000_0000
  {
    var m := x % 0x1_0000_0000;
    if m < 0x8000_0000 then m else m - 0x1_0000_0000
  }

  function ToI64(x: int): (r: I64)
    ensures r % 0x1_0000_0000_0000_0000 == x % 0x1_0000_0000_0000_0000
  {
    var m := x % 0x1_0000_0000_0000_0000;
    if m < 0x8000_0000_0000_0000 then m else m - 0x1_0000_0000_0000_0000
  }

  /** `get<signed char>`: the byte `b` minus `0xFF + 1` in 64-bit unsigned arithmetic, cast to 8 bits. */
  function GetI8(d: ConstView): (r: I8)
    requires 1 <= |d.bytes|
    ensures var b := GetU8(d); r == if b < 0x80 then b else b - 0x100
  {
    WrappedLowBits(GetU8(d), 0x100, 0x100_0000_0000_0000);
    ToI8((GetU8(d) - 0xFF - 1) % 0x1_0000_0000_0000_0000)
  }

  function GetI16(d: ConstView): (r: I16)
    requires 2 <= |d.bytes|
    ensures var b := GetU16(d); r == if b < 0x8000 then b else b - 0x1_0000
  {
    WrappedLowBits(GetU16(d), 0x1_0000, 0x1_0000_0000_0000);
    ToI16((GetU16(d) - 0xFFFF - 1) % 0x1_0000_0000_0000_0000)
  }

  function GetI32(d: ConstView): (r: I32)
    requires 4 <= |d.bytes|
    ensures var b := GetU32(d); r == if b < 0x8000_0000 then b else b - 0x1_0000_0000
  {
    WrappedLowBits(GetU32(d), 0x1_0000_0000, 0x1_0000_0000);
    ToI32((GetU32(d) - 0xFFFF_FFFF - 1) % 0x1_0000_0000_0000_0000)
  }

  function GetI64(d: ConstView): (r: I64)
    requires 8 <= |d.bytes|
    ensures var b := GetU64(d);
            r == if b < 0x8000_0000_0000_0000 then b else b - 0x1_0000_0000_0000_0000
  {
    WrappedLowBits(GetU64(d), 0x1_0000_0000_0000_0000, 1);
    ToI64((GetU64(d) - 0xFFFF_FFFF_FFFF_FFFF - 1) % 0x1_0000_0000_0000_0000)
  }

  /**
    The subtraction `b - (2^N - 1) - 1` of the signed gets, done in 64-bit
    unsigned arithmetic, keeps the low `N` bits of `b`.
  */
  lemma WrappedLowBits(b: int, p: int, q: int)
    requires 0 <= b < p && q >= 1 && p * q == 0x1_0000_0000_0000_0000
    ensures (b - p) % 0x1_0000_0000_0000_0000 % p == b
  {
    var m := 0x1_0000_0000_0000_0000;
    DivUnique(b - p, m, -1, b - p + m);
    assert (b - p) % m == b - p + m;
    assert b - p + m == (q - 1) * p + b;
    DivUnique(b - p + m, p, q - 1, b);
  }

  /** `get<std::string_view>`: exactly `size` bytes from the window's first byte. */
  function GetString(d: ConstView): (r: seq<Byte>)
    requires d.size <= |d.bytes|
    ensures |r| == d.size && r <= d.bytes
  {
    d.bytes[..d.size]
  }

  // ---------------------------------------------------------------------
  // Unrolling LittleValue for the straight-line sums of the gets

  lemma LittleValueUnroll(s: seq<Byte>, k: nat)
    requires k < |s|
    ensures LittleValue(s[k..]) == s[k] + 0x100 * LittleValue(s[k + 1..])
  {
    assert s[k..][1..] == s[k + 1..];
  }

  lemma LittleValueOf2(s: seq<Byte>)
    requires |s| == 2
    ensures LittleValue(s) == s[0] + (s[1] as int) * 0x100
  {
    LittleValueUnroll(s, 0);
    LittleValueUnroll(s, 1);
    assert s[0..] == s;
  }

  lemma LittleValueOf4(s: seq<Byte>)
    requires |s| == 4
    ensures LittleValue(s) == s[0] + (s[1] as int) * 0x100 + (s[2] as int) * 0x1_0000 + (s[3] as int) * 0x100_0000
  {
    LittleValueUnroll(s, 0);
    LittleValueUnroll(s, 1);
    LittleValueUnroll(s, 2);
    LittleValueUnroll(s, 3);
    assert s[0..] == s;
  }

  lemma LittleValueOf8(s: seq<Byte>)
    requires |s| == 8
    ensures LittleValue(s) == s[0] + (s[1] as int) * 0x100 + (s[2] as int) * 0x1_0000 + (s[3] as int) * 0x100_0000
                              + (s[4] as int) * 0x1_0000_0000 + (s[5] as int) * 0x100_0000_0000
                              + (s[6] as int) * 0x1_0000_0000_0000 + (s[7] as int) * 0x100_0000_0000_0000
  {
    LittleValueUnroll(s, 0);
    LittleValueUnroll(s, 1);
    LittleValueUnroll(s, 2);
    LittleValueUnroll(s, 3);
    LittleValueUnroll(s, 4);
    LittleValueUnroll(s, 5);
    LittleValueUnroll(s, 6);
    LittleValueUnroll(s, 7);
    assert s[0..] == s;
  }

  // ---------------------------------------------------------------------
  // Properties of the codec

  lemma Pow256Widths()
    ensures Pow256(1) == 0x100 && Pow256(2) == 0x1_0000
    ensures Pow256(4) == 0x1_0000_0000 && Pow256(8) == 0x1_0000_0000_0000_0000
  {
  }

  /** The signed `n`-byte range is `MinSigned(n) .. Pow256(n) / 2 - 1`. */
  function MinSigned(n: nat): int {
    -((Pow256(n) / 2) as int)
  }

  /** The unsigned `get` of width `n`. */
  function GetUnsigned(d: ConstView, n: nat): (r: nat)
    requires IsWidth(n) && n <= |d.bytes|
    ensures r == LittleValue(LittleOrder(d.bytes, n, d.isBigEndian))
  {
    if n == 1 then GetU8(d) else if n == 2 then GetU16(d) else if n == 4 then GetU32(d) else GetU64(d)
  }

  /** The signed `get` of width `n`. */
  function GetSigned(d: ConstView, n: nat): (r: int)
    requires IsWidth(n) && n <= |d.bytes|
    ensures var b := GetUnsigned(d, n);
            r == if b < Pow256(n) / 2 then b else b - Pow256(n)
  {
    Pow256Widths();
    if n == 1 then GetI8(d) else if n == 2 then GetI16(d) else if n == 4 then GetI32(d) else GetI64(d)
  }

  /** Reading an image back, least significant byte first, gives the value. */
  lemma {:induction false} LittleValueOfImage(v: nat, n: nat)
    requires v < Pow256(n)
    ensures LittleValue(Image(v, n, false)) == v
  {
    if n > 0 {
      var w := Image(v, n, false);
      assert w[0] == ByteOf(v, 0) == v % 0x100;
      assert w[1..] == Image(v / 0x100, n - 1, false);
      assert v / 0x100 < Pow256(n - 1);
      LittleValueOfImage(v / 0x100, n - 1);
    }
  }

  /** Every byte sequence is the little-endian image of the value it reads as. */
  lemma {:induction false} ImageOfLittleValue(s: seq<Byte>)
    ensures LittleValue(s) < Pow256(|s|)
    ensures Image(LittleValue(s), |s|, false) == s
  {
    if s != [] {
      ImageOfLittleValue(s[1..]);
      var v := LittleValue(s);
      assert v / 0x100 == LittleValue(s[1..]) && v % 0x100 == s[0];
      forall k | 0 <= k < |s|
        ensures Image(v, |s|, false)[k] == s[k]
      {
        if k > 0 {
          assert ByteOf(v, k) == ByteOf(v / 0x100, k - 1);
          assert Image(LittleValue(s[1..]), |s| - 1, false)[k - 1] == s[1..][k - 1];
        }
      }
    }
  }

  /** `get<uintN>` after `store(uintN v)` returns `v`, for every width and byte order. */
  lemma UnsignedRoundTrip(v: nat, n: nat, bigEndian: bool, rest: seq<Byte>, size: nat)
    requires IsWidth(n) && v < Pow256(n)
    ensures GetUnsigned(ConstView(Image(v, n, bigEndian) + rest, size, bigEndian), n) == v
  {
    var w := Image(v, n, bigEndian) + rest;
    assert LittleOrder(w, n, bigEndian) == Image(v, n, false);
    LittleValueOfImage(v, n);
  }

  lemma ImageAt(v: nat, n: nat, bigEndian: bool, k: nat, i: nat)
    requires k < n && i == if bigEndian then n - 1 - k else k
    ensures Image(v, n, bigEndian)[k] == ByteOf(v, i)
  {
  }

  lemma LittleOrderAt(w: seq<Byte>, n: nat, bigEndian: bool, i: nat, k: nat)
    requires n <= |w| && i < n && k == if bigEndian then n - 1 - i else i
    ensures LittleOrder(w, n, bigEndian)[i] == w[k]
  {
  }

  lemma ImageOfLittleOrder(w: seq<Byte>, n: nat, bigEndian: bool)
    requires n <= |w|
    ensures LittleValue(LittleOrder(w, n, bigEndian)) < Pow256(n)
    ensures Image(LittleValue(LittleOrder(w, n, bigEndian)), n, bigEndian) == w[..n]
  {
    var s := LittleOrder(w, n, bigEndian);
    var v := LittleValue(s);
    ImageOfLittleValue(s);
    forall k | 0 <= k < n
      ensures Image(v, n, bigEndian)[k] == w[..n][k]
    {
      var i := if bigEndian then n - 1 - k else k;
      LittleOrderAt(w, n, bigEndian, i, k);
      ImageAt(v, n, bigEndian, k, i);
      ImageAt(v, n, false, i, i);
    }
  }

  /** Conversely, every window is the image of the value `get<uintN>` reads from it. */
  lemma UnsignedGetIsExact(d: ConstView, n: nat)
    requires IsWidth(n) && n <= |d.bytes|
    ensures GetUnsigned(d, n) < Pow256(n)
    ensures Image(GetUnsigned(d, n), n, d.isBigEndian) == d.bytes[..n]
  {
    ImageOfLittleOrder(d.bytes, n, d.isBigEndian);
  }

  /** `v / 256 / 256^i` is `v / 256^(i+1)`. */
  lemma DivPow256(v: nat, i: nat)
    ensures v / 0x100 / Pow256(i) == v / Pow256(i + 1)
  {
    var p := Pow256(i);
    var q := v / 0x100 / p;
    var r1 := v % 0x100;
    var r2 := v / 0x100 % p;
    assert v / 0x100 == q * p + r2;
    assert v == (q * p + r2) * 0x100 + r1;
    assert v == q * Pow256(i + 1) + (r2 * 0x100 + r1);
    assert 0 <= r2 * 0x100 + r1 < Pow256(i + 1);
    DivUnique(v, Pow256(i + 1), q, r2 * 0x100 + r1);
  }

  lemma DivUnique(v: int, d: int, q: int, r: int)
    requires d > 0 && v == q * d + r && 0 <= r < d
    ensures v / d == q
  {
    var q', r' := v / d, v % d;
    assert q' * d + r' == q * d + r;
    if q' < q {
      MulMonotone(q' + 1, q, d);
    } else if q < q' {
      MulMonotone(q + 1, q', d);
    }
  }

  lemma MulMonotone(a: int, b: int, d: int)
    requires a <= b && d > 0
    ensures a * d <= b * d
  {
    assert b * d - a * d == (b - a) * d;
  }

  /** Shifting one byte at a time `i` times is shifting by `8 * i` bits. */
  lemma {:induction false} ByteOfIsShift(v: nat, i: nat)
    ensures ByteOf(v, i) == (v / Pow256(i)) % 0x100
  {
    if i > 0 {
      ByteOfIsShift(v / 0x100, i - 1);
      DivPow256(v, i - 1);
    }
  }

  /**
    Byte placement: a little-endian store puts byte `i` of `v`,
    `(v >> 8*i) & 0xFF`, at position `i`; a big-endian one at `n - 1 - i`.
  */
  lemma BytePlacement(v: nat, n: nat, i: nat)
    requires i < n
    ensures Image(v, n, false)[i] == (v / Pow256(i)) % 0x100
    ensures Image(v, n, true)[n - 1 - i] == (v / Pow256(i)) % 0x100
  {
    ByteOfIsShift(v, i);
  }

  lemma {:induction false} ReversedAt(s: seq<Byte>, k: nat)
    requires k < |s|
    ensures Reversed(s)[k] == s[|s| - 1 - k]
  {
    if k < |s| - 1 {
      ReversedAt(s[1..], k);
    }
  }

  /** The big-endian image is the little-endian image reversed. */
  lemma BigEndianIsReversed(v: nat, n: nat)
    ensures Image(v, n, true) == Reversed(Image(v, n, false))
  {
    forall k | 0 <= k < n
      ensures Image(v, n, true)[k] == Reversed(Image(v, n, false))[k]
    {
      ReversedAt(Image(v, n, false), k);
    }
  }

  /** The two's complement pattern of a signed `n`-byte value. */
  function SignedBits(v: int, n: nat): (b: nat)
    requires IsWidth(n) && MinSigned(n) <= v < Pow256(n) / 2
    ensures b == v % Pow256(n)
  {
    Pow256Widths();
    if n == 1 then Int8Bits(v) else if n == 2 then Int16Bits(v)
    else if n == 4 then Int32Bits(v) else Int64Bits(v)
  }

  /** `get<intN>` after `store(intN v)` returns `v`, for every width and byte order. */
  lemma SignedRoundTrip(v: int, n: nat, bigEndian: bool, rest: seq<Byte>, size: nat)
    requires IsWidth(n) && MinSigned(n) <= v < Pow256(n) / 2
    ensures GetSigned(ConstView(Image(SignedBits(v, n), n, bigEndian) + rest, size, bigEndian), n) == v
  {
    UnsignedRoundTrip(SignedBits(v, n), n, bigEndian, rest, size);
    SignedOfBits(v, Pow256(n));
  }

  /** Conversely, storing what `get<intN>` read rewrites the same bytes. */
  lemma SignedGetIsExact(d: ConstView, n: nat)
    requires IsWidth(n) && n <= |d.bytes|
    ensures MinSigned(n) <= GetSigned(d, n) < Pow256(n) / 2
    ensures Image(SignedBits(GetSigned(d, n), n), n, d.isBigEndian) == d.bytes[..n]
  {
    var b := GetUnsigned(d, n);
    assert GetSigned(d, n) == if b < Pow256(n) / 2 then b else b - Pow256(n);
    UnsignedGetIsExact(d, n);
    SignedReadingBits(b, n);
  }

  /** The signed reading of an `n`-byte pattern is in range and has that pattern. */
  lemma SignedReadingBits(b: nat, n: nat)
    requires IsWidth(n) && b < Pow256(n)
    ensures var r := if b < Pow256(n) / 2 then b else b - Pow256(n);
            MinSigned(n) <= r < Pow256(n) / 2 && SignedBits(r, n) == b
  {
    BitsOfSigned(b, Pow256(n));
  }

  /** Reading the pattern `v % p` as signed gives `v` back. */
  lemma SignedOfBits(v: int, p: int)
    requires p > 0 && -(p / 2) <= v < p / 2
    ensures var b := v % p; (if b < p / 2 then b else b - p) == v
  {
    if v >= 0 {
      DivUnique(v, p, 0, v);
    } else {
      DivUnique(v, p, -1, v + p);
    }
  }

  /** The signed reading of a pattern `b` has the pattern `b`. */
  lemma BitsOfSigned(b: int, p: int)
    requires 0 <= b < p
    ensures (if b < p / 2 then b else b - p) % p == b
  {
    if b < p / 2 {
      DivUnique(b, p, 0, b);
    } else {
      DivUnique(b - p, p, -1, b);
    }
  }

  lemma {:induction false} ByteOfZero(i: nat)
    ensures ByteOf(0, i) == 0
  {
    if i > 0 {
      ByteOfZero(i - 1);
    }
  }

  /**
    The signed stores write the bytes of the unsigned store of the same bit
    pattern: int16 -1 as uint16 65535, and 0 (through the wrap-around of the
    `else` branch) as all zeros.
  */
  lemma SignedStoreExamples(n: nat, bigEndian: bool)
    requires IsWidth(n)
    ensures Image(Int16Bits(-1), 2, bigEndian) == Image(0xFFFF, 2, bigEndian) == [0xFF, 0xFF]
    ensures Image(SignedBits(0, n), n, bigEndian) == seq(n, _ => 0)
  {
    assert ByteOf(0xFFFF, 1) == 0xFF;
    forall k | 0 <= k < n
      ensures Image(0, n, bigEndian)[k] == 0
    {
      ByteOfZero(if bigEndian then n - 1 - k else k);
    }
  }

  /** `store(bool)` writes 1 or 0 and `get<bool>` reads it back. */
  lemma BoolRoundTrip(v: bool, bigEndian: bool, rest: seq<Byte>, size: nat)
    ensures GetBool(ConstView([if v then 1 else 0] + rest, size, bigEndian)) == v
  {
  }

  /** `get<std::string_view>` of a window of the string's length returns what the string store copied. */
  lemma StringRoundTrip(str: seq<Byte>, bigEndian: bool, rest: seq<Byte>)
    ensures GetString(ConstView(str + rest, |str|, bigEndian)) == str
  {
    assert (str + rest)[..|str|] == str;
  }
}
