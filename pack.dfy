/**
  `pack` of pack.h: check that the values match the number of items of the
  format, allocate a zero-filled buffer of the format's size, and store each
  value at its item's offset with the format's byte order, a string first
  trimmed to the size its item declares.

  The layout (the buffer size and, per item, its offset and declared size)
  comes from calcsize.h, which is not part of this model: it is a parameter,
  and what pack relies on it for is a precondition.
*/
module Pack {
  import opened DataView
  import opened Format

  /** A value handed to `pack`, by its C++ type. */
  datatype Element =
    | UInt8(u8: U8)
    | Boolean(flag: bool)
    | UInt16(u16: U16)
    | UInt32(u32: U32)
    | UInt64(u64: U64)
    | Int8(i8: I8)
    | Int16(i16: I16)
    | Int32(i32: I32)
    | Int64(i64: I64)
    | Str(chars: seq<Byte>)

  /** Number of bytes the store of `e` writes. */
  function Width(e: Element): nat {
    match e
    case UInt8(_) => 1
    case Boolean(_) => 1
    case Int8(_) => 1
    case UInt16(_) => 2
    case Int16(_) => 2
    case UInt32(_) => 4
    case Int32(_) => 4
    case UInt64(_) => 8
    case Int64(_) => 8
    case Str(chars) => |chars|
  }

  /**
    The unsigned bit pattern a non-string value is stored as: the value
    itself, 1 or 0 for a bool, the two's complement pattern of a signed value.
  */
  function Pattern(e: Element): (b: nat)
    requires !e.Str?
    ensures b < Pow256(Width(e))
  {
    Pow256Widths();
    match e
    case UInt8(v) => v
    case Boolean(f) => if f then 1 else 0
    case UInt16(v) => v
    case UInt32(v) => v
    case UInt64(v) => v
    case Int8(v) => Int8Bits(v)
    case Int16(v) => Int16Bits(v)
    case Int32(v) => Int32Bits(v)
    case Int64(v) => Int64Bits(v)
  }

  /** The bytes the codec's `store` overload for `e` writes, in window order. */
  function Encode(e: Element, bigEndian: bool): (w: seq<Byte>)
    ensures |w| == Width(e)
  {
    if e.Str? then e.chars else Image(Pattern(e), Width(e), bigEndian)
  }

  /** The codec's `get` for the C++ type of `like`. */
  function Decode(like: Element, d: ConstView): Element
    requires Width(like) <= |d.bytes| && (like.Str? ==> d.size <= |d.bytes|)
  {
    match like
    case UInt8(_) => UInt8(GetU8(d))
    case Boolean(_) => Boolean(GetBool(d))
    case UInt16(_) => UInt16(GetU16(d))
    case UInt32(_) => UInt32(GetU32(d))
    case UInt64(_) => UInt64(GetU64(d))
    case Int8(_) => Int8(GetI8(d))
    case Int16(_) => Int16(GetI16(d))
    case Int32(_) => Int32(GetI32(d))
    case Int64(_) => Int64(GetI64(d))
    case Str(_) => Str(GetString(d))
  }

  /** Reading back what a store wrote gives the value, for every type and byte order. */
  lemma ElementRoundTrip(e: Element, bigEndian: bool, rest: seq<Byte>)
    ensures Decode(e, ConstView(Encode(e, bigEndian) + rest, Width(e), bigEndian)) == e
  {
    if e.Str? {
      StringRoundTrip(e.chars, bigEndian, rest);
    } else if e.Boolean? {
      ImageOfByte(if e.flag then 1 else 0, bigEndian);
      BoolRoundTrip(e.flag, bigEndian, rest, 1);
    } else if e.Int8? || e.Int16? || e.Int32? || e.Int64? {
      SignedElementRoundTrip(e, bigEndian, rest);
    } else {
      UnsignedElementRoundTrip(e, bigEndian, rest);
    }
  }

  lemma UnsignedElementRoundTrip(e: Element, bigEndian: bool, rest: seq<Byte>)
    requires e.UInt8? || e.UInt16? || e.UInt32? || e.UInt64?
    ensures Decode(e, ConstView(Encode(e, bigEndian) + rest, Width(e), bigEndian)) == e
  {
    var n := Width(e);
    var d := ConstView(Encode(e, bigEndian) + rest, n, bigEndian);
    Pow256Widths();
    UnsignedRoundTrip(Pattern(e), n, bigEndian, rest, n);
    if e.UInt8? {
      assert Decode(e, d) == UInt8(GetUnsigned(d, 1));
    } else if e.UInt16? {
      assert Decode(e, d) == UInt16(GetUnsigned(d, 2));
    } else if e.UInt32? {
      assert Decode(e, d) == UInt32(GetUnsigned(d, 4));
    } else {
      assert Decode(e, d) == UInt64(GetUnsigned(d, 8));
    }
  }

  lemma SignedElementRoundTrip(e: Element, bigEndian: bool, rest: seq<Byte>)
    requires e.Int8? || e.Int16? || e.Int32? || e.Int64?
    ensures Decode(e, ConstView(Encode(e, bigEndian) + rest, Width(e), bigEndian)) == e
  {
    var n := Width(e);
    var d := ConstView(Encode(e, bigEndian) + rest, n, bigEndian);
    var v: int :=
      if e.Int8? then e.i8 else if e.Int16? then e.i16 else if e.Int32? then e.i32 else e.i64;
    Pow256Widths();
    assert Pattern(e) == SignedBits(v, n);
    SignedRoundTrip(v, n, bigEndian, rest, n);
    if e.Int8? {
      assert Decode(e, d) == Int8(GetSigned(d, 1));
    } else if e.Int16? {
      assert Decode(e, d) == Int16(GetSigned(d, 2));
    } else if e.Int32? {
      assert Decode(e, d) == Int32(GetSigned(d, 4));
    } else {
      assert Decode(e, d) == Int64(GetSigned(d, 8));
    }
  }

  /**
    Endianness symmetry: a big-endian store writes the little-endian bytes
    reversed; a string is the same either way.
  */
  lemma BigEndianEncodingIsReversed(e: Element)
    ensures e.Str? ==> Encode(e, true) == Encode(e, false)
    ensures !e.Str? ==> Encode(e, true) == Reversed(Encode(e, false))
  {
    if !e.Str? {
      BigEndianIsReversed(Pattern(e), Width(e));
    }
  }

  function Min(a: nat, b: nat): nat {
    if a < b then a else b
  }

  /**
    The trim of `packElement`: a string keeps the longest prefix that fits
    the `width` its item declares; every other value is passed on as it is.
  */
  function Clamp(e: Element, width: nat): (r: Element)
    ensures r.Str? <==> e.Str?
    ensures !e.Str? ==> r == e
    ensures e.Str? ==> r.chars <= e.chars && |r.chars| == Min(|e.chars|, width)
  {
    if e.Str? then Str(e.chars[..Min(|e.chars|, width)]) else e
  }

  /** `view.store(elem)`: the `store` overload for the C++ type of `e`. */
  method Store(view: DataView, e: Element)
    requires view.start + Width(e) <= view.bytes.Length
    modifies view.bytes
    ensures view.bytes[..] == Splice(old(view.bytes[..]), view.start, Encode(e, view.isBigEndian))
  {
    match e
    case UInt8(v) => StoreU8(view, v);
    case Boolean(b) =>
      ImageOfByte(if b then 1 else 0, view.isBigEndian);
      StoreBool(view, b);
    case UInt16(v) => StoreU16(view, v);
    case UInt32(v) => StoreU32(view, v);
    case UInt64(v) => StoreU64(view, v);
    case Int8(v) => StoreI8(view, v);
    case Int16(v) => StoreI16(view, v);
    case Int32(v) => StoreI32(view, v);
    case Int64(v) => StoreI64(view, v);
    case Str(chars) => StoreString(view, chars);
  }

  /** `packElement`: trim a string, then store the value at `offset` in the given byte order. */
  method PackElement(data: array<Byte>, offset: nat, bigEndian: bool, width: nat, elem: Element)
    requires offset + width <= data.Length && (!elem.Str? ==> Width(elem) <= width)
    modifies data
    ensures data[..] == Splice(old(data[..]), offset, Encode(Clamp(elem, width), bigEndian))
  {
    var e := elem;
    if e.Str? {
      e := Str(e.chars[..Min(|e.chars|, width)]);
    }
    Store(DataView(data, offset, bigEndian), e);
  }

  // ---------------------------------------------------------------------
  // Layout and conformance

  /**
    What calcsize.h computes for a format: the buffer size and, per item,
    its offset (`getBinaryOffset`) and declared size (a string item's length).
  */
  datatype Layout = Layout(size: nat, offsets: seq<nat>, widths: seq<nat>)

  /** One field per item `countItems` counts, each inside the buffer. */
  predicate IsLayoutOf(fmt: string, layout: Layout) {
    && |layout.offsets| == ItemCount(fmt)
    && |layout.widths| == ItemCount(fmt)
    && forall k :: 0 <= k < |layout.offsets| ==> layout.offsets[k] + layout.widths[k] <= layout.size
  }

  /**
    A value for an item's code: a string for `s`, otherwise a value as wide
    as the code's table width, which is then also the field's declared size.
    Only the width is matched, not the C++ type: `UInt16` passes for `h`,
    `Int32` for `f`, a bool for `x`.
  */
  predicate Conforms(code: Option<char>, width: nat, e: Element) {
    && code.Some?
    && IsFormatChar(code.value)
    && if code.value == 's' then e.Str?
       else !e.Str? && FormatSize(code.value) == Width(e) == width
  }

  /**
    Value `k` has the width of item `k`'s code, item `k` read as the grammar
    and `countItems` read it: past a leading mode character.
  */
  predicate ConformsTo(fmt: string, layout: Layout, elems: seq<Element>)
    requires |layout.widths| == |elems|
  {
    forall k :: 0 <= k < |elems| ==> Conforms(ItemType(fmt, k), layout.widths[k], elems[k])
  }

  /**
    As written, `getTypeOfItem<0>` of a format opening with a mode character
    is that character, whose size is 0: no value is fit for item 0.
  */
  lemma AsWrittenModeItemTakesNoValue(fmt: string, width: nat, e: Element)
    requires |fmt| > 0 && IsFormatMode(fmt[0])
    ensures !Conforms(TypeOfItem(fmt, 0), width, e)
  {
    AsWrittenTypesShift(fmt, 0);
  }

  /**
    Every field lies inside the buffer and every value other than a string
    (which is trimmed to it) inside its field.
  */
  predicate Fits(layout: Layout, elems: seq<Element>) {
    && |layout.offsets| == |elems|
    && |layout.widths| == |elems|
    && forall k :: 0 <= k < |elems| ==>
         && layout.offsets[k] + layout.widths[k] <= layout.size
         && (!elems[k].Str? ==> Width(elems[k]) <= layout.widths[k])
  }

  lemma ConformingElementsFit(fmt: string, layout: Layout, elems: seq<Element>)
    requires IsLayoutOf(fmt, layout) && |elems| == ItemCount(fmt)
    requires ConformsTo(fmt, layout, elems)
    ensures Fits(layout, elems)
  {
  }

  // ---------------------------------------------------------------------
  // Stores in sequence

  /** The declared fields do not overlap, as the offsets of a packed layout never do. */
  predicate Disjoint(layout: Layout) {
    forall j, k :: 0 <= j < k < |layout.offsets| && k < |layout.widths| ==>
      || layout.offsets[j] + layout.widths[j] <= layout.offsets[k]
      || layout.offsets[k] + layout.widths[k] <= layout.offsets[j]
  }

  /** One word per field, each no longer than its field, each field inside the buffer. */
  predicate InFields(layout: Layout, words: seq<seq<Byte>>) {
    && |layout.offsets| == |words|
    && |layout.widths| == |words|
    && forall k :: 0 <= k < |words| ==>
         layout.offsets[k] + layout.widths[k] <= layout.size && |words[k]| <= layout.widths[k]
  }

  function Zeros(n: nat): (z: seq<Byte>)
    ensures |z| == n && forall i :: 0 <= i < n ==> z[i] == 0
  {
    seq(n, _ => 0)
  }

  /** A zero-filled buffer after writing the first `n` words, in order, each at its field's offset. */
  function SpliceAll(layout: Layout, words: seq<seq<Byte>>, n: nat): (out: seq<Byte>)
    requires InFields(layout, words) && n <= |words|
    ensures |out| == layout.size
  {
    if n == 0 then Zeros(layout.size)
    else Splice(SpliceAll(layout, words, n - 1), layout.offsets[n - 1], words[n - 1])
  }

  /** A byte no write reaches keeps its 0. */
  lemma {:induction false} SpliceAllOutside(layout: Layout, words: seq<seq<Byte>>, n: nat, p: nat)
    requires InFields(layout, words) && n <= |words| && p < layout.size
    requires forall k :: 0 <= k < n ==> !(layout.offsets[k] <= p < layout.offsets[k] + |words[k]|)
    ensures SpliceAll(layout, words, n)[p] == 0
  {
    if n > 0 {
      SpliceAllOutside(layout, words, n - 1, p);
    }
  }

  /** With disjoint fields, later writes leave the bytes of word `k` in place. */
  lemma {:induction false} SpliceAllKeeps(layout: Layout, words: seq<seq<Byte>>, n: nat, k: nat, i: nat)
    requires InFields(layout, words) && Disjoint(layout) && k < n <= |words| && i < |words[k]|
    ensures SpliceAll(layout, words, n)[layout.offsets[k] + i] == words[k][i]
  {
    if n - 1 > k {
      SpliceAllKeeps(layout, words, n - 1, k, i);
    }
  }

  /** With disjoint fields, the field of word `k` begins with that word once all are written. */
  lemma SpliceAllField(layout: Layout, words: seq<seq<Byte>>, k: nat)
    requires InFields(layout, words) && Disjoint(layout) && k < |words|
    ensures var off := layout.offsets[k];
            SpliceAll(layout, words, |words|)[off..off + |words[k]|] == words[k]
  {
    var off := layout.offsets[k];
    var out := SpliceAll(layout, words, |words|);
    forall i | 0 <= i < |words[k]|
      ensures out[off..off + |words[k]|][i] == words[k][i]
    {
      SpliceAllKeeps(layout, words, |words|, k, i);
    }
  }

  /** With disjoint fields, the rest of a field after its word stays 0. */
  lemma SpliceAllGap(layout: Layout, words: seq<seq<Byte>>, k: nat, p: nat)
    requires InFields(layout, words) && Disjoint(layout) && k < |words|
    requires layout.offsets[k] + |words[k]| <= p < layout.offsets[k] + layout.widths[k]
    ensures SpliceAll(layout, words, |words|)[p] == 0
  {
    SpliceAllOutside(layout, words, |words|, p);
  }

  // ---------------------------------------------------------------------
  // The packed buffer

  /** The bytes each value's store writes, in order. */
  function Words(layout: Layout, elems: seq<Element>, bigEndian: bool): (ws: seq<seq<Byte>>)
    requires |layout.widths| == |elems|
    ensures |ws| == |elems|
    ensures forall k :: 0 <= k < |elems| ==> ws[k] == Encode(Clamp(elems[k], layout.widths[k]), bigEndian)
  {
    seq(|elems|, k requires 0 <= k < |elems| => Encode(Clamp(elems[k], layout.widths[k]), bigEndian))
  }

  lemma FitsInFields(layout: Layout, elems: seq<Element>, bigEndian: bool)
    requires Fits(layout, elems)
    ensures InFields(layout, Words(layout, elems, bigEndian))
  {
  }

  /** The buffer once the first `n` values are stored into a zero-filled one. */
  function Filled(layout: Layout, elems: seq<Element>, bigEndian: bool, n: nat): (out: seq<Byte>)
    requires Fits(layout, elems) && n <= |elems|
    ensures |out| == layout.size
  {
    FitsInFields(layout, elems, bigEndian);
    SpliceAll(layout, Words(layout, elems, bigEndian), n)
  }

  lemma FilledStart(layout: Layout, elems: seq<Element>, bigEndian: bool)
    requires Fits(layout, elems)
    ensures Filled(layout, elems, bigEndian, 0) == Zeros(layout.size)
  {
  }

  /** Storing value `k` takes the buffer from `Filled(.., k)` to `Filled(.., k + 1)`. */
  lemma FilledStep(layout: Layout, elems: seq<Element>, bigEndian: bool, k: nat)
    requires Fits(layout, elems) && k < |elems|
    ensures Filled(layout, elems, bigEndian, k + 1)
         == Splice(Filled(layout, elems, bigEndian, k), layout.offsets[k],
                   Encode(Clamp(elems[k], layout.widths[k]), bigEndian))
  {
  }

  datatype PackResult = Packed(output: array<Byte>) | ArityMismatch(expected: nat, supplied: nat)

  /**
    `pack(fmt, elems...)`: `countItems(fmt)` item indices for the values,
    and the `static_assert` of `internal::pack` that rejects any other number
    of values before a buffer exists; then `internal::pack`.
  */
  method Pack(fmt: string, layout: Layout, elems: seq<Element>) returns (r: PackResult)
    requires IsLayoutOf(fmt, layout)
    requires |elems| == ItemCount(fmt) ==> ConformsTo(fmt, layout, elems)
    ensures r.ArityMismatch? <==> |elems| != ItemCount(fmt)
    ensures r.ArityMismatch? ==> r.expected == ItemCount(fmt) && r.supplied == |elems|
    ensures r.Packed? ==> Fits(layout, elems)
    ensures r.Packed? ==> fresh(r.output) && r.output.Length == layout.size
    ensures r.Packed? ==> r.output[..] == Filled(layout, elems, GetFormatMode(fmt).isBigEndian, |elems|)
  {
    var count := CountItems(fmt);
    if |elems| != count {
      return ArityMismatch(count, |elems|);
    }
    ConformingElementsFit(fmt, layout, elems);
    var output := PackItems(fmt, layout, elems);
    return Packed(output);
  }

  /**
    `internal::pack` once the item count matches: a fresh buffer of the
    layout's size, zero-filled, then each value stored in turn at its offset
    with the byte order of `getFormatMode(fmt)`.
  */
  method PackItems(fmt: string, layout: Layout, elems: seq<Element>) returns (output: array<Byte>)
    requires Fits(layout, elems)
    ensures fresh(output) && output.Length == layout.size
    ensures output[..] == Filled(layout, elems, GetFormatMode(fmt).isBigEndian, |elems|)
  {
    var formatMode := GetFormatMode(fmt);
    output := ZeroBuffer(layout.size);
    FilledStart(layout, elems, formatMode.isBigEndian);
    for k := 0 to |elems|
      invariant output[..] == Filled(layout, elems, formatMode.isBigEndian, k)
    {
      PackItem(output, layout, elems, formatMode.isBigEndian, k);
    }
  }

  /** `ArrayType output{}`: a fresh buffer of `size` zero bytes. */
  method ZeroBuffer(size: nat) returns (buffer: array<Byte>)
    ensures fresh(buffer) && buffer[..] == Zeros(size)
  {
    buffer := new Byte[size](_ => 0);
  }

  /**
    The `k`-th `packElement` call of the expansion: value `k` stored at its
    offset, taking the buffer from `Filled(.., k)` to `Filled(.., k + 1)`.
  */
  method PackItem(output: array<Byte>, layout: Layout, elems: seq<Element>, bigEndian: bool, k: nat)
    requires Fits(layout, elems) && k < |elems| && output.Length == layout.size
    requires output[..] == Filled(layout, elems, bigEndian, k)
    modifies output
    ensures output[..] == Filled(layout, elems, bigEndian, k + 1)
  {
    PackElement(output, layout.offsets[k], bigEndian, layout.widths[k], elems[k]);
    FilledStep(layout, elems, bigEndian, k);
  }

  /** `pack(">h", v)`: one item, read past the mode character as `h`, which a `UInt16` fits. */
  lemma BigEndianHalfwordConforms(v: U16)
    ensures IsLayoutOf(">h", Layout(2, [0], [2]))
    ensures ConformsTo(">h", Layout(2, [0], [2]), [UInt16(v)])
  {
    assert ">h"[1..] == "h";
    assert Expansion(">h", 1) == "h";
  }

  /** ... and the buffer `pack(">h", 0x1234)` returns holds `12 34`, big-endian. */
  lemma BigEndianPackExample()
    ensures GetFormatMode(">h").isBigEndian
    ensures Fits(Layout(2, [0], [2]), [UInt16(0x1234)])
    ensures Filled(Layout(2, [0], [2]), [UInt16(0x1234)], true, 1) == [0x12, 0x34]
  {
    assert ByteOf(0x1234, 1) == ByteOf(0x12, 0) == 0x12;
    assert Image(0x1234, 2, true) == [0x12, 0x34];
    assert Filled(Layout(2, [0], [2]), [UInt16(0x1234)], true, 1) == Splice(Zeros(2), 0, [0x12, 0x34]);
  }

  // ---------------------------------------------------------------------
  // Properties of the packed buffer

  /** Position `p` is among the bytes the store of value `k` writes. */
  predicate WrittenBy(layout: Layout, elems: seq<Element>, k: nat, p: nat)
    requires Fits(layout, elems) && k < |elems|
  {
    layout.offsets[k] <= p < layout.offsets[k] + Width(Clamp(elems[k], layout.widths[k]))
  }

  /** A byte that no store reaches keeps the 0 of the fresh buffer: the padding. */
  lemma UnwrittenBytesAreZero(layout: Layout, elems: seq<Element>, bigEndian: bool, p: nat)
    requires Fits(layout, elems) && p < layout.size
    requires forall k :: 0 <= k < |elems| ==> !WrittenBy(layout, elems, k, p)
    ensures Filled(layout, elems, bigEndian, |elems|)[p] == 0
  {
    var words := Words(layout, elems, bigEndian);
    FitsInFields(layout, elems, bigEndian);
    forall k | 0 <= k < |elems|
      ensures !(layout.offsets[k] <= p < layout.offsets[k] + |words[k]|)
    {
      assert !WrittenBy(layout, elems, k, p);
    }
    SpliceAllOutside(layout, words, |elems|, p);
  }

  /** In the packed buffer, the field of value `k` holds the bytes its store wrote. */
  lemma FieldHoldsElement(layout: Layout, elems: seq<Element>, bigEndian: bool, k: nat)
    requires Fits(layout, elems) && Disjoint(layout) && k < |elems|
    ensures var off := layout.offsets[k];
            var w := Encode(Clamp(elems[k], layout.widths[k]), bigEndian);
            Filled(layout, elems, bigEndian, |elems|)[off..off + |w|] == w
  {
    FitsInFields(layout, elems, bigEndian);
    SpliceAllField(layout, Words(layout, elems, bigEndian), k);
  }

  /**
    Reading value `k` back from the packed buffer with the codec's `get`
    gives the value, a string trimmed to its declared size.
  */
  lemma PackedElementReadsBack(layout: Layout, elems: seq<Element>, bigEndian: bool, k: nat)
    requires Fits(layout, elems) && Disjoint(layout) && k < |elems|
    ensures var e := Clamp(elems[k], layout.widths[k]);
            var out := Filled(layout, elems, bigEndian, |elems|);
            Decode(e, ConstView(out[layout.offsets[k]..], Width(e), bigEndian)) == e
  {
    var e := Clamp(elems[k], layout.widths[k]);
    var out := Filled(layout, elems, bigEndian, |elems|);
    var w := Encode(e, bigEndian);
    var tail := out[layout.offsets[k]..];
    FieldHoldsElement(layout, elems, bigEndian, k);
    assert tail == w + tail[|w|..];
    ElementRoundTrip(e, bigEndian, tail[|w|..]);
  }

  /** The bytes of a field past what its value's store wrote stay 0. */
  lemma FieldTailIsZero(layout: Layout, elems: seq<Element>, bigEndian: bool, k: nat, p: nat)
    requires Fits(layout, elems) && Disjoint(layout) && k < |elems|
    requires layout.offsets[k] + Width(Clamp(elems[k], layout.widths[k])) <= p < layout.offsets[k] + layout.widths[k]
    ensures Filled(layout, elems, bigEndian, |elems|)[p] == 0
  {
    FitsInFields(layout, elems, bigEndian);
    SpliceAllGap(layout, Words(layout, elems, bigEndian), k, p);
  }

  lemma FieldContents(out: seq<Byte>, off: nat, width: nat, chars: seq<Byte>, kept: nat)
    requires off + width <= |out| && kept <= |chars| && kept <= width
    requires out[off..off + kept] == chars[..kept]
    requires forall p :: off + kept <= p < off + width ==> out[p] == 0
    ensures out[off..off + width] == chars[..kept] + Zeros(width - kept)
  {
    var expected := chars[..kept] + Zeros(width - kept);
    forall i | 0 <= i < width
      ensures out[off..off + width][i] == expected[i]
    {
      assert out[off..off + width][i] == out[off + i];
      if i < kept {
        assert out[off..off + kept][i] == out[off + i];
      }
    }
  }

  /**
    A string field holds the string cut to the field's size and, when the
    string is shorter, zeros after it.
  */
  lemma StringField(layout: Layout, elems: seq<Element>, bigEndian: bool, k: nat)
    requires Fits(layout, elems) && Disjoint(layout) && k < |elems| && elems[k].Str?
    ensures var off := layout.offsets[k];
            var width := layout.widths[k];
            var chars := elems[k].chars;
            var kept := Min(|chars|, width);
            Filled(layout, elems, bigEndian, |elems|)[off..off + width] == chars[..kept] + Zeros(width - kept)
  {
    var off := layout.offsets[k];
    var width := layout.widths[k];
    var chars := elems[k].chars;
    var kept := Min(|chars|, width);
    var out := Filled(layout, elems, bigEndian, |elems|);
    FieldHoldsElement(layout, elems, bigEndian, k);
    forall p | off + kept <= p < off + width
      ensures out[p] == 0
    {
      FieldTailIsZero(layout, elems, bigEndian, k, p);
    }
    FieldContents(out, off, width, chars, kept);
  }
}
