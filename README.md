# cppystruct in Dafny

cppystruct is a header-only C++ library that packs values into bytes as
Python's `struct` module does, driven by a format string such as `"<3h3s2i"`.
This project models the core of that library and proves properties of the
model. The core has three parts, one module each.

- **DataView** (`data_view.dfy`, for `data_view.h`): the byte codec.
  - Each `store` overload writes one value into the first bytes of a window
    of the caller's buffer, in little- or big-endian order. These are methods
    on an `array<Byte>` that `modifies` the buffer. Each numeric store is
    specified as `Splice(old bytes, start, Image(v, n, bigEndian))`: the
    window gets the value's bytes and nothing else changes. The bool store
    splices `[1]` or `[0]`, and the string store splices the string itself,
    whatever the byte order.
  - Signed values are written as the unsigned pattern `v mod 2^N`, computed
    through the library's `0xFF…F + v + 1` wrap-around.
  - `bool` is written as one byte, 1 or 0.
  - A byte string is copied byte by byte in a loop, whatever the window's
    size.
  - Each `get` specialisation is a function over the window's bytes.
    - The unsigned gets are the library's straight-line sums, proved equal
      to `LittleValue` of the window taken in the right byte order.
    - The signed gets subtract `2^N` in 64-bit unsigned arithmetic and then
      cast to `N` bits. This is modelled with explicit wrap-around (`%
      2^64`) and a two's complement cast, and proved to read the pattern `b`
      as `b` when `b < 2^(N-1)` and as `b - 2^N` otherwise.
  - Proved: round trips for every width and byte order (unsigned, signed,
    bool, string), the exact converse (every window is the image of what
    `get` reads), byte placement, and that a big-endian image is the
    reverse of the little-endian one.
- **Format** (`format.dfy`, for `format.h`; `string_helpers.dfy` for the two
  character helpers it calls). These cover:
  - the mode and type-code recognisers, the mode table and the width table;
  - `getFormatMode`;
  - `countItems`, as a method with the source's loop;
  - `getTypeOfItem`, as the source's recursion over `(CurrentItem, CurrentI,
    Multiplier)`.

  The code is modelled with its quirks, on unbounded integers (see "Left
  out" for `size_t` wrap-around):
  - `countItems` counts `s` like any other code (`"3s"` is 3 items);
  - its repeat count is replaced by a digit while it equals 1, so `"12h"`
    counts 2 and `"10h"` counts 0;
  - a trailing digit run counts nothing;
  - `getTypeOfItem` does not skip a leading mode character, which it
    therefore reports as item 0 (`TypeOfItem`). This is recorded under
    "Findings". `Pack` uses the corrected reading, `ItemType`, which starts
    the same scan after the mode character, as `countItems` does.

  Proved against the reference `Expansion` (the format written out one
  character per item):
  - `getTypeOfItem<k>` is character `k` of it, and `ItemType(fmt, k)`
    character `k` of the part after a leading mode character;
  - with single-digit repeat counts, `countItems` is the number of items
    `ItemType` names, mode character or not, and the number `TypeOfItem`
    names when there is no mode character.
- **Pack** (`pack.dfy`, for `pack.h`).
  - `Pack` returns `ArityMismatch` when the number of values differs from
    `countItems`. This is what the source's `static_assert` rejects before any
    buffer exists.
  - Otherwise it allocates a zero-filled buffer of the layout's size. It then
    stores each value at its item's offset, with the byte order of
    `getFormatMode`, through `packElement`.
  - A value is matched to its item's code by width only (`Conforms`): a
    string for `s`, otherwise a value as wide as the code's table width.
    The C++ types (`UInt16` against `h` or `H`, `Int32` against `f`) are not
    told apart.
  - `packElement` trims a string to its item's declared size. It passes every
    other value on unchanged.
  - The buffer is specified by `Filled`, the zero buffer with the values'
    encodings spliced in, in order. Proved about it:
    - a byte no store reaches stays 0;
    - with non-overlapping fields, each field holds its value's encoding and
      reads back to the value;
    - a string field is the string cut to the field followed by zeros.

The buffer size and the per-item offsets and sizes come from calcsize.h,
which is not part of this model. They are a `Layout` parameter, constrained
by `IsLayoutOf`, and `Fits`/`Disjoint` state what pack relies on them for.
`internal::isDigit` and `internal::consumeNumber` come from
cppystruct/string.h, which is not part of this model either. They are
given here the contract their callers need (`StringHelpers`).

Two points where the model picks a reading:
- `getFormatMode` of an empty format gives the mode of `@`.
- `getTypeOfItem` for an index past the last item has no value (`None`):
  the template does not compile there.

## Model

| member | source | states |
|---|---|---|
| StringHelpers.DigitRunEnd | include/cppystruct/format.h:130-132 | the index past the run of digits at `i`: every character before it is a digit, the one at it is not |
| StringHelpers.ConsumeNumber | include/cppystruct/format.h:130-132 | `consumeNumber` returns the decimal value of the digit run at `i` and the index just past it |
| StringHelpers.ConsumeSingleDigit | include/cppystruct/format.h:130-132 | a lone digit reads as its own value and advances by one |
| Format.IsFormatMode | include/cppystruct/format.h:6-10 | the five mode characters `< > ! = @`; none of them is a digit or `s` |
| Format.IsFormatChar | include/cppystruct/format.h:12-21 | every mode character and every digit is a format character; `p` is not |
| Format.DoesFormatAlign | include/cppystruct/format.h:44-47 | a size aligns iff it is neither 0 nor 1 |
| Format.ModeOf | include/cppystruct/format.h:26-42 | `>` and `!` are exactly the big-endian modes, `@` exactly the padding one; `<` and `=` keep the default |
| Format.FormatSize | include/cppystruct/format.h:51-81 | the width of a code is 0 exactly for mode characters and digits, and is always 0, 1, 2, 4 or 8 |
| Format.AligningCodes | include/cppystruct/format.h:44-81 | `doesFormatAlign` holds exactly for the multi-byte codes `h H i I l L q Q f d` |
| Format.GetFormatMode | include/cppystruct/format.h:84-94 | big-endian iff the first character is `>` or `!`; padding iff there is no leading mode character or it is `@` |
| Format.CountItems | include/cppystruct/format.h:96-123 | the loop computes `ItemCount`: a leading mode character counts nothing, each non-digit adds the pending repeat count and resets it to 1 |
| Format.ItemCountExamples | include/cppystruct/format.h:99-122 | `"<3h3s2i"` counts 8, `"3s"` 3, `"23h"` 23, `"12h"` 2 and `"10h"` 0 |
| Format.TallyAppend | include/cppystruct/format.h:99-122 | counting `a + b` is counting `a`, then `b` from the repeat count left pending after `a` |
| Format.TrailingDigitsCountNothing | include/cppystruct/format.h:108-116 | digits at the end of a format add no items |
| Format.DigitFreeCount | include/cppystruct/format.h:102-120 | without digits, each character after an optional leading mode character is one item |
| Format.RepeatCountIsDecimal | include/cppystruct/format.h:108-113 | a run of digits whose first digit is 2 to 9 leaves its decimal value as the repeat count |
| Format.TypeOfItemFrom | include/cppystruct/format.h:125-141 | the code found for an item is never a digit: a repeat count is always read through to the code it repeats |
| Format.TypeOfItemFromIsExpansion | include/cppystruct/format.h:125-141 | the scan from index `i` with `currentItem` items before it finds position `item - currentItem` of the written-out rest of the format |
| Format.TypeOfItem | include/cppystruct/format.h:125-147 | `getTypeOfItem<k>` is character `k` of the format written out one character per item, `None` past its end |
| Format.ItemStart | include/cppystruct/format.h:104-106 | items start at index 1 exactly when the format opens with a mode character, else at 0 |
| Format.ItemType | include/cppystruct/format.h:125-147 | item `k` is character `k` of the format written out one character per item past a leading mode character, `None` past its end |
| Format.AsWrittenTypesShift | include/cppystruct/format.h:125-147 | with a leading mode character, `getTypeOfItem<0>` is that character and `getTypeOfItem<k + 1>` is `ItemType(fmt, k)` |
| Format.CountMatchesTypeOfItem | include/cppystruct/format.h:96-141 | with single-digit repeat counts and no mode character, item `k` has a type code iff `k < countItems` |
| Format.CountMatchesItemType | include/cppystruct/format.h:96-147 | with single-digit repeat counts, item `k` has a type code in `ItemType` iff `k < countItems`, mode character or not |
| Format.DigitFreeTypeOfItem | include/cppystruct/format.h:125-141 | without digits, item `k` is character `k` of the format |
| DataView.StoreU8 | include/cppystruct/data_view.h:23-25 | the window's first byte becomes `v`; every other byte of the buffer is unchanged |
| DataView.StoreBool | include/cppystruct/data_view.h:27-29 | the window's first byte becomes 1 or 0; nothing else changes |
| DataView.StoreU16 | include/cppystruct/data_view.h:31-39 | the window's 2 bytes become the image of `v` in the view's byte order; nothing else changes |
| DataView.StoreU32 | include/cppystruct/data_view.h:41-53 | the window's 4 bytes become the image of `v` in the view's byte order; nothing else changes |
| DataView.StoreU64 | include/cppystruct/data_view.h:55-75 | the window's 8 bytes become the image of `v` in the view's byte order; nothing else changes |
| DataView.StoreI8 | include/cppystruct/data_view.h:77-87 | writes the bytes of the unsigned store of `v mod 2^8` |
| DataView.StoreI16 | include/cppystruct/data_view.h:97-107 | writes the bytes of the unsigned store of `v mod 2^16` |
| DataView.StoreI32 | include/cppystruct/data_view.h:109-119 | writes the bytes of the unsigned store of `v mod 2^32` |
| DataView.StoreI64 | include/cppystruct/data_view.h:125-135 | writes the bytes of the unsigned store of `v mod 2^64` |
| DataView.StoreString | include/cppystruct/data_view.h:151-155 | the first `|str|` bytes of the window become `str`, without clamping; every later byte is unchanged |
| DataView.Int8Bits | include/cppystruct/data_view.h:77-87 | the `0xFF + v + 1` branch and the positive branch together give `v mod 2^8` |
| DataView.Int16Bits | include/cppystruct/data_view.h:97-107 | the `0xFFFF + v + 1` branch and the positive branch together give `v mod 2^16` |
| DataView.Int32Bits | include/cppystruct/data_view.h:109-119 | the 64-bit sum cut to 32 bits gives `v mod 2^32` |
| DataView.Int64Bits | include/cppystruct/data_view.h:125-135 | the wrapping 64-bit sum gives `v mod 2^64` |
| DataView.GetU8 | include/cppystruct/data_view.h:162-165 | reads the window's first byte as its value |
| DataView.GetBool | include/cppystruct/data_view.h:167-170 | true iff the window's first byte is nonzero |
| DataView.GetU16 | include/cppystruct/data_view.h:172-184 | the sum of shifted bytes is the little-endian value of the window in the view's byte order |
| DataView.GetU32 | include/cppystruct/data_view.h:186-202 | the sum of shifted bytes is the little-endian value of the window in the view's byte order |
| DataView.GetU64 | include/cppystruct/data_view.h:204-228 | the sum of shifted bytes is the little-endian value of the window in the view's byte order |
| DataView.ToI8 | include/cppystruct/data_view.h:253 | the cast to 8 bits keeps the low 8 bits |
| DataView.ToI16 | include/cppystruct/data_view.h:268 | the cast to 16 bits keeps the low 16 bits |
| DataView.ToI32 | include/cppystruct/data_view.h:274 | the cast to 32 bits keeps the low 32 bits |
| DataView.ToI64 | include/cppystruct/data_view.h:280 | the cast to 64 bits keeps the low 64 bits |
| DataView.WrappedLowBits | include/cppystruct/data_view.h:250-281 | subtracting `2^N` from an `N`-bit pattern in 64-bit unsigned arithmetic keeps the pattern in the low `N` bits |
| DataView.GetI8 | include/cppystruct/data_view.h:250-254 | pattern `b` reads as `b` below `0x80` and as `b - 0x100` from there |
| DataView.GetI16 | include/cppystruct/data_view.h:265-269 | pattern `b` reads as `b` below `0x8000` and as `b - 0x10000` from there |
| DataView.GetI32 | include/cppystruct/data_view.h:271-275 | pattern `b` reads as `b` below `2^31` and as `b - 2^32` from there |
| DataView.GetI64 | include/cppystruct/data_view.h:277-281 | pattern `b` reads as `b` below `2^63` and as `b - 2^64` from there |
| DataView.GetString | include/cppystruct/data_view.h:323-326 | exactly `size` bytes, the start of the window |
| DataView.GetUnsigned | include/cppystruct/data_view.h:162-228 | the unsigned get of each width is the window's value in the view's byte order |
| DataView.GetSigned | include/cppystruct/data_view.h:250-281 | the signed get of each width reads the unsigned pattern `b` as `b` or `b - 2^N` |
| DataView.SignedBits | include/cppystruct/data_view.h:77-135 | the signed store of each width writes the pattern `v mod 2^N` |
| DataView.UnsignedRoundTrip | include/cppystruct/data_view.h:23-228 | `get<uintN>` after `store(uintN v)` returns `v`, for N = 1, 2, 4, 8 and both byte orders |
| DataView.ImageOfLittleOrder | include/cppystruct/data_view.h:162-228 | the value read from any window is below `2^(8N)`, and its image is the window |
| DataView.UnsignedGetIsExact | include/cppystruct/data_view.h:162-228 | storing what `get<uintN>` read rewrites the same `N` bytes |
| DataView.ByteOfIsShift | include/cppystruct/data_view.h:31-75 | byte `i` of `v` is `(v >> 8i) & 0xFF` |
| DataView.BytePlacement | include/cppystruct/data_view.h:31-75 | little-endian puts byte `i` of `v` at position `i`, big-endian at `N - 1 - i` |
| DataView.BigEndianIsReversed | include/cppystruct/data_view.h:31-75 | the big-endian image is the reverse of the little-endian one |
| DataView.SignedRoundTrip | include/cppystruct/data_view.h:77-281 | `get<intN>` after `store(intN v)` returns `v` for every `v` in `[-2^(8N-1), 2^(8N-1))` and both byte orders |
| DataView.SignedGetIsExact | include/cppystruct/data_view.h:250-281 | what `get<intN>` reads is in range, and storing it rewrites the same bytes |
| DataView.SignedStoreExamples | include/cppystruct/data_view.h:97-107 | int16 -1 writes the bytes of uint16 65535 (`FF FF`); 0 writes all zeros through the wrap-around branch |
| DataView.BoolRoundTrip | include/cppystruct/data_view.h:27-170 | `get<bool>` after `store(bool v)` returns `v` |
| DataView.StringRoundTrip | include/cppystruct/data_view.h:151-326 | the string get of a window of the string's length returns what the string store copied |
| Pack.Encode | include/cppystruct/pack.h:36-37 | the bytes `view.store(elem)` writes have the width of the element's C++ type |
| Pack.ElementRoundTrip | include/cppystruct/pack.h:36-37 | the codec's `get` for an element's type reads back what its `store` wrote, for every type and byte order |
| Pack.BigEndianEncodingIsReversed | include/cppystruct/pack.h:36-37 | a number stored big-endian is the reverse of its little-endian bytes; a string is the same in both orders |
| Pack.Clamp | include/cppystruct/pack.h:31-34 | a string keeps a prefix of length `min(size, declared size)`; every other value is unchanged |
| Pack.Store | include/cppystruct/pack.h:36-37 | the window gets the element's encoding in the view's byte order; nothing else changes |
| Pack.PackElement | include/cppystruct/pack.h:28-39 | the bytes at `offset` become the encoding of the trimmed value; nothing else changes |
| Pack.AsWrittenModeItemTakesNoValue | include/cppystruct/pack.h:50-53 | as written, item 0 of a format opening with a mode character has that character's size 0, so no value conforms to it |
| Pack.ConformingElementsFit | include/cppystruct/pack.h:50-57 | values whose widths match the item codes fit the fields of the layout |
| Pack.Pack | include/cppystruct/pack.h:22-61 | an arity mismatch iff the number of values is not `countItems`, with no buffer; otherwise a fresh buffer of the layout's size holding every value stored in order at its offset, with the format's byte order, big-endian exactly for `>` and `!` |
| Pack.BigEndianHalfwordConforms | include/cppystruct/pack.h:41-57 | `pack(">h", v)` meets the precondition of `Pack`: one item, of code `h`, which a `UInt16` fits |
| Pack.BigEndianPackExample | include/cppystruct/pack.h:41-57 | `pack(">h", 0x1234)` is big-endian and its buffer is `12 34` |
| Pack.PackItems | include/cppystruct/pack.h:41-61 | a fresh zero-filled buffer of the layout's size, then each value stored in turn at its offset with `getFormatMode`'s byte order |
| Pack.ZeroBuffer | include/cppystruct/pack.h:47-48 | `ArrayType output{}` is a fresh buffer of zeros |
| Pack.PackItem | include/cppystruct/pack.h:57 | the `k`-th `packElement` call takes the buffer from `Filled(k)` to `Filled(k + 1)` |
| Pack.FilledStart | include/cppystruct/pack.h:48 | before any store the buffer is all zeros |
| Pack.FilledStep | include/cppystruct/pack.h:57 | storing value `k` splices its trimmed encoding in at its offset |
| Pack.UnwrittenBytesAreZero | include/cppystruct/pack.h:48-57 | a byte that no value's store reaches (padding) is 0 in the packed buffer |
| Pack.FieldHoldsElement | include/cppystruct/pack.h:56-57 | with non-overlapping fields, field `k` starts with the encoding of value `k` |
| Pack.PackedElementReadsBack | include/cppystruct/pack.h:28-57 | reading field `k` back with the codec's `get` gives value `k`, a string trimmed to its declared size |
| Pack.FieldTailIsZero | include/cppystruct/pack.h:31-48 | the bytes of a field past what its value's store wrote stay 0 |
| Pack.StringField | include/cppystruct/pack.h:31-57 | a string field holds the string cut to the field, followed by zeros when the string is shorter |

## Left out

- float and double `store`/`get` (data_view.h:137-149, 303-321): these reinterpret host memory as floating point.
- Plain `char` `store`/`get` and the `_MSC_VER` `long`/`long long` aliases: they dispatch on the host's `char` signedness and type sizes. Only the fixed-width integers are modelled.
- Templates, `index_sequence`, `if constexpr` and `static_assert` run at compile time. Here they are runtime functions, preconditions and, for the arity check, the `ArityMismatch` result.
- calcsize.h (`calcsize`, `getBinaryOffset`) is not part of this model. The buffer size, offsets and declared sizes are the `Layout` parameter.
- Pack.Pack: the model does not compute the layout. It assumes, through `Fits`, that every field lies inside the buffer and every non-string value fits its field. The values conforming to the item codes is a precondition, as the C++ type system makes it one, and it is checked by width only: a value of another C++ type of the same width passes.
- Pack.ConformingElementsFit: conformance is by width only, not by C++ type (`Conforms`).
- Pack.FieldHoldsElement: takes non-overlapping fields (`Disjoint`) as an assumption about calcsize.h's offsets, not a proved fact.
- cppystruct/string.h is not part of this model. `IsDigit` and `ConsumeNumber` are stand-ins with the contract format.h needs.
- `FormatType`, `RepresentedType` and `SizedString` in pack.h are not in the modelled headers. An element is its value and its C++ type (`Element`), a string its bytes.
- Unpacking is not part of the modelled headers.
- The store methods (DataView.StoreU8 to DataView.StoreU64, DataView.StoreI8 to DataView.StoreI64, DataView.StoreBool, DataView.StoreString) and the gets (DataView.GetU8, DataView.GetBool, DataView.GetU16, DataView.GetU32, DataView.GetU64, DataView.GetI8, DataView.GetI16, DataView.GetI32, DataView.GetI64, DataView.GetUnsigned, DataView.GetSigned, DataView.GetString) require the window to lie inside the buffer. The source gives no guarantee there: it writes or reads past the buffer.
- Format.CountItems: `multiplier * 10 + digit` and `itemCount += multiplier` are `size_t` arithmetic (format.h:99-119) and wrap modulo 2^64; the model counts on unbounded integers, so a repeat count or running total of 2^64 or more wraps in the source and not in the model.
- Format.TypeOfItemFrom: `CurrentItem + Multiplier` (format.h:135-139) is `size_t` arithmetic too and is modelled without wrap-around.
- The `<iostream>` include of format.h is unused.

## Findings

| source | as written | input that shows it | evidently intended | confidence | as-written member | corrected member |
|---|---|---|---|---|---|---|
| include/cppystruct/format.h:125-147 | `getTypeOfItem` starts its scan at index 0, so a leading mode character is item 0 and item `k + 1` gets the code of item `k`, while `countItems` (format.h:104-106) skips the mode character; pack.h:50-53 takes the value types from it | `pack(">h", v)`: one item by `countItems`, but `getTypeOfItem<0>` is `>`, of size 0, so no value has item 0's type and `h` is never reached | item `k` is the `k`-th code after the mode character, so `pack(">h", 0x1234)` stores `12 34` (`Pack.BigEndianPackExample`) | medium, not executed; pack.h calls a `getTypeOfItem` that returns `FormatType`, which format.h does not define | Pack.AsWrittenModeItemTakesNoValue | Format.ItemType |
