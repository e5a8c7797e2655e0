/**
  Interpretation of a format string, as format.h does it: recognising mode
  characters and type codes, the mode and width tables, the endianness mode
  of a format, the number of items, and the type code of each item.

  The templates of the library run at compile time over the format's
  characters; here they are functions of the format as a string, and each
  `static_assert` is a precondition. The code is modelled with its quirks:
  `countItems` counts `s` like any other code, its repeat count restarts
  while it equals 1, and `getTypeOfItem` does not skip a leading mode
  character (`TypeOfItem`). `ItemType` is the same scan started after the
  mode character, the reading `countItems` and pack rely on. Integers are
  unbounded: `size_t` wrap-around is not modelled.
*/
module Format {
  import opened StringHelpers

  datatype Option<T> = None | Some(value: T)

  /** The five mode characters; none is a digit, so a leading mode is never read as a count. */
  predicate IsFormatMode(c: char): (b: bool)
    ensures b ==> !IsDigit(c) && c != 's'
  {
    c == '<' || c == '>' || c == '!' || c == '=' || c == '@'
  }

  /** Mode characters, the 15 type codes and digits; `p` is deliberately absent. */
  predicate IsFormatChar(c: char): (b: bool)
    ensures IsFormatMode(c) || IsDigit(c) ==> b
    ensures c == 'p' ==> !b
  {
    || IsFormatMode(c) || c == 'x' || c == 'b'
    || c == 'B' || c == 'c' || c == 's'
    || c == 'h' || c == 'H' || c == 'i'
    || c == 'I' || c == 'l' || c == 'L'
    || c == 'q' || c == 'Q' || c == 'f'
    || c == 'd'
    || IsDigit(c)
  }

  /** `FormatMode<c>`: byte order and padding of a mode. */
  datatype FormatMode = FormatMode(isBigEndian: bool, shouldPad: bool)

  /**
    The mode table: `@` is little-endian with padding, `>` and `!` are
    big-endian without, and `<` and `=` keep the primary template's default,
    little-endian without padding.
  */
  function ModeOf(c: char): (m: FormatMode)
    requires IsFormatMode(c)
    ensures m.isBigEndian <==> c == '>' || c == '!'
    ensures m.shouldPad <==> c == '@'
  {
    match c
    case '@' => FormatMode(false, true)
    case '>' => FormatMode(true, false)
    case '!' => FormatMode(true, false)
    case _ => FormatMode(false, false)
  }

  /** Only a size of two bytes or more is aligned; a byte or nothing never is. */
  predicate DoesFormatAlign(size: nat): (b: bool)
    ensures b <==> size != 0 && size != 1
  {
    size > 1
  }

  /**
    `BigEndianFormat<c>::size()`: the byte width of a type code. Mode
    characters and digits fall to the primary template and get 0.
  */
  function FormatSize(c: char): (size: nat)
    requires IsFormatChar(c)
    ensures size == 0 <==> IsFormatMode(c) || IsDigit(c)
    ensures size == 0 || size == 1 || size == 2 || size == 4 || size == 8
  {
    match c
    case 'x' => 1
    case 'b' => 1
    case 'B' => 1
    case 'c' => 1
    case 's' => 1
    case 'h' => 2
    case 'H' => 2
    case 'i' => 4
    case 'I' => 4
    case 'l' => 4
    case 'L' => 4
    case 'q' => 8
    case 'Q' => 8
    case 'f' => 4
    case 'd' => 8
    case _ => 0
  }

  /** Only the multi-byte codes `h H i I l L q Q f d` call for alignment. */
  lemma AligningCodes(c: char)
    requires IsFormatChar(c)
    ensures DoesFormatAlign(FormatSize(c)) <==>
              c in {'h', 'H', 'i', 'I', 'l', 'L', 'q', 'Q', 'f', 'd'}
  {
  }

  /**
    `getFormatMode`: the mode of the first character when that is a mode
    character, the mode of `@` otherwise. An empty format has no first
    character and gets the mode of `@`.
  */
  function GetFormatMode(fmt: string): (m: FormatMode)
    ensures m.isBigEndian <==> |fmt| > 0 && (fmt[0] == '>' || fmt[0] == '!')
    ensures m.shouldPad <==> |fmt| == 0 || !IsFormatMode(fmt[0]) || fmt[0] == '@'
  {
    if |fmt| > 0 && IsFormatMode(fmt[0]) then ModeOf(fmt[0]) else ModeOf('@')
  }

  // ---------------------------------------------------------------------
  // countItems

  /** The repeat count after reading digit `c`: replaced while it is 1, extended otherwise. */
  function NextMultiplier(multiplier: nat, c: char): nat
    requires IsDigit(c)
  {
    if multiplier == 1 then DigitValue(c) else multiplier * 10 + DigitValue(c)
  }

  /**
    Items counted over `s` when the pending repeat count is `multiplier`:
    each non-digit adds the pending count and resets it to 1.
  */
  function Tally(s: string, multiplier: nat): nat {
    if s == [] then 0
    else if IsDigit(s[0]) then Tally(s[1..], NextMultiplier(multiplier, s[0]))
    else multiplier + Tally(s[1..], 1)
  }

  /** What `countItems` computes: a mode character in front counts for nothing. */
  function ItemCount(fmt: string): nat {
    if |fmt| > 0 && IsFormatMode(fmt[0]) then Tally(fmt[1..], 1) else Tally(fmt, 1)
  }

  method CountItems(fmt: string) returns (itemCount: nat)
    ensures itemCount == ItemCount(fmt)
  {
    itemCount := 0;
    var multiplier: nat := 1;
    for i := 0 to |fmt|
      invariant i == 0 ==> itemCount == 0 && multiplier == 1
      invariant i > 0 ==> itemCount + Tally(fmt[i..], multiplier) == ItemCount(fmt)
    {
      var currentChar := fmt[i];
      if i == 0 && IsFormatMode(currentChar) {
        continue;
      }
      assert fmt[i..][1..] == fmt[i + 1..];
      if IsDigit(currentChar) {
        multiplier := NextMultiplier(multiplier, currentChar);
        continue;
      }
      itemCount := itemCount + multiplier;
      multiplier := 1;
    }
  }

  // ---------------------------------------------------------------------
  // getTypeOfItem

  /**
    `getTypeOfItem<Item, Fmt, CurrentItem, CurrentI, Multiplier>`: scanning
    from index `i`, where the items before it number `currentItem` and the
    character at `i` stands for `multiplier` items. None when the scan runs
    off the end of the format, where the template does not compile.
  */
  function TypeOfItemFrom(fmt: string, item: nat, currentItem: nat, i: nat, multiplier: nat): (r: Option<char>)
    requires i <= |fmt|
    ensures r.Some? ==> !IsDigit(r.value)
    decreases |fmt| - i
  {
    if i == |fmt| then None
    else if IsDigit(fmt[i]) then
      var (number, next) := ConsumeNumber(fmt, i);
      TypeOfItemFrom(fmt, item, currentItem, next, number)
    else if currentItem <= item < currentItem + multiplier then Some(fmt[i])
    else TypeOfItemFrom(fmt, item, currentItem + multiplier, i + 1, 1)
  }

  function Repeat(c: char, n: nat): (r: string)
    ensures |r| == n
    ensures forall k :: 0 <= k < n ==> r[k] == c
  {
    seq(n, _ => c)
  }

  /**
    The format from index `i` on, written out one character per item: a
    number repeats the character after it, a number at the end stands for
    nothing.
  */
  function Expansion(fmt: string, i: nat): string
    requires i <= |fmt|
    decreases |fmt| - i
  {
    if i == |fmt| then []
    else if IsDigit(fmt[i]) then
      var (number, next) := ConsumeNumber(fmt, i);
      if next == |fmt| then [] else Repeat(fmt[next], number) + Expansion(fmt, next + 1)
    else [fmt[i]] + Expansion(fmt, i + 1)
  }

  function At(s: string, k: nat): Option<char> {
    if k < |s| then Some(s[k]) else None
  }

  lemma AtConcat(a: string, b: string, k: nat)
    ensures At(a + b, k) == if k < |a| then Some(a[k]) else At(b, k - |a|)
  {
  }

  /** One step of the scan over a type code, given the claim for the rest of the format. */
  lemma CodeStep(fmt: string, item: nat, currentItem: nat, i: nat)
    requires i < |fmt| && !IsDigit(fmt[i]) && currentItem <= item
    requires item > currentItem ==>
      TypeOfItemFrom(fmt, item, currentItem + 1, i + 1, 1) == At(Expansion(fmt, i + 1), item - currentItem - 1)
    ensures TypeOfItemFrom(fmt, item, currentItem, i, 1) == At(Expansion(fmt, i), item - currentItem)
  {
    var rest := Expansion(fmt, i + 1);
    assert Expansion(fmt, i) == [fmt[i]] + rest;
    AtConcat([fmt[i]], rest, item - currentItem);
  }

  /** The scan reads a repeat count and moves to the code after it. */
  lemma ScanOverCount(fmt: string, item: nat, currentItem: nat, i: nat)
    requires i < |fmt| && IsDigit(fmt[i])
    ensures TypeOfItemFrom(fmt, item, currentItem, i, 1)
      == TypeOfItemFrom(fmt, item, currentItem, ConsumeNumber(fmt, i).1, ConsumeNumber(fmt, i).0)
  {
  }

  /** At a type code the scan either stops on it or passes its range. */
  lemma ScanAtCode(fmt: string, item: nat, currentItem: nat, j: nat, multiplier: nat)
    requires j < |fmt| && !IsDigit(fmt[j])
    ensures TypeOfItemFrom(fmt, item, currentItem, j, multiplier)
      == if currentItem <= item < currentItem + multiplier then Some(fmt[j])
         else TypeOfItemFrom(fmt, item, currentItem + multiplier, j + 1, 1)
  {
  }

  /** A repeat count followed by a code writes the code out that many times. */
  lemma ExpandCount(fmt: string, i: nat)
    requires i < |fmt| && IsDigit(fmt[i])
    ensures var (number, next) := ConsumeNumber(fmt, i);
      Expansion(fmt, i) == if next == |fmt| then [] else Repeat(fmt[next], number) + Expansion(fmt, next + 1)
  {
  }

  /**
    Position `k` of a run of `number` copies of `c` followed by `rest`: `c`
    inside the run, else position `k - number` of `rest`.
  */
  lemma AtRun(c: char, number: nat, rest: string, k: nat, found: Option<char>)
    requires k < number ==> found == Some(c)
    requires k >= number ==> found == At(rest, k - number)
    ensures found == At(Repeat(c, number) + rest, k)
  {
    AtConcat(Repeat(c, number), rest, k);
  }

  /** One step of the scan over a repeat count and its code, given the claim for the rest. */
  lemma CountStep(fmt: string, item: nat, currentItem: nat, i: nat, number: nat, next: nat)
    requires i < |fmt| && IsDigit(fmt[i]) && currentItem <= item
    requires (number, next) == ConsumeNumber(fmt, i)
    requires next < |fmt| && item >= currentItem + number ==>
      TypeOfItemFrom(fmt, item, currentItem + number, next + 1, 1)
        == At(Expansion(fmt, next + 1), item - currentItem - number)
    ensures TypeOfItemFrom(fmt, item, currentItem, i, 1) == At(Expansion(fmt, i), item - currentItem)
  {
    ScanOverCount(fmt, item, currentItem, i);
    ExpandCount(fmt, i);
    if next < |fmt| {
      ScanAtCode(fmt, item, currentItem, next, number);
      AtRun(fmt[next], number, Expansion(fmt, next + 1), item - currentItem,
        TypeOfItemFrom(fmt, item, currentItem, next, number));
    } else {
      assert TypeOfItemFrom(fmt, item, currentItem, next, number) == None;
    }
  }

  lemma {:induction false} TypeOfItemFromIsExpansion(fmt: string, item: nat, currentItem: nat, i: nat)
    requires i <= |fmt| && currentItem <= item
    ensures TypeOfItemFrom(fmt, item, currentItem, i, 1) == At(Expansion(fmt, i), item - currentItem)
    decreases |fmt| - i
  {
    if i < |fmt| {
      if IsDigit(fmt[i]) {
        var (number, next) := ConsumeNumber(fmt, i);
        if next < |fmt| && item >= currentItem + number {
          TypeOfItemFromIsExpansion(fmt, item, currentItem + number, next + 1);
        }
        CountStep(fmt, item, currentItem, i, number, next);
      } else {
        if item > currentItem {
          TypeOfItemFromIsExpansion(fmt, item, currentItem + 1, i + 1);
        }
        CodeStep(fmt, item, currentItem, i);
      }
    }
  }

  /**
    `getTypeOfItem<item>(fmt)`: the scan starts at index 0, mode character or
    not. Item `k` has the type code of the `k`-th character of the
    written-out format: each character covers the item range `[CurrentItem,
    CurrentItem + Multiplier)` and the first range containing `k` decides.
  */
  function TypeOfItem(fmt: string, item: nat): (r: Option<char>)
    ensures r == At(Expansion(fmt, 0), item)
  {
    TypeOfItemFromIsExpansion(fmt, item, 0, 0);
    TypeOfItemFrom(fmt, item, 0, 0, 1)
  }

  /** Where the items of a format begin: after a leading mode character, as `countItems` reads it. */
  function ItemStart(fmt: string): (i: nat)
    ensures i <= |fmt|
    ensures i == 1 <==> |fmt| > 0 && IsFormatMode(fmt[0])
    ensures i == 0 || i == 1
  {
    if |fmt| > 0 && IsFormatMode(fmt[0]) then 1 else 0
  }

  /**
    The type code of item `k` as the format's grammar and `countItems` have
    it: the scan of `getTypeOfItem` started after a leading mode character.
    Item `k` is the `k`-th character of the written-out format past the mode.
  */
  function ItemType(fmt: string, item: nat): (r: Option<char>)
    ensures r == At(Expansion(fmt, ItemStart(fmt)), item)
  {
    TypeOfItemFromIsExpansion(fmt, item, 0, ItemStart(fmt));
    TypeOfItemFrom(fmt, item, 0, ItemStart(fmt), 1)
  }

  /**
    As written, a leading mode character is item 0 and every later item
    takes the code of the item before it in the grammar's reading.
  */
  lemma AsWrittenTypesShift(fmt: string, item: nat)
    requires |fmt| > 0 && IsFormatMode(fmt[0])
    ensures TypeOfItem(fmt, 0) == Some(fmt[0])
    ensures TypeOfItem(fmt, item + 1) == ItemType(fmt, item)
  {
    assert Expansion(fmt, 0) == [fmt[0]] + Expansion(fmt, 1);
  }

  // ---------------------------------------------------------------------
  // Properties of countItems

  /**
    `s` is counted like any other code and the repeat count restarts while it
    is 1: "<3h3s2i" counts 3 + 3 + 2, "12h" counts 2 and "10h" counts 0.
  */
  lemma ItemCountExamples()
    ensures ItemCount("<3h3s2i") == 8
    ensures ItemCount("3s") == 3
    ensures ItemCount("23h") == 23
    ensures ItemCount("12h") == 2
    ensures ItemCount("10h") == 0
  {
    assert "<3h3s2i"[1..] == "3h" + ("3s" + "2i");
    UnitsCountSeparately("3h", "3s" + "2i");
    UnitsCountSeparately("3s", "2i");
    assert "23h"[1..] == "3h" && "3h"[1..] == "h";
    assert Tally("3h", 2) == Tally("h", 23) == 23;
  }

  /** The repeat count still pending after `s`. */
  function Pending(s: string, multiplier: nat): nat {
    if s == [] then multiplier
    else if IsDigit(s[0]) then Pending(s[1..], NextMultiplier(multiplier, s[0]))
    else Pending(s[1..], 1)
  }

  /** Counting `a + b` is counting `a`, then `b` with the count `a` left pending. */
  lemma {:induction false} TallyAppend(a: string, b: string, multiplier: nat)
    ensures Tally(a + b, multiplier) == Tally(a, multiplier) + Tally(b, Pending(a, multiplier))
  {
    if a != [] {
      assert (a + b)[1..] == a[1..] + b;
      if IsDigit(a[0]) {
        TallyAppend(a[1..], b, NextMultiplier(multiplier, a[0]));
      } else {
        TallyAppend(a[1..], b, 1);
      }
    } else {
      assert a + b == b;
    }
  }

  predicate AllDigits(s: string) {
    forall k :: 0 <= k < |s| ==> IsDigit(s[k])
  }

  lemma {:induction false} TallyOfDigits(s: string, multiplier: nat)
    requires AllDigits(s)
    ensures Tally(s, multiplier) == 0
  {
    if s != [] {
      TallyOfDigits(s[1..], NextMultiplier(multiplier, s[0]));
    }
  }

  /** A run of digits at the end of a format adds no item. */
  lemma TrailingDigitsCountNothing(fmt: string, digits: string)
    requires AllDigits(digits)
    ensures ItemCount(fmt + digits) == ItemCount(fmt)
  {
    if |fmt| > 0 && IsFormatMode(fmt[0]) {
      assert (fmt + digits)[1..] == fmt[1..] + digits;
      TallyAppend(fmt[1..], digits, 1);
      TallyOfDigits(digits, Pending(fmt[1..], 1));
    } else {
      if fmt == [] {
        assert fmt + digits == digits;
      }
      TallyAppend(fmt, digits, 1);
      TallyOfDigits(digits, Pending(fmt, 1));
    }
  }

  lemma {:induction false} PendingAfterCode(s: string, multiplier: nat)
    requires |s| > 0 && !IsDigit(s[|s| - 1])
    ensures Pending(s, multiplier) == 1
  {
    if |s| > 1 {
      if IsDigit(s[0]) {
        PendingAfterCode(s[1..], NextMultiplier(multiplier, s[0]));
      } else {
        PendingAfterCode(s[1..], 1);
      }
    }
  }

  /** Once a type code closes a unit, what follows is counted afresh. */
  lemma UnitsCountSeparately(a: string, b: string)
    requires |a| > 0 && !IsDigit(a[|a| - 1])
    ensures Tally(a + b, 1) == Tally(a, 1) + Tally(b, 1)
  {
    TallyAppend(a, b, 1);
    PendingAfterCode(a, 1);
  }

  lemma {:induction false} TallyWithoutDigits(s: string)
    requires forall k :: 0 <= k < |s| ==> !IsDigit(s[k])
    ensures Tally(s, 1) == |s|
  {
    if s != [] {
      TallyWithoutDigits(s[1..]);
    }
  }

  /** Without repeat counts every character after the optional mode character is one item. */
  lemma DigitFreeCount(fmt: string)
    requires forall k :: 0 <= k < |fmt| ==> !IsDigit(fmt[k])
    ensures ItemCount(fmt) == if |fmt| > 0 && IsFormatMode(fmt[0]) then |fmt| - 1 else |fmt|
  {
    if |fmt| > 0 && IsFormatMode(fmt[0]) {
      TallyWithoutDigits(fmt[1..]);
    } else {
      TallyWithoutDigits(fmt);
    }
  }

  /** A decimal number whose first digit is at least 2 is at least 2. */
  lemma {:induction false} DecimalAtLeastFirst(run: string)
    requires |run| > 0 && AllDigits(run) && '2' <= run[0]
    ensures DecimalValue(run) >= 2
  {
    if |run| > 1 {
      DecimalAtLeastFirst(run[..|run| - 1]);
    }
  }

  lemma {:induction false} PendingSnoc(s: string, c: char, multiplier: nat)
    requires AllDigits(s) && IsDigit(c)
    ensures Pending(s + [c], multiplier) == NextMultiplier(Pending(s, multiplier), c)
  {
    if s != [] {
      assert (s + [c])[1..] == s[1..] + [c];
      PendingSnoc(s[1..], c, NextMultiplier(multiplier, s[0]));
    } else {
      assert s + [c] == [c];
    }
  }

  /**
    A repeat count whose first digit is 2 to 9 is read as its decimal value;
    only counts that pass through the value 1 ("12", "10") are misread.
  */
  lemma {:induction false} RepeatCountIsDecimal(run: string)
    requires |run| > 0 && AllDigits(run) && '2' <= run[0]
    ensures Pending(run, 1) == DecimalValue(run)
  {
    if |run| > 1 {
      var prefix := run[..|run| - 1];
      RepeatCountIsDecimal(prefix);
      DecimalAtLeastFirst(prefix);
      assert run == prefix + [run[|run| - 1]];
      PendingSnoc(prefix, run[|run| - 1], 1);
    } else {
      assert run[..0] == [];
    }
  }

  // ---------------------------------------------------------------------
  // countItems against getTypeOfItem

  /** No two digits in a row: every repeat count is a single digit. */
  predicate SingleDigitCounts(fmt: string) {
    forall k :: 0 <= k < |fmt| - 1 ==> !(IsDigit(fmt[k]) && IsDigit(fmt[k + 1]))
  }

  lemma {:induction false} TallyIsExpansionLength(fmt: string, i: nat)
    requires i <= |fmt| && SingleDigitCounts(fmt)
    ensures Tally(fmt[i..], 1) == |Expansion(fmt, i)|
    decreases |fmt| - i
  {
    if i < |fmt| {
      assert fmt[i..][1..] == fmt[i + 1..];
      if IsDigit(fmt[i]) {
        ConsumeSingleDigit(fmt, i);
        if i + 1 < |fmt| {
          assert fmt[i + 1..][1..] == fmt[i + 2..];
          TallyIsExpansionLength(fmt, i + 2);
        }
      } else {
        TallyIsExpansionLength(fmt, i + 1);
      }
    }
  }

  /**
    With single-digit repeat counts and no mode character, `countItems` is
    the number of items `getTypeOfItem` can name: exactly the indices below
    the count have a type code.
  */
  lemma CountMatchesTypeOfItem(fmt: string, item: nat)
    requires SingleDigitCounts(fmt)
    requires |fmt| == 0 || !IsFormatMode(fmt[0])
    ensures TypeOfItem(fmt, item).Some? <==> item < ItemCount(fmt)
  {
    TallyIsExpansionLength(fmt, 0);
    assert fmt[0..] == fmt;
  }

  /**
    With single-digit repeat counts, `countItems` is exactly the number of
    items the grammar's reading names, mode character or not.
  */
  lemma CountMatchesItemType(fmt: string, item: nat)
    requires SingleDigitCounts(fmt)
    ensures ItemType(fmt, item).Some? <==> item < ItemCount(fmt)
  {
    TallyIsExpansionLength(fmt, ItemStart(fmt));
    assert fmt[0..] == fmt;
  }

  lemma {:induction false} ExpansionWithoutDigits(fmt: string, i: nat)
    requires i <= |fmt|
    requires forall k :: 0 <= k < |fmt| ==> !IsDigit(fmt[k])
    ensures Expansion(fmt, i) == fmt[i..]
    decreases |fmt| - i
  {
    if i < |fmt| {
      ExpansionWithoutDigits(fmt, i + 1);
      assert fmt[i..] == [fmt[i]] + fmt[i + 1..];
    }
  }

  /** Without repeat counts, item `k` is character `k` of the format. */
  lemma DigitFreeTypeOfItem(fmt: string, item: nat)
    requires forall k :: 0 <= k < |fmt| ==> !IsDigit(fmt[k])
    ensures TypeOfItem(fmt, item) == At(fmt, item)
  {
    ExpansionWithoutDigits(fmt, 0);
    assert fmt[0..] == fmt;
  }
}
