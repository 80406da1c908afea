/** Writing the bracket notation: `toString(signedOffsets, addressSize)`,
    `toString()` and the static list `toString`. Numbers are written by the
    helper `DataConversions.toHexadecimal`, which is not part of this model: it
    is a parameter `hex`, and every property here holds whatever it writes. */
module PointerFormatter {
  import opened Wrappers
  import opened Sequences
  import opened Longs
  import opened JavaText
  import opened MemoryPointers

  /** `toHexadecimal(value, addressSize, false)` */
  type HexFormatter = (Long, int) -> string

  const CLOSING_BRACKET_AND_SPACE: string := "] "

  /** The parts in order, with `separator` between two neighbours and nowhere
      else: what a `StringBuilder` loop produces that appends a part and then,
      unless it was the last, the separator. */
  function Join(parts: seq<string>, separator: string): string
  {
    if |parts| == 0 then ""
    else if |parts| == 1 then parts[0]
    else Join(parts[..|parts| - 1], separator) + separator + parts[|parts| - 1]
  }

  /** The base as written: the module text, or the base address in hex. */
  function BaseText(p: MemoryPointer, addressSize: int, hex: HexFormatter): string
  {
    match p.baseModuleNameWithOffset
    case Some(moduleText) => moduleText
    case None => hex(p.baseAddress, addressSize)
  }

  /** One offset term: `- ` and the hex of the offset's magnitude (its 64-bit
      negation) for a negative offset in signed mode, otherwise `+ ` and the hex
      of its bits. */
  function OffsetText(offset: Long, signedOffsets: bool, addressSize: int, hex: HexFormatter): string
  {
    if IsNegative(offset) && signedOffsets then "- " + hex(Neg(offset), addressSize)
    else "+ " + hex(offset, addressSize)
  }

  function OffsetTexts(offsets: seq<Long>, signedOffsets: bool, addressSize: int, hex: HexFormatter): (r: seq<string>)
    ensures |r| == |offsets|
  {
    seq(|offsets|, i requires 0 <= i < |offsets| => OffsetText(offsets[i], signedOffsets, addressSize, hex))
  }

  /** The notation of `p`: one `[` per offset, the base, `] `, then the offset
      terms separated by `] `. */
  function Format(p: MemoryPointer, signedOffsets: bool, addressSize: int, hex: HexFormatter): string
  {
    OpeningBrackets(|p.offsets|) + BaseText(p, addressSize, hex) + CLOSING_BRACKET_AND_SPACE
    + Join(OffsetTexts(p.offsets, signedOffsets, addressSize, hex), CLOSING_BRACKET_AND_SPACE)
  }

  /** What the builder holds after `i` parts: those parts joined, then the
      separator if another part follows. */
  ghost function JoinPrefix(parts: seq<string>, separator: string, i: nat): string
    requires i <= |parts|
  {
    Join(parts[..i], separator) + (if 0 < i < |parts| then separator else "")
  }

  /** Appending part `i`, and the separator unless it is the last, advances
      the prefix by one part; after all parts the prefix is the whole join. */
  lemma JoinPrefixStep(parts: seq<string>, separator: string, i: nat)
    requires i < |parts|
    ensures JoinPrefix(parts, separator, i) + parts[i] + (if i != |parts| - 1 then separator else "")
            == JoinPrefix(parts, separator, i + 1)
  {
    assert parts[..i + 1][..i] == parts[..i];
  }

  /** After all parts the prefix is the whole join. */
  lemma JoinPrefixAll(parts: seq<string>, separator: string)
    ensures JoinPrefix(parts, separator, |parts|) == Join(parts, separator)
  {
    assert parts[..|parts|] == parts;
  }

  /** `toString(signedOffsets, addressSize)` */
  method ToString(p: MemoryPointer, signedOffsets: bool, addressSize: int, hex: HexFormatter) returns (s: string)
    ensures s == Format(p, signedOffsets, addressSize, hex)
  {
    var offsets := p.offsets;
    var pointerBuilder := "";

    for ignored := 0 to |offsets|
      invariant pointerBuilder == OpeningBrackets(ignored)
    {
      pointerBuilder := pointerBuilder + "[";
    }

    if p.baseModuleNameWithOffset.Some? {
      pointerBuilder := pointerBuilder + p.baseModuleNameWithOffset.value;
    } else {
      var formattedBaseAddress := hex(p.baseAddress, addressSize);
      pointerBuilder := pointerBuilder + formattedBaseAddress;
    }

    pointerBuilder := pointerBuilder + CLOSING_BRACKET_AND_SPACE;
    ghost var head := pointerBuilder;
    assert head == OpeningBrackets(|offsets|) + BaseText(p, addressSize, hex) + CLOSING_BRACKET_AND_SPACE;
    ghost var texts := OffsetTexts(offsets, signedOffsets, addressSize, hex);

    for offsetsIndex := 0 to |offsets|
      invariant pointerBuilder == head + JoinPrefix(texts, CLOSING_BRACKET_AND_SPACE, offsetsIndex)
    {
      var offset := offsets[offsetsIndex];
      var isNegative := IsNegative(offset);
      var sign: string;

      if isNegative && signedOffsets {
        var integerMaxValue := IntAdd(INTEGER_MAX_VALUE, IntAbs(INTEGER_MIN_VALUE));
        DisplayedOffsetIsNegation(offset);
        offset := Add(Sub(IntToLong(integerMaxValue), offset), 1);
        sign := "-";
      } else {
        sign := "+";
      }

      var formattedOffset := hex(offset, addressSize);
      var term := sign + " " + formattedOffset;
      assert term == texts[offsetsIndex];
      var separator := if offsetsIndex != |offsets| - 1 then CLOSING_BRACKET_AND_SPACE else "";
      JoinPrefixStep(texts, CLOSING_BRACKET_AND_SPACE, offsetsIndex);
      AppendAssociative(head, JoinPrefix(texts, CLOSING_BRACKET_AND_SPACE, offsetsIndex) + term, separator);
      AppendAssociative(head, JoinPrefix(texts, CLOSING_BRACKET_AND_SPACE, offsetsIndex), term);
      pointerBuilder := pointerBuilder + term + separator;
    }

    JoinPrefixAll(texts, CLOSING_BRACKET_AND_SPACE);
    return pointerBuilder;
  }

  /** `toString()`: signed offsets, eight-byte addresses. */
  method ToStringDefault(p: MemoryPointer, hex: HexFormatter) returns (s: string)
    ensures s == Format(p, true, LONG_BYTES, hex)
  {
    s := ToString(p, true, LONG_BYTES, hex);
  }

  /** Each pointer's notation, in order, signed iff the setting is `Signed`. */
  function Renderings(memoryPointers: seq<MemoryPointer>, addressSize: int, offsetPrintingSetting: OffsetPrintingSetting, hex: HexFormatter): (r: seq<string>)
    ensures |r| == |memoryPointers|
  {
    seq(|memoryPointers|, i requires 0 <= i < |memoryPointers| =>
      Format(memoryPointers[i], offsetPrintingSetting == Signed, addressSize, hex))
  }

  /** The static `toString(memoryPointers, addressSize, offsetPrintingSetting)`:
      the notations one per line, trimmed. */
  method ListToString(memoryPointers: seq<MemoryPointer>, addressSize: int, offsetPrintingSetting: OffsetPrintingSetting,
                      lineSeparator: string, hex: HexFormatter) returns (s: string)
    ensures s == Trim(Join(Renderings(memoryPointers, addressSize, offsetPrintingSetting, hex), lineSeparator))
  {
    ghost var rendered := Renderings(memoryPointers, addressSize, offsetPrintingSetting, hex);
    var stringBuilder := "";

    var index := 0;
    while index < |memoryPointers|
      invariant 0 <= index <= |memoryPointers|
      invariant stringBuilder == JoinPrefix(rendered, lineSeparator, index)
    {
      var memoryPointer := memoryPointers[index];
      var signedPointerOffsets := offsetPrintingSetting == Signed;
      var rendering := ToString(memoryPointer, signedPointerOffsets, addressSize, hex);
      var separator := if index != |memoryPointers| - 1 then lineSeparator else "";
      JoinPrefixStep(rendered, lineSeparator, index);
      stringBuilder := stringBuilder + rendering + separator;
      index := index + 1;
    }

    JoinPrefixAll(rendered, lineSeparator);
    return Trim(stringBuilder);
  }

  // ---------------------------------------------------------------------------
  // Properties of the notation

  /** The first part, then (if more follow) the separator and the rest joined. */
  lemma {:induction false} JoinFront(first: string, rest: seq<string>, separator: string)
    ensures Join([first] + rest, separator)
            == first + (if |rest| == 0 then "" else separator + Join(rest, separator))
    decreases |rest|
  {
    if |rest| == 1 {
      assert ([first] + rest)[..1] == [first];
    } else if |rest| > 1 {
      var init := rest[..|rest| - 1];
      var last := rest[|rest| - 1];
      assert ([first] + rest)[..|rest|] == [first] + init;
      JoinFront(first, init, separator);
      var inner := Join(init, separator);
      // Join([first] + rest) == first + separator + inner + separator + last
      AppendAssociative(first, separator, inner);
      AppendAssociative(first, separator + inner, separator);
      AppendAssociative(first, separator + inner + separator, last);
      AppendAssociative(separator, inner, separator);
      AppendAssociative(separator, inner + separator, last);
      AppendAssociative(inner, separator, last);
    }
  }

  /** A character that neither the separator nor any part holds is not in the
      joined text. */
  lemma {:induction false} JoinAvoids(parts: seq<string>, separator: string, c: char)
    requires c !in separator
    requires forall i :: 0 <= i < |parts| ==> c !in parts[i]
    ensures c !in Join(parts, separator)
    decreases |parts|
  {
    if |parts| > 1 {
      JoinAvoids(parts[..|parts| - 1], separator, c);
    }
  }

  /** A negative offset in signed mode is written as `- ` and the hex of its
      magnitude, its absolute value as a signed 64-bit number. */
  lemma NegativeOffsetText(offset: Long, addressSize: int, hex: HexFormatter)
    requires IsNegative(offset)
    ensures exists magnitude: Long :: magnitude as int == -SignedValue(offset)
              && OffsetText(offset, true, addressSize, hex) == "- " + hex(magnitude, addressSize)
  {
    NegationIsMagnitude(offset);
    var magnitude := Neg(offset);
    assert OffsetText(offset, true, addressSize, hex) == "- " + hex(magnitude, addressSize);
  }

  /** A character that is no sign, no space and never written by `hex` is in
      no offset term. */
  lemma OffsetTextAvoids(offset: Long, signedOffsets: bool, addressSize: int, hex: HexFormatter, c: char)
    requires c != '-' && c != '+' && c != ' '
    requires forall v: Long :: c !in hex(v, addressSize)
    ensures c !in OffsetText(offset, signedOffsets, addressSize, hex)
  {
    var written := if IsNegative(offset) && signedOffsets then Neg(offset) else offset;
    assert c !in hex(written, addressSize);
    assert OffsetText(offset, signedOffsets, addressSize, hex)
           == (if IsNegative(offset) && signedOffsets then "- " else "+ ") + hex(written, addressSize);
  }

  lemma OffsetTextsAvoid(offsets: seq<Long>, signedOffsets: bool, addressSize: int, hex: HexFormatter, c: char)
    requires c != '-' && c != '+' && c != ' '
    requires forall v: Long :: c !in hex(v, addressSize)
    ensures forall i :: 0 <= i < |offsets| ==> c !in OffsetTexts(offsets, signedOffsets, addressSize, hex)[i]
  {
    forall i | 0 <= i < |offsets|
      ensures c !in OffsetTexts(offsets, signedOffsets, addressSize, hex)[i]
    {
      OffsetTextAvoids(offsets[i], signedOffsets, addressSize, hex, c);
    }
  }

  /** Appending text without `c` does not change how often `c` occurs. */
  lemma CountUnchanged(a: string, b: string, c: char)
    requires c !in b
    ensures multiset(a + b)[c] == multiset(a)[c]
  {
    assert multiset(a + b) == multiset(a) + multiset(b);
  }

  /** The notation opens exactly one `[` per offset, as long as the base text
      and the written numbers hold none. */
  lemma FormatBracketCount(p: MemoryPointer, signedOffsets: bool, addressSize: int, hex: HexFormatter)
    requires '[' !in BaseText(p, addressSize, hex)
    requires forall v: Long :: '[' !in hex(v, addressSize)
    ensures multiset(Format(p, signedOffsets, addressSize, hex))['['] == |p.offsets|
  {
    var texts := OffsetTexts(p.offsets, signedOffsets, addressSize, hex);
    OffsetTextsAvoid(p.offsets, signedOffsets, addressSize, hex, '[');
    JoinAvoids(texts, CLOSING_BRACKET_AND_SPACE, '[');
    var tail := BaseText(p, addressSize, hex) + CLOSING_BRACKET_AND_SPACE + Join(texts, CLOSING_BRACKET_AND_SPACE);
    assert Format(p, signedOffsets, addressSize, hex) == OpeningBrackets(|p.offsets|) + tail;
    CountUnchanged(OpeningBrackets(|p.offsets|), tail, '[');
    OpeningBracketsCount(|p.offsets|);
  }

  lemma {:induction false} OpeningBracketsCount(n: nat)
    ensures multiset(OpeningBrackets(n))['['] == n
  {
    if n > 0 {
      assert OpeningBrackets(n) == OpeningBrackets(n - 1) + ['['];
      OpeningBracketsCount(n - 1);
    }
  }

  /** An empty list is written as the empty text. */
  lemma EmptyListText(addressSize: int, offsetPrintingSetting: OffsetPrintingSetting, lineSeparator: string, hex: HexFormatter)
    ensures Trim(Join(Renderings([], addressSize, offsetPrintingSetting, hex), lineSeparator)) == ""
  {
  }

  /** The list text before trimming holds each pointer's notation, in order,
      with the line separator between neighbours. */
  lemma ListTextFront(first: MemoryPointer, rest: seq<MemoryPointer>, addressSize: int,
                      offsetPrintingSetting: OffsetPrintingSetting, lineSeparator: string, hex: HexFormatter)
    ensures Join(Renderings([first] + rest, addressSize, offsetPrintingSetting, hex), lineSeparator)
            == Format(first, offsetPrintingSetting == Signed, addressSize, hex)
               + (if |rest| == 0 then ""
                  else lineSeparator + Join(Renderings(rest, addressSize, offsetPrintingSetting, hex), lineSeparator))
  {
    var rendered := Renderings([first] + rest, addressSize, offsetPrintingSetting, hex);
    assert rendered == [Format(first, offsetPrintingSetting == Signed, addressSize, hex)]
                       + Renderings(rest, addressSize, offsetPrintingSetting, hex);
    JoinFront(Format(first, offsetPrintingSetting == Signed, addressSize, hex),
              Renderings(rest, addressSize, offsetPrintingSetting, hex), lineSeparator);
  }
}
