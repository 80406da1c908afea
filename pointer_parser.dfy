/** Reading the bracket notation (`parseMemoryPointer`, `parseBaseAddress`).

    The notation of a pointer with n offsets is n opening brackets, the base,
    then n terms `] <sign> 0x<hex>`, the last one without a closing bracket
    after it, for example `[[0x80001000] + 0x10] - 0x4`. The reader works by
    character positions: every `indexOf` that finds nothing yields -1 and
    every `substring` out of bounds throws, which is how malformed text fails. */
module PointerParser {
  import opened Wrappers
  import opened Longs
  import opened JavaText
  import opened MemoryPointers

  const HEXADECIMAL_HEADER: string := "0x"
  const CLOSING_BRACKET: char := ']'
  const OPENING_BRACKET: char := '['
  const OPENING_ROUNDED_BRACKET: char := '('
  const CLOSING_ROUNDED_BRACKET: char := ')'
  const EQUALS_SIGN: char := '='

  /** A `StringIndexOutOfBoundsException` or `NumberFormatException` raised
      while reading `text`. */
  datatype ParseError = MalformedExpression(text: string)

  /** `parseBaseAddress`: with an `=` anywhere in the line, the hex between
      four characters after the first `=` and the first `)`; otherwise the hex
      between the first `0x` and the first `]`. */
  function ParseBaseAddress(memoryPointerLine: string): Option<Long>
  {
    if EQUALS_SIGN in memoryPointerLine then AddressAfterEquals(memoryPointerLine)
    else AddressAfterHeader(memoryPointerLine)
  }

  /** The `=` branch of `parseBaseAddress`: the hex from four characters after
      the first `=` up to the first `)`. */
  function AddressAfterEquals(memoryPointerLine: string): Option<Long>
  {
    var equalsSignIndex := IndexOf(memoryPointerLine, EQUALS_SIGN);
    var baseAddressClosingIndex := IndexOf(memoryPointerLine, CLOSING_ROUNDED_BRACKET);
    var beginIndex := equalsSignIndex + 2 + |HEXADECIMAL_HEADER|;
    var baseAddressString :- Substring(memoryPointerLine, beginIndex, baseAddressClosingIndex);
    ParseUnsignedLong(baseAddressString)
  }

  /** The other branch of `parseBaseAddress`: the hex after the first `0x` up
      to the first `]`. */
  function AddressAfterHeader(memoryPointerLine: string): Option<Long>
  {
    var baseAddressIndex := IndexOfText(memoryPointerLine, HEXADECIMAL_HEADER);
    var baseAddressClosingIndex := IndexOf(memoryPointerLine, CLOSING_BRACKET);
    var beginIndex := baseAddressIndex + |HEXADECIMAL_HEADER|;
    var baseAddressString :- Substring(memoryPointerLine, beginIndex, baseAddressClosingIndex);
    ParseUnsignedLong(baseAddressString)
  }

  /** The base of the pointer: the module expression (`None` for an absolute
      pointer) and the base address. The base expression is the text between
      the first `[` and the first `]`; if it holds a space, the module name is
      its text up to one character before its first `(`, and the address is the
      hex from four characters after its first `=` up to its first `)`;
      otherwise the address is `parseBaseAddress` of the whole text. */
  function ParseBase(text: string): Option<(Option<string>, Long)>
  {
    var firstOpeningBracketIndex := IndexOf(text, OPENING_BRACKET);
    var firstClosingBracketIndex := IndexOf(text, CLOSING_BRACKET);
    var baseAddressExpression :- Substring(text, firstOpeningBracketIndex + 1, firstClosingBracketIndex);
    if ' ' in baseAddressExpression then
      ParseModuleBase(baseAddressExpression)
    else
      var baseAddress :- ParseBaseAddress(text);
      Some((None, baseAddress))
  }

  /** The module branch of `ParseBase`, on the base expression. */
  function ParseModuleBase(baseAddressExpression: string): Option<(Option<string>, Long)>
  {
    var firstOpeningRoundedBracket := IndexOf(baseAddressExpression, OPENING_ROUNDED_BRACKET) - 1;
    var moduleExpression :- Substring(baseAddressExpression, 0, firstOpeningRoundedBracket);
    var baseAddressStartIndex := IndexOf(baseAddressExpression, EQUALS_SIGN) + 2 + |HEXADECIMAL_HEADER|;
    var baseAddressEndIndex := IndexOf(baseAddressExpression, CLOSING_ROUNDED_BRACKET);
    var baseAddressString :- Substring(baseAddressExpression, baseAddressStartIndex, baseAddressEndIndex);
    var baseAddress :- ParseUnsignedLong(baseAddressString);
    Some((Some(moduleExpression), baseAddress))
  }

  /** The number of offsets: every `[` of the text, the base's included. */
  function PointerDepth(text: string): nat
  {
    multiset(text)[OPENING_BRACKET]
  }

  /** The end of the offset term that starts after the cursor `previous`: the
      next `]`, or the end of the text. */
  function NextBoundary(text: string, previous: int): int
  {
    var innerClosingIndex := IndexOfFrom(text, CLOSING_BRACKET, previous + 1);
    if innerClosingIndex == -1 then |text| else innerClosingIndex
  }

  /** The cursor after moving `i` terms on from `start`. */
  function CursorFrom(text: string, start: int, i: nat): int
    decreases i
  {
    if i == 0 then start else CursorFrom(text, NextBoundary(text, start), i - 1)
  }

  /** The cursor before offset term i: the first `]`, then each term's end. */
  function Cursor(text: string, i: nat): int
  {
    CursorFrom(text, IndexOf(text, CLOSING_BRACKET), i)
  }

  /** One offset term, the text from two characters after the cursor
      `previous` (skipping `] `) up to `inner`: the hex after its first four
      characters (sign, space, `0x`), negated in 64 bits if the term starts
      with `-`. */
  function OffsetTerm(text: string, previous: int, inner: int): Option<Long>
  {
    var pointerOffsetString :- Substring(text, previous + 2, inner);
    var beginIndex := 2 + |HEXADECIMAL_HEADER|;
    var digits :- SubstringFrom(pointerOffsetString, beginIndex);
    var pointerOffset :- ParseUnsignedLong(digits);
    Some(if StartsWith(pointerOffsetString, "-") then Neg(pointerOffset) else pointerOffset)
  }

  /** Offset i as the text denotes it, or `None` if reading it throws. */
  function OffsetAt(text: string, i: nat): Option<Long>
  {
    var previous := Cursor(text, i);
    OffsetTerm(text, previous, NextBoundary(text, previous))
  }

  predicate OffsetsReadable(text: string)
  {
    forall i: nat :: i < PointerDepth(text) ==> OffsetAt(text, i).Some?
  }

  /** What `parseMemoryPointer` makes of `text`. The base address is read twice,
      first by `parseBaseAddress` alone, whose failure fails the whole parse
      even when the base turns out to be module-relative. */
  function Parse(text: string): Result<MemoryPointer, ParseError>
  {
    if ParseBaseAddress(text).None? || ParseBase(text).None? || !OffsetsReadable(text) then
      Failure(MalformedExpression(text))
    else
      var base := ParseBase(text).value;
      Success(MemoryPointer(base.0, base.1, Offsets(text)))
  }

  /** The offsets of a text whose every term reads. */
  function Offsets(text: string): seq<Long>
    requires OffsetsReadable(text)
  {
    seq(PointerDepth(text), i requires 0 <= i < PointerDepth(text) => OffsetAt(text, i).value)
  }

  lemma {:induction false} CursorStep(text: string, start: int, i: nat)
    ensures CursorFrom(text, start, i + 1) == NextBoundary(text, CursorFrom(text, start, i))
    decreases i
  {
    if i > 0 {
      CursorStep(text, NextBoundary(text, start), i - 1);
    }
  }

  /** Reading term i from its cursor: the term up to the next boundary, which is
      the cursor of term i + 1. */
  lemma ReadStep(text: string, i: nat, previous: int)
    requires previous == Cursor(text, i)
    ensures OffsetAt(text, i) == OffsetTerm(text, previous, NextBoundary(text, previous))
    ensures Cursor(text, i + 1) == NextBoundary(text, previous)
  {
    CursorStep(text, IndexOf(text, CLOSING_BRACKET), i);
  }

  /** `offsets` are the first `|offsets|` offsets the text denotes. */
  predicate ReadPrefix(text: string, offsets: seq<Long>)
  {
    && |offsets| <= PointerDepth(text)
    && forall i: nat :: i < |offsets| ==> OffsetAt(text, i) == Some(offsets[i])
  }

  lemma ReadPrefixExtend(text: string, offsets: seq<Long>, offset: Long)
    requires ReadPrefix(text, offsets) && |offsets| < PointerDepth(text)
    requires OffsetAt(text, |offsets|) == Some(offset)
    ensures ReadPrefix(text, offsets + [offset])
  {
  }

  /** A term that does not read makes the text unreadable. */
  lemma UnreadableAt(text: string, i: nat)
    requires i < PointerDepth(text) && OffsetAt(text, i).None?
    ensures !OffsetsReadable(text)
  {
  }

  /** Offsets read one per `[` make the text readable. */
  lemma ReadableBy(text: string, offsets: seq<Long>)
    requires ReadPrefix(text, offsets) && |offsets| == PointerDepth(text)
    ensures OffsetsReadable(text)
  {
  }

  /** The offset loop of `parseMemoryPointer`: fills an array of
      `PointerDepth(text)` offsets in order, moving the cursor from one `]` to
      the next; `None` if reading a term throws. */
  method ReadOffsets(text: string) returns (r: Option<seq<Long>>)
    ensures r.Some? <==> OffsetsReadable(text)
    ensures r.Some? ==> |r.value| == PointerDepth(text) && ReadPrefix(text, r.value)
  {
    var pointerDepth := PointerDepth(text);
    var previousClosingBracketIndex := IndexOf(text, CLOSING_BRACKET);
    var pointerDepthIndex: nat := 0;
    var offsets := new Long[pointerDepth];
    while pointerDepthIndex < pointerDepth
      invariant pointerDepthIndex <= pointerDepth
      invariant previousClosingBracketIndex == Cursor(text, pointerDepthIndex)
      invariant ReadPrefix(text, offsets[..pointerDepthIndex])
    {
      var innerClosingIndex := IndexOfFrom(text, CLOSING_BRACKET, previousClosingBracketIndex + 1);
      if innerClosingIndex == -1 {
        innerClosingIndex := |text|;
      }
      var pointerOffset := OffsetTerm(text, previousClosingBracketIndex, innerClosingIndex);
      ReadStep(text, pointerDepthIndex, previousClosingBracketIndex);
      if pointerOffset.None? {
        UnreadableAt(text, pointerDepthIndex);
        return None;
      }
      ghost var read := offsets[..pointerDepthIndex];
      ReadPrefixExtend(text, read, pointerOffset.value);
      offsets[pointerDepthIndex] := pointerOffset.value;
      assert offsets[..pointerDepthIndex + 1] == read + [pointerOffset.value];
      previousClosingBracketIndex := innerClosingIndex;
      pointerDepthIndex := pointerDepthIndex + 1;
    }
    assert offsets[..] == offsets[..pointerDepthIndex];
    ReadableBy(text, offsets[..]);
    return Some(offsets[..]);
  }

  /** `parseMemoryPointer`: checks that `parseBaseAddress` reads, reads the
      base, then the offsets. */
  method ParseMemoryPointer(text: string) returns (r: Result<MemoryPointer, ParseError>)
    ensures r == Parse(text)
  {
    if ParseBaseAddress(text).None? {
      return Failure(MalformedExpression(text));
    }
    var base := ParseBase(text);
    if base.None? {
      return Failure(MalformedExpression(text));
    }
    var offsets := ReadOffsets(text);
    if offsets.None? {
      return Failure(MalformedExpression(text));
    }
    assert offsets.value == Offsets(text);
    if base.value.0.Some? {
      return Success(ModuleRelative(base.value.0.value, base.value.1, offsets.value));
    } else {
      return Success(Absolute(base.value.1, offsets.value));
    }
  }

  const LEADING_EQUALS_EXAMPLE: string := "x=[a (= 0x10)] + 0x4"

  lemma LeadingEqualsDefeatsBaseAddress()
    ensures ParseBaseAddress(LEADING_EQUALS_EXAMPLE).None?
  {
    var text := LEADING_EQUALS_EXAMPLE;
    assert text[..1] == "x" && text[..12] == "x=[a (= 0x10";
    IndexOfIs(text, EQUALS_SIGN, 1);
    IndexOfIs(text, CLOSING_ROUNDED_BRACKET, 12);
    assert text[5..12] == "(= 0x10";
  }

  lemma ExampleModuleExpression()
    ensures var expression := "a (= 0x10)";
            && IndexOf(expression, OPENING_ROUNDED_BRACKET) == 2
            && IndexOf(expression, EQUALS_SIGN) == 3
            && IndexOf(expression, CLOSING_ROUNDED_BRACKET) == 9
            && expression[0..1] == "a" && expression[7..9] == "10" && ' ' in expression
  {
    var expression := "a (= 0x10)";
    assert expression[..2] == "a " && expression[..3] == "a (" && expression[..9] == "a (= 0x10";
    IndexOfIs(expression, OPENING_ROUNDED_BRACKET, 2);
    IndexOfIs(expression, EQUALS_SIGN, 3);
    IndexOfIs(expression, CLOSING_ROUNDED_BRACKET, 9);
    assert expression[1] == ' ';
  }

  lemma LeadingEqualsModuleBase()
    ensures ParseBase(LEADING_EQUALS_EXAMPLE) == Some((Some("a"), 0x10))
  {
    var text := LEADING_EQUALS_EXAMPLE;
    assert text[..2] == "x=" && text[..13] == "x=[a (= 0x10)";
    IndexOfIs(text, OPENING_BRACKET, 2);
    IndexOfIs(text, CLOSING_BRACKET, 13);
    assert text[3..13] == "a (= 0x10)";
    ExampleModuleExpression();
    assert HexValue("10") == 16 by {
      assert "10"[..1] == "1";
    }
    assert ParseUnsignedLong("10") == Some(16);
  }

  /** `parseBaseAddress` guards the whole parse: in `x=[a (= 0x10)] + 0x4` the
      base expression reads as module `a` at 0x10, but `parseBaseAddress`
      takes the first `=` of the whole line, before the brackets, and fails, so
      the parse fails. */
  lemma BaseAddressCheckGuardsModuleBase()
    ensures ParseBase(LEADING_EQUALS_EXAMPLE) == Some((Some("a"), 0x10))
    ensures Parse(LEADING_EQUALS_EXAMPLE) == Failure(MalformedExpression(LEADING_EQUALS_EXAMPLE))
  {
    LeadingEqualsDefeatsBaseAddress();
    LeadingEqualsModuleBase();
  }
}
