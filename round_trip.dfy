/** Reading back what the formatter writes. For an absolute pointer the
    reader recovers the pointer from its notation, provided the hex writer puts
    `0x` before digits that `parseUnsignedLong` reads back as the same value. A
    module-relative pointer does not come back: its notation holds only the
    module text, without the `(= 0x…)` part the reader needs. */
module RoundTrip {
  import opened Wrappers
  import opened Sequences
  import opened Longs
  import opened JavaText
  import opened MemoryPointers
  import opened PointerParser
  import opened PointerFormatter

  /** `h` is `0x` followed by digits that parse back to `v`. */
  predicate WritesHex(h: string, v: Long)
  {
    |h| >= 2 && h[..2] == HEXADECIMAL_HEADER && ParseUnsignedLong(h[2..]) == Some(v)
  }

  /** The hex writer, at this address size, writes every value readably. */
  predicate ReadableHex(hex: HexFormatter, addressSize: int)
  {
    forall v: Long :: WritesHex(hex(v, addressSize), v)
  }

  /** None of the characters the reader searches for: square and round
      brackets, space, `=`. */
  predicate Plain(s: string)
  {
    forall j :: 0 <= j < |s| ==>
      s[j] != '[' && s[j] != ']' && s[j] != ' ' && s[j] != '=' && s[j] != '(' && s[j] != ')'
  }

  lemma WrittenHexIsPlain(h: string, v: Long)
    requires WritesHex(h, v)
    ensures Plain(h)
  {
    var s := h[2..];
    var digits := if |s| > 0 && s[0] == '+' then s[1..] else s;
    assert AllHexDigits(digits);
    forall j | 0 <= j < |h|
      ensures h[j] != '[' && h[j] != ']' && h[j] != ' ' && h[j] != '=' && h[j] != '(' && h[j] != ')'
    {
      if j >= 2 && !(|s| > 0 && s[0] == '+' && j == 2) {
        if |s| > 0 && s[0] == '+' {
          assert h[j] == digits[j - 3];
        } else {
          assert h[j] == digits[j - 2];
        }
      }
    }
  }

  /** The offset terms laid out front to back, each after its own `] `. */
  function Terms(texts: seq<string>): string
  {
    if |texts| == 0 then "" else CLOSING_BRACKET_AND_SPACE + texts[0] + Terms(texts[1..])
  }

  lemma {:induction false} TermsJoin(texts: seq<string>)
    requires |texts| > 0
    ensures CLOSING_BRACKET_AND_SPACE + Join(texts, CLOSING_BRACKET_AND_SPACE) == Terms(texts)
    decreases |texts|
  {
    JoinFront(texts[0], texts[1..], CLOSING_BRACKET_AND_SPACE);
    assert [texts[0]] + texts[1..] == texts;
    if |texts| > 1 {
      TermsJoin(texts[1..]);
    }
  }

  /** `text` from position `k` on is `a` then `b`. */
  lemma SplitAt(text: string, k: nat, a: string, b: string)
    requires k <= |text| && text[k..] == a + b
    ensures k + |a| <= |text| && text[k..k + |a|] == a && text[k + |a|..] == b
  {
    assert text[k..][..|a|] == a;
    assert text[k..][|a|..] == b;
  }

  /** From the `]` at `k` that opens the first term, the next boundary is the
      end of that term, and the terms after it follow. */
  lemma FirstTerm(text: string, k: nat, texts: seq<string>)
    requires k <= |text| && text[k..] == Terms(texts)
    requires |texts| > 0 && Unbracketed(texts)
    ensures NextBoundary(text, k) == k + 2 + |texts[0]|
    ensures text[k + 2..k + 2 + |texts[0]|] == texts[0]
    ensures text[k + 2 + |texts[0]|..] == Terms(texts[1..])
    ensures TermText(text, k) == Some(texts[0])
  {
    var first := texts[0];
    var after := k + 2 + |first|;
    SplitAt(text, k, CLOSING_BRACKET_AND_SPACE + first, Terms(texts[1..]));
    SplitAt(text, k, CLOSING_BRACKET_AND_SPACE, first + Terms(texts[1..]));
    SplitAt(text, k + 2, first, Terms(texts[1..]));
    assert text[k + 1] == text[k..k + 2][1];
    forall j | k + 1 <= j < after
      ensures text[j] != ']'
    {
      if j > k + 1 {
        assert text[j] == first[j - k - 2];
      }
    }
    if |texts| == 1 {
      IndexOfFromIs(text, ']', k + 1, |text|);
    } else {
      assert text[after] == text[after..][0];
      IndexOfFromIs(text, ']', k + 1, after);
    }
  }

  /** No term holds a `]`. */
  predicate Unbracketed(texts: seq<string>)
  {
    forall t :: 0 <= t < |texts| ==> ']' !in texts[t]
  }

  lemma UnbracketedRest(texts: seq<string>)
    requires |texts| > 0 && Unbracketed(texts)
    ensures Unbracketed(texts[1..])
  {
    forall t | 0 <= t < |texts[1..]|
      ensures ']' !in texts[1..][t]
    {
      assert texts[1..][t] == texts[t + 1];
    }
  }

  /** The term the reader takes from the cursor `c`: from two characters after
      it up to the next boundary. */
  function TermText(text: string, c: int): Option<string>
  {
    Substring(text, c + 2, NextBoundary(text, c))
  }

  /** Moving `i` terms on from `k` is moving `i - 1` terms on from the next
      boundary. */
  lemma CursorShift(text: string, k: int, next: int, i: nat, term: string)
    requires i > 0 && NextBoundary(text, k) == next
    requires TermText(text, CursorFrom(text, next, i - 1)) == Some(term)
    ensures TermText(text, CursorFrom(text, k, i)) == Some(term)
  {
    assert CursorFrom(text, k, i) == CursorFrom(text, next, i - 1);
  }

  /** With the terms laid out from position `k` to the end of `text`, the
      cursor moved `i` terms on from `k` sits on the `]` before term `i`, and
      the reader takes term `i` exactly. */
  lemma {:induction false} CursorOverTerms(text: string, k: nat, texts: seq<string>, i: nat)
    requires k <= |text| && text[k..] == Terms(texts)
    requires Unbracketed(texts)
    requires i < |texts|
    ensures TermText(text, CursorFrom(text, k, i)) == Some(texts[i])
    decreases i
  {
    FirstTerm(text, k, texts);
    if i > 0 {
      var next := k + 2 + |texts[0]|;
      UnbracketedRest(texts);
      CursorOverTerms(text, next, texts[1..], i - 1);
      assert texts[1..][i - 1] == texts[i];
      CursorShift(text, k, next, i, texts[i]);
    }
  }

  /** A term whose hex, after its first four characters, parses to `v`
      reads as `v`, negated if the term starts with `-`. */
  lemma ReadsTerm(text: string, previous: int, inner: int, term: string, v: Long)
    requires Substring(text, previous + 2, inner) == Some(term)
    requires |term| >= 4 && ParseUnsignedLong(term[4..]) == Some(v)
    ensures OffsetTerm(text, previous, inner) == Some(if StartsWith(term, "-") then Neg(v) else v)
  {
    assert 2 + |HEXADECIMAL_HEADER| == 4;
    assert term[4..|term|] == term[4..];
    assert SubstringFrom(term, 4) == Some(term[4..]);
  }

  /** The term written for `offset` is a sign, a space and hex whose digits,
      after the first four characters, parse to the written magnitude; the
      sign undoes the negation the writer applied. */
  lemma WrittenTermReads(offset: Long, signedOffsets: bool, addressSize: int, hex: HexFormatter)
    requires ReadableHex(hex, addressSize)
    ensures var term := OffsetText(offset, signedOffsets, addressSize, hex);
            && |term| >= 4 && ParseUnsignedLong(term[4..]).Some?
            && offset == (if StartsWith(term, "-") then Neg(ParseUnsignedLong(term[4..]).value)
                          else ParseUnsignedLong(term[4..]).value)
  {
    var term := OffsetText(offset, signedOffsets, addressSize, hex);
    var written := if IsNegative(offset) && signedOffsets then Neg(offset) else offset;
    var h := hex(written, addressSize);
    assert WritesHex(h, written);
    assert term == (if IsNegative(offset) && signedOffsets then "- " else "+ ") + h;
    assert term[4..] == h[2..];
    assert StartsWith(term, "-") <==> IsNegative(offset) && signedOffsets by {
      assert term[..1] == [term[0]];
    }
    NegNeg(offset);
  }

  /** The reader takes the term written for `offset` back to `offset`. */
  lemma ReadsOffsetText(offset: Long, signedOffsets: bool, addressSize: int, hex: HexFormatter, text: string, previous: int)
    requires ReadableHex(hex, addressSize)
    requires TermText(text, previous) == Some(OffsetText(offset, signedOffsets, addressSize, hex))
    ensures OffsetTerm(text, previous, NextBoundary(text, previous)) == Some(offset)
  {
    var term := OffsetText(offset, signedOffsets, addressSize, hex);
    WrittenTermReads(offset, signedOffsets, addressSize, hex);
    ReadsTerm(text, previous, NextBoundary(text, previous), term, ParseUnsignedLong(term[4..]).value);
  }

  /** Every term is a sign, a space, then plain hex. */
  predicate TermShape(term: string)
  {
    |term| >= 2 && (term[0] == '+' || term[0] == '-') && term[1] == ' ' && Plain(term[2..])
  }

  lemma OffsetTextShape(offset: Long, signedOffsets: bool, addressSize: int, hex: HexFormatter)
    requires ReadableHex(hex, addressSize)
    ensures TermShape(OffsetText(offset, signedOffsets, addressSize, hex))
  {
    var written := if IsNegative(offset) && signedOffsets then Neg(offset) else offset;
    var h := hex(written, addressSize);
    assert WritesHex(h, written);
    WrittenHexIsPlain(h, written);
    assert OffsetText(offset, signedOffsets, addressSize, hex)[2..] == h;
  }

  /** The text after the base: it opens with `]` and holds no `[` and no `=`. */
  lemma TailLayout(texts: seq<string>)
    requires forall t :: 0 <= t < |texts| ==> TermShape(texts[t])
    ensures var tail := CLOSING_BRACKET_AND_SPACE + Join(texts, CLOSING_BRACKET_AND_SPACE);
            tail[0] == ']' && '[' !in tail && '=' !in tail
    ensures Unbracketed(texts)
  {
    forall t, j | 0 <= t < |texts| && 0 <= j < |texts[t]|
      ensures texts[t][j] != '[' && texts[t][j] != ']' && texts[t][j] != '='
    {
      if j >= 2 {
        assert texts[t][j] == texts[t][2..][j - 2];
      }
    }
    JoinAvoids(texts, CLOSING_BRACKET_AND_SPACE, '[');
    JoinAvoids(texts, CLOSING_BRACKET_AND_SPACE, '=');
  }

  /** The offsets of the notation read back one by one. */
  lemma OffsetsRead(p: MemoryPointer, signedOffsets: bool, addressSize: int, hex: HexFormatter, text: string, k: nat)
    requires ReadableHex(hex, addressSize)
    requires var texts := OffsetTexts(p.offsets, signedOffsets, addressSize, hex);
             Unbracketed(texts) && k <= |text| && text[k..] == Terms(texts) && IndexOf(text, CLOSING_BRACKET) == k
    ensures forall i: nat :: i < |p.offsets| ==> OffsetAt(text, i) == Some(p.offsets[i])
  {
    var texts := OffsetTexts(p.offsets, signedOffsets, addressSize, hex);
    forall i: nat | i < |p.offsets|
      ensures OffsetAt(text, i) == Some(p.offsets[i])
    {
      CursorOverTerms(text, k, texts, i);
      ReadsOffsetText(p.offsets[i], signedOffsets, addressSize, hex, text, Cursor(text, i));
    }
  }

  lemma TermShapes(p: MemoryPointer, signedOffsets: bool, addressSize: int, hex: HexFormatter)
    requires ReadableHex(hex, addressSize)
    ensures var texts := OffsetTexts(p.offsets, signedOffsets, addressSize, hex);
            forall t :: 0 <= t < |texts| ==> TermShape(texts[t])
  {
    var texts := OffsetTexts(p.offsets, signedOffsets, addressSize, hex);
    forall t | 0 <= t < |texts|
      ensures TermShape(texts[t])
    {
      OffsetTextShape(p.offsets[t], signedOffsets, addressSize, hex);
    }
  }

  /** The `[` count of brackets followed by text without `[`. */
  lemma DepthAfterBrackets(text: string, n: nat, rest: string)
    requires text == OpeningBrackets(n) + rest && '[' !in rest
    ensures PointerDepth(text) == n
  {
    CountUnchanged(OpeningBrackets(n), rest, '[');
    OpeningBracketsCount(n);
  }

  /** What the reader finds of the base in `n` brackets, the hex `h` of `v`,
      then the terms: the address, an absolute base, and one `[` per term. */
  lemma LayoutOf(text: string, n: nat, h: string, texts: seq<string>, v: Long)
    requires |texts| == n
    requires text == OpeningBrackets(n) + h + CLOSING_BRACKET_AND_SPACE + Join(texts, CLOSING_BRACKET_AND_SPACE)
    requires WritesHex(h, v)
    requires forall t :: 0 <= t < |texts| ==> TermShape(texts[t])
    ensures && ParseBaseAddress(text) == Some(v)
            && ParseBase(text) == Some((None, v))
            && PointerDepth(text) == n
  {
    var tail := CLOSING_BRACKET_AND_SPACE + Join(texts, CLOSING_BRACKET_AND_SPACE);
    AppendAssociative(OpeningBrackets(n) + h, CLOSING_BRACKET_AND_SPACE, Join(texts, CLOSING_BRACKET_AND_SPACE));
    WrittenHexIsPlain(h, v);
    TailLayout(texts);
    BaseRead(text, n, h, tail, v);
    assert '[' !in h + tail by {
      assert forall j :: 0 <= j < |h| ==> h[j] != '[';
    }
    AppendAssociative(OpeningBrackets(n), h, tail);
    DepthAfterBrackets(text, n, h + tail);
  }

  /** Where the terms start in `n` brackets, the hex `h` of `v`, then the
      terms: at the first `]`, and none of them holds a bracket. */
  lemma TermsLayout(text: string, n: nat, h: string, texts: seq<string>, v: Long)
    requires |texts| == n > 0
    requires text == OpeningBrackets(n) + h + CLOSING_BRACKET_AND_SPACE + Join(texts, CLOSING_BRACKET_AND_SPACE)
    requires WritesHex(h, v)
    requires forall t :: 0 <= t < |texts| ==> TermShape(texts[t])
    ensures && IndexOf(text, CLOSING_BRACKET) == n + |h|
            && Unbracketed(texts)
            && n + |h| <= |text| && text[n + |h|..] == Terms(texts)
  {
    var tail := CLOSING_BRACKET_AND_SPACE + Join(texts, CLOSING_BRACKET_AND_SPACE);
    AppendAssociative(OpeningBrackets(n) + h, CLOSING_BRACKET_AND_SPACE, Join(texts, CLOSING_BRACKET_AND_SPACE));
    WrittenHexIsPlain(h, v);
    TailLayout(texts);
    assert IndexOf(text, CLOSING_BRACKET) == n + |h| by {
      BaseLayout(text, n, h, tail);
    }
    TermsJoin(texts);
    SplitAt(text, 0, OpeningBrackets(n) + h, tail);
  }

  /** A text whose base and every offset read as those of `p` parses to `p`. */
  lemma ParsesTo(text: string, p: MemoryPointer)
    requires ParseBaseAddress(text).Some?
    requires ParseBase(text) == Some((p.baseModuleNameWithOffset, p.baseAddress))
    requires PointerDepth(text) == |p.offsets|
    requires forall i: nat :: i < |p.offsets| ==> OffsetAt(text, i) == Some(p.offsets[i])
    ensures Parse(text) == Success(p)
  {
    assert OffsetsReadable(text);
    assert Offsets(text) == p.offsets;
  }

  /** The base of the notation of an absolute pointer reads back: its address,
      as an absolute base, with one `[` per offset. */
  lemma FormatReadsBase(p: MemoryPointer, signedOffsets: bool, addressSize: int, hex: HexFormatter)
    requires p.baseModuleNameWithOffset.None?
    requires ReadableHex(hex, addressSize)
    ensures var text := Format(p, signedOffsets, addressSize, hex);
            && ParseBaseAddress(text).Some?
            && ParseBase(text) == Some((p.baseModuleNameWithOffset, p.baseAddress))
            && PointerDepth(text) == |p.offsets|
  {
    var h := hex(p.baseAddress, addressSize);
    assert WritesHex(h, p.baseAddress);
    TermShapes(p, signedOffsets, addressSize, hex);
    LayoutOf(Format(p, signedOffsets, addressSize, hex), |p.offsets|, h,
             OffsetTexts(p.offsets, signedOffsets, addressSize, hex), p.baseAddress);
  }

  /** Each offset of the notation of an absolute pointer reads back. */
  lemma FormatReadsOffsets(p: MemoryPointer, signedOffsets: bool, addressSize: int, hex: HexFormatter)
    requires p.baseModuleNameWithOffset.None?
    requires ReadableHex(hex, addressSize)
    ensures var text := Format(p, signedOffsets, addressSize, hex);
            forall i: nat :: i < |p.offsets| ==> OffsetAt(text, i) == Some(p.offsets[i])
  {
    var text := Format(p, signedOffsets, addressSize, hex);
    var h := hex(p.baseAddress, addressSize);
    assert WritesHex(h, p.baseAddress);
    TermShapes(p, signedOffsets, addressSize, hex);
    if |p.offsets| > 0 {
      TermsLayout(text, |p.offsets|, h, OffsetTexts(p.offsets, signedOffsets, addressSize, hex), p.baseAddress);
      OffsetsRead(p, signedOffsets, addressSize, hex, text, |p.offsets| + |h|);
    }
  }

  /** Round trip: reading the notation of an absolute pointer gives the pointer
      back, in either offset printing mode. */
  lemma FormatThenParse(p: MemoryPointer, signedOffsets: bool, addressSize: int, hex: HexFormatter)
    requires p.baseModuleNameWithOffset.None?
    requires ReadableHex(hex, addressSize)
    ensures Parse(Format(p, signedOffsets, addressSize, hex)) == Success(p)
  {
    FormatReadsBase(p, signedOffsets, addressSize, hex);
    FormatReadsOffsets(p, signedOffsets, addressSize, hex);
    ParsesTo(Format(p, signedOffsets, addressSize, hex), p);
  }

  /** Where the reader's searches land in `n` brackets, the hex `h`, then a
      tail that starts with `]`. */
  lemma BaseLayout(text: string, n: nat, h: string, tail: string)
    requires text == OpeningBrackets(n) + h + tail
    requires |h| >= 2 && h[..2] == HEXADECIMAL_HEADER && Plain(h)
    requires |tail| >= 1 && tail[0] == ']' && '=' !in tail && '[' !in tail
    ensures IndexOf(text, CLOSING_BRACKET) == n + |h|
    ensures IndexOfText(text, HEXADECIMAL_HEADER) == n
    ensures EQUALS_SIGN !in text
    ensures IndexOf(text, OPENING_BRACKET) == if n == 0 then -1 else 0
  {
    var k := n + |h|;
    assert text[k] == ']';
    forall j | 0 <= j < |text|
      ensures text[j] != '='
      ensures j < k ==> text[j] != ']'
      ensures n == 0 ==> text[j] != '['
    {
      if j >= k {
        assert text[j] == tail[j - k];
      } else if j >= n {
        assert text[j] == h[j - n];
      }
    }
    assert text[n..n + 2] == HEXADECIMAL_HEADER;
    assert OccursAt(text, HEXADECIMAL_HEADER, n);
    forall j | 0 <= j < n
      ensures !OccursAt(text, HEXADECIMAL_HEADER, j)
    {
      assert text[j] == '[';
    }
    IndexOfTextFromIs(text, HEXADECIMAL_HEADER, 0, n);
    IndexOfFromIs(text, CLOSING_BRACKET, 0, k);
    if n == 0 {
      IndexOfFromIs(text, OPENING_BRACKET, 0, |text|);
    } else {
      assert text[0] == '[';
      IndexOfFromIs(text, OPENING_BRACKET, 0, 0);
    }
  }

  /** `parseBaseAddress` reads the hex `h` written after `n` brackets. */
  lemma BaseAddressRead(text: string, n: nat, h: string, tail: string, v: Long)
    requires text == OpeningBrackets(n) + h + tail
    requires WritesHex(h, v) && Plain(h)
    requires |tail| >= 1 && tail[0] == ']' && '=' !in tail && '[' !in tail
    ensures ParseBaseAddress(text) == Some(v)
  {
    assert EQUALS_SIGN !in text && IndexOf(text, CLOSING_BRACKET) == n + |h|
        && IndexOfText(text, HEXADECIMAL_HEADER) == n by {
      BaseLayout(text, n, h, tail);
    }
    assert AddressAfterHeader(text) == Some(v) by {
      assert text[n + 2..n + |h|] == h[2..];
    }
  }

  /** The base expression, from after the first `[` (or from the start when
      there is none) up to the first `]`, is the written hex, which holds no
      space. */
  lemma BaseExpressionHasNoSpace(text: string, n: nat, h: string, tail: string)
    requires text == OpeningBrackets(n) + h + tail
    requires Plain(h) && |tail| >= 1
    ensures var start := if n == 0 then 0 else 1;
            && start <= n + |h| <= |text|
            && ' ' !in text[start..n + |h|]
  {
    var k := n + |h|;
    var start := if n == 0 then 0 else 1;
    forall j | 0 <= j < k
      ensures text[j] != ' '
    {
      if j >= n {
        assert text[j] == h[j - n];
      }
    }
    forall i | 0 <= i < k - start
      ensures text[start..k][i] != ' '
    {
      assert text[start..k][i] == text[start + i];
    }
  }

  /** `ParseBase` of a text whose base expression holds no space: no module,
      and the address `parseBaseAddress` reads. */
  lemma AbsoluteParseBase(text: string, expression: string, v: Long)
    requires Substring(text, IndexOf(text, OPENING_BRACKET) + 1, IndexOf(text, CLOSING_BRACKET)) == Some(expression)
    requires ' ' !in expression
    requires ParseBaseAddress(text) == Some(v)
    ensures ParseBase(text) == Some((None, v))
  {
  }

  /** The base expression holds no space, so the base is read as absolute. */
  lemma BaseRead(text: string, n: nat, h: string, tail: string, v: Long)
    requires text == OpeningBrackets(n) + h + tail
    requires WritesHex(h, v) && Plain(h)
    requires |tail| >= 1 && tail[0] == ']' && '=' !in tail && '[' !in tail
    ensures ParseBaseAddress(text) == Some(v)
    ensures ParseBase(text) == Some((None, v))
  {
    var k := n + |h|;
    var start := if n == 0 then 0 else 1;
    assert IndexOf(text, CLOSING_BRACKET) == k
        && IndexOf(text, OPENING_BRACKET) == start - 1 by {
      BaseLayout(text, n, h, tail);
    }
    BaseAddressRead(text, n, h, tail, v);
    BaseExpressionHasNoSpace(text, n, h, tail);
    AbsoluteParseBase(text, text[start..k], v);
  }

  // ---------------------------------------------------------------------------
  // Module-relative bases

  /** The base expression of a module-relative pointer with `n` offsets, as
      the reader expects it: the further `n - 1` brackets, the module name, a
      space, then `(= 0x`, the hex digits of the address and `)`. */
  function ModuleExpression(n: nat, name: string, digits: string): string
    requires n > 0
  {
    OpeningBrackets(n - 1) + name + " (= 0x" + digits + ")"
  }

  /** The layout of a module expression, with `m` the length of the text
      before the space: ` (= 0x`, the digits and `)` follow, and `]` does not
      occur while `(`, `=` and `)` occur once each. */
  predicate ModuleShaped(expression: string, m: nat, digits: string)
  {
    && |expression| == m + 7 + |digits|
    && expression[m] == ' ' && expression[m + 1] == '(' && expression[m + 2] == '='
    && expression[m + 6 + |digits|] == ')'
    && expression[m + 6..m + 6 + |digits|] == digits
    && (forall j :: 0 <= j < |expression| ==> expression[j] != ']')
    && (forall j :: 0 <= j < |expression| && j != m + 1 ==> expression[j] != '(')
    && (forall j :: 0 <= j < |expression| && j != m + 2 ==> expression[j] != '=')
    && (forall j :: 0 <= j < |expression| && j != m + 6 + |digits| ==> expression[j] != ')')
  }

  lemma ModuleExpressionChars(n: nat, name: string, digits: string)
    requires n > 0 && Plain(name) && Plain(digits)
    ensures ModuleShaped(ModuleExpression(n, name, digits), n - 1 + |name|, digits)
    ensures ModuleExpression(n, name, digits)[..n - 1 + |name|] == OpeningBrackets(n - 1) + name
  {
    var expression := ModuleExpression(n, name, digits);
    var m := n - 1 + |name|;
    forall j | 0 <= j < |expression|
      ensures expression[j] != ']'
      ensures j != m + 1 ==> expression[j] != '('
      ensures j != m + 2 ==> expression[j] != '='
      ensures j != m + 6 + |digits| ==> expression[j] != ')'
    {
      if n - 1 <= j < m {
        assert expression[j] == name[j - n + 1];
      } else if m + 6 <= j < m + 6 + |digits| {
        assert expression[j] == digits[j - m - 6];
      }
    }
  }

  /** Where the searches for `(`, `=` and `)` land in a module-shaped
      expression: the text before `(` less one character is the text before
      the space, and the digits lie between `= 0x` and `)`. */
  lemma ModuleShapeParts(expression: string, m: nat, digits: string)
    requires ModuleShaped(expression, m, digits)
    ensures ' ' in expression
    ensures Substring(expression, 0, IndexOf(expression, OPENING_ROUNDED_BRACKET) - 1) == Some(expression[..m])
    ensures Substring(expression, IndexOf(expression, EQUALS_SIGN) + 2 + |HEXADECIMAL_HEADER|,
                      IndexOf(expression, CLOSING_ROUNDED_BRACKET)) == Some(digits)
  {
    IndexOfFromIs(expression, OPENING_ROUNDED_BRACKET, 0, m + 1);
    IndexOfFromIs(expression, EQUALS_SIGN, 0, m + 2);
    IndexOfFromIs(expression, CLOSING_ROUNDED_BRACKET, 0, m + 6 + |digits|);
  }

  /** The module branch reads the module text and the address of the digits
      it finds. */
  lemma ModuleBaseOf(expression: string, moduleText: string, digits: string, v: Long)
    requires Substring(expression, 0, IndexOf(expression, OPENING_ROUNDED_BRACKET) - 1) == Some(moduleText)
    requires Substring(expression, IndexOf(expression, EQUALS_SIGN) + 2 + |HEXADECIMAL_HEADER|,
                       IndexOf(expression, CLOSING_ROUNDED_BRACKET)) == Some(digits)
    requires ParseUnsignedLong(digits) == Some(v)
    ensures ParseModuleBase(expression) == Some((Some(moduleText), v))
  {
  }

  /** The module-relative reading of a module expression: the text before
      `(` less one character, and the address of the digits after `= 0x` up to
      `)`. */
  lemma ModuleExpressionRead(n: nat, name: string, digits: string, v: Long)
    requires n > 0 && Plain(name) && Plain(digits)
    requires ParseUnsignedLong(digits) == Some(v)
    ensures ' ' in ModuleExpression(n, name, digits)
    ensures ParseModuleBase(ModuleExpression(n, name, digits)) == Some((Some(OpeningBrackets(n - 1) + name), v))
  {
    var expression := ModuleExpression(n, name, digits);
    var m := n - 1 + |name|;
    assert ModuleShaped(expression, m, digits) && expression[..m] == OpeningBrackets(n - 1) + name by {
      ModuleExpressionChars(n, name, digits);
    }
    ModuleShapeParts(expression, m, digits);
    ModuleBaseOf(expression, OpeningBrackets(n - 1) + name, digits, v);
  }

  /** The characters of `[` + module expression + `]` + anything, up to the
      closing bracket at `close`. */
  lemma ModuleChars(text: string, n: nat, name: string, digits: string, rest: string)
    requires n > 0
    requires text == "[" + ModuleExpression(n, name, digits) + "]" + rest
    ensures var close := n + |name| + 7 + |digits|;
            && close < |text| && text[0] == '[' && text[close] == ']'
            && text[1..close] == ModuleExpression(n, name, digits)
  {
  }

  /** Where the searches for `=` and `)` land in `[` + module-shaped
      expression + anything, and the digits between them. */
  lemma ModuleEquals(text: string, expression: string, m: nat, digits: string)
    requires ModuleShaped(expression, m, digits)
    requires m + 8 + |digits| <= |text| && text[0] == '[' && text[1..m + 8 + |digits|] == expression
    ensures && EQUALS_SIGN in text
            && IndexOf(text, EQUALS_SIGN) == m + 3
            && IndexOf(text, CLOSING_ROUNDED_BRACKET) == m + 7 + |digits|
            && text[m + 7..m + 7 + |digits|] == digits
  {
    var close := m + 8 + |digits|;
    forall j | 1 <= j < close
      ensures text[j] == expression[j - 1]
    {
      assert text[j] == text[1..close][j - 1];
    }
    IndexOfFromIs(text, EQUALS_SIGN, 0, m + 3);
    IndexOfFromIs(text, CLOSING_ROUNDED_BRACKET, 0, m + 7 + |digits|);
    assert text[m + 7..m + 7 + |digits|] == expression[m + 6..m + 6 + |digits|];
  }

  /** Digits `parseUnsignedLong` accepts hold none of the searched-for
      characters. */
  lemma ParsedDigitsArePlain(digits: string, v: Long)
    requires ParseUnsignedLong(digits) == Some(v)
    ensures Plain(digits)
  {
    assert WritesHex(HEXADECIMAL_HEADER + digits, v) by {
      assert (HEXADECIMAL_HEADER + digits)[2..] == digits;
    }
    WrittenHexIsPlain(HEXADECIMAL_HEADER + digits, v);
    forall j | 0 <= j < |digits|
      ensures digits[j] != '[' && digits[j] != ']' && digits[j] != ' '
      ensures digits[j] != '=' && digits[j] != '(' && digits[j] != ')'
    {
      assert digits[j] == (HEXADECIMAL_HEADER + digits)[j + 2];
    }
  }

  /** `parseBaseAddress` of a line with an `=`: the text from four characters
      after the first `=` up to the first `)`. */
  lemma EqualsBaseAddress(text: string, e: nat, close: nat, digits: string, v: Long)
    requires EQUALS_SIGN in text && IndexOf(text, EQUALS_SIGN) == e
    requires IndexOf(text, CLOSING_ROUNDED_BRACKET) == close
    requires e + 4 <= close <= |text| && text[e + 4..close] == digits
    requires ParseUnsignedLong(digits) == Some(v)
    ensures ParseBaseAddress(text) == Some(v)
  {
    assert AddressAfterEquals(text) == Some(v) by {
      assert Substring(text, e + 2 + |HEXADECIMAL_HEADER|, close) == Some(digits);
    }
  }


  /** `ParseBase` of a text whose base expression reads as a module. */
  lemma ModuleParseBase(text: string, k: nat, expression: string, moduleText: string, v: Long)
    requires IndexOf(text, OPENING_BRACKET) == 0 && IndexOf(text, CLOSING_BRACKET) == k && 1 <= k
    requires text[1..k] == expression && ' ' in expression
    requires ParseModuleBase(expression) == Some((Some(moduleText), v))
    ensures ParseBase(text) == Some((Some(moduleText), v))
  {
    assert Substring(text, 1, k) == Some(expression);
  }

  /** `ParseBase` of a text that opens with `[`, a base expression without `]`
      that reads as a module, and `]`. */
  lemma ModuleExpressionBase(text: string, k: nat, expression: string, moduleText: string, v: Long)
    requires 1 <= k < |text| && text[0] == '[' && text[k] == ']' && text[1..k] == expression
    requires CLOSING_BRACKET !in expression && ' ' in expression
    requires ParseModuleBase(expression) == Some((Some(moduleText), v))
    ensures ParseBase(text) == Some((Some(moduleText), v))
  {
    forall j | 0 <= j < k
      ensures text[j] != CLOSING_BRACKET
    {
      if j > 0 {
        assert text[j] == expression[j - 1];
      }
    }
    IndexOfFromIs(text, OPENING_BRACKET, 0, 0);
    IndexOfFromIs(text, CLOSING_BRACKET, 0, k);
    ModuleParseBase(text, k, expression, moduleText, v);
  }

  /** `parseBaseAddress` of a text that opens with `[` and a module-shaped
      expression is the address of the expression's digits. */
  lemma ModuleExpressionAddress(text: string, expression: string, m: nat, digits: string, v: Long)
    requires ModuleShaped(expression, m, digits)
    requires m + 8 + |digits| <= |text| && text[0] == '[' && text[1..m + 8 + |digits|] == expression
    requires ParseUnsignedLong(digits) == Some(v)
    ensures ParseBaseAddress(text) == Some(v)
  {
    ModuleEquals(text, expression, m, digits);
    EqualsBaseAddress(text, m + 3, m + 7 + |digits|, digits, v);
  }

  /** `parseBaseAddress` of a module-relative line `[` + `[…[name (= 0x<digits>)`
      + `]` + anything is the address the digits denote. */
  lemma ModuleRelativeAddress(n: nat, name: string, digits: string, rest: string, v: Long)
    requires n > 0 && Plain(name)
    requires ParseUnsignedLong(digits) == Some(v)
    ensures ParseBaseAddress("[" + ModuleExpression(n, name, digits) + "]" + rest) == Some(v)
  {
    var expression := ModuleExpression(n, name, digits);
    var text := "[" + expression + "]" + rest;
    var m := n - 1 + |name|;
    assert ModuleShaped(expression, m, digits) by {
      ParsedDigitsArePlain(digits, v);
      ModuleExpressionChars(n, name, digits);
    }
    assert m + 8 + |digits| <= |text| && text[0] == '[' && text[1..m + 8 + |digits|] == expression by {
      ModuleChars(text, n, name, digits, rest);
    }
    ModuleExpressionAddress(text, expression, m, digits, v);
  }

  /** A module-relative base `[` + `[…[name (= 0x<digits>)` + `]` reads as the
      module text `[…[name` (every bracket after the first stays in it) and
      the address the digits denote. */
  lemma ModuleRelativeBase(n: nat, name: string, digits: string, rest: string, v: Long)
    requires n > 0 && Plain(name)
    requires ParseUnsignedLong(digits) == Some(v)
    ensures ParseBase("[" + ModuleExpression(n, name, digits) + "]" + rest)
            == Some((Some(OpeningBrackets(n - 1) + name), v))
  {
    var expression := ModuleExpression(n, name, digits);
    var text := "[" + expression + "]" + rest;
    var close := n + |name| + 7 + |digits|;
    assert 1 <= close < |text| && text[0] == '[' && text[close] == ']' && text[1..close] == expression by {
      ModuleChars(text, n, name, digits, rest);
    }
    assert && CLOSING_BRACKET !in expression && ' ' in expression
           && ParseModuleBase(expression) == Some((Some(OpeningBrackets(n - 1) + name), v)) by {
      ParsedDigitsArePlain(digits, v);
      ModuleExpressionRead(n, name, digits, v);
      ModuleExpressionChars(n, name, digits);
    }
    ModuleExpressionBase(text, close, expression, OpeningBrackets(n - 1) + name, v);
  }

  /** The hex writers the round trip speaks of exist: `0x` and the shortest
      lower-case digits. */
  lemma ShortestHexIsReadable(addressSize: int)
    ensures ReadableHex((v: Long, size: int) => HEXADECIMAL_HEADER + HexDigitsOf(v), addressSize)
  {
    var hex := (v: Long, size: int) => HEXADECIMAL_HEADER + HexDigitsOf(v);
    forall v: Long
      ensures WritesHex(hex(v, addressSize), v)
    {
      ParseUnsignedLongRoundTrip(v);
      assert hex(v, addressSize)[2..] == HexDigitsOf(v);
    }
  }

  /** A writer in the manner of a fixed-width hex formatter: `0x`, then the
      digits padded with zeros on the left to two per byte of the address
      size (longer values are not cut). */
  function PaddedHex(v: Long, addressSize: int): (h: string)
    ensures |h| >= 2 + 2 * addressSize
  {
    var digits := HexDigitsOf(v);
    var padding := if 2 * addressSize > |digits| then 2 * addressSize - |digits| else 0;
    HEXADECIMAL_HEADER + Repeat('0', padding) + digits
  }

  /** The zero-padding writer writes every value readably. */
  lemma PaddedHexWrites(v: Long, addressSize: int)
    ensures WritesHex(PaddedHex(v, addressSize), v)
  {
    var digits := HexDigitsOf(v);
    var padding := if 2 * addressSize > |digits| then 2 * addressSize - |digits| else 0;
    ParseUnsignedLongPadded(v, padding);
    assert PaddedHex(v, addressSize)[2..] == Repeat('0', padding) + digits;
  }

  /** The round trip holds for the zero-padding writer. */
  lemma PaddedHexIsReadable(addressSize: int)
    ensures ReadableHex((v: Long, size: int) => PaddedHex(v, size), addressSize)
  {
    forall v: Long
      ensures WritesHex(PaddedHex(v, addressSize), v)
    {
      PaddedHexWrites(v, addressSize);
    }
  }
}
