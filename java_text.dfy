/** The `java.lang.String` and `java.lang.Long` operations the pointer notation
    is read and written with. Each throwing operation returns an `Option` whose
    `None` stands for the exception. */
module JavaText {
  import opened Wrappers
  import opened Longs
  import opened Sequences

  /** `s.indexOf(c, from)`: the first position at or after `from` that holds `c`,
      or -1. A negative `from` searches the whole string. */
  function IndexOfFrom(s: string, c: char, from: int): (k: int)
    ensures -1 <= k < |s|
    ensures k >= 0 ==> from <= k && s[k] == c
    decreases |s| - from
  {
    if from >= |s| then -1
    else if from < 0 then IndexOfFrom(s, c, 0)
    else if s[from] == c then from
    else IndexOfFrom(s, c, from + 1)
  }

  /** `s.indexOf(c)` */
  function IndexOf(s: string, c: char): int
  {
    IndexOfFrom(s, c, 0)
  }

  /** The search from `from` stops at the first `c`: it gives `k` when `s[k]`
      is `c` and no position from `from` up to `k` holds `c`, and -1 when no
      position from `from` on holds `c` (`k` is then `|s|`). */
  lemma {:induction false} IndexOfFromIs(s: string, c: char, from: nat, k: nat)
    requires from <= k <= |s|
    requires forall j :: from <= j < k ==> s[j] != c
    requires k < |s| ==> s[k] == c
    ensures IndexOfFrom(s, c, from) == if k == |s| then -1 else k
    decreases k - from
  {
    if from < k {
      IndexOfFromIs(s, c, from + 1, k);
    }
  }

  /** The first occurrence of `c` is at `k` when `c` is there and not before. */
  lemma IndexOfIs(s: string, c: char, k: nat)
    requires k < |s| && s[k] == c && c !in s[..k]
    ensures IndexOf(s, c) == k
  {
    assert forall j :: 0 <= j < k ==> s[..k][j] == s[j];
    IndexOfFromIs(s, c, 0, k);
  }

  /** `t` occurs in `s` starting at position `j`. */
  predicate OccursAt(s: string, t: string, j: int)
  {
    0 <= j && j + |t| <= |s| && s[j..j + |t|] == t
  }

  /** `s.indexOf(t, from)` for a non-negative `from`: the first position at or
      after `from` where `t` occurs, or -1. */
  function IndexOfTextFrom(s: string, t: string, from: nat): (k: int)
    ensures k == -1 || (from <= k && OccursAt(s, t, k))
    decreases |s| - from
  {
    if from + |t| > |s| then -1
    else if s[from..from + |t|] == t then from
    else IndexOfTextFrom(s, t, from + 1)
  }

  /** The search for `t` from `from` lands on `k` when `t` occurs at `k` and at
      no position in between; it is the first match, so no later match
      changes it. */
  lemma {:induction false} IndexOfTextFromIs(s: string, t: string, from: nat, k: nat)
    requires from <= k && OccursAt(s, t, k)
    requires forall j :: from <= j < k ==> !OccursAt(s, t, j)
    ensures IndexOfTextFrom(s, t, from) == k
    decreases k - from
  {
    if from < k {
      assert !OccursAt(s, t, from);
      IndexOfTextFromIs(s, t, from + 1, k);
    }
  }

  /** `s.indexOf(t)` */
  function IndexOfText(s: string, t: string): int
  {
    IndexOfTextFrom(s, t, 0)
  }

  /** `s.substring(begin, end)`, which throws unless `0 <= begin <= end <= s.length()`. */
  function Substring(s: string, begin: int, end: int): Option<string>
  {
    if 0 <= begin <= end <= |s| then Some(s[begin..end]) else None
  }

  /** `s.substring(begin)` */
  function SubstringFrom(s: string, begin: int): Option<string>
  {
    Substring(s, begin, |s|)
  }

  /** `s.startsWith(prefix)` */
  predicate StartsWith(s: string, prefix: string)
  {
    |prefix| <= |s| && s[..|prefix|] == prefix
  }

  // ---------------------------------------------------------------------------
  // Long.parseUnsignedLong(s, 16)

  /** A digit `Character.digit(c, 16)` accepts (ASCII forms only). */
  predicate IsHexDigit(c: char)
  {
    '0' <= c <= '9' || 'a' <= c <= 'f' || 'A' <= c <= 'F'
  }

  predicate AllHexDigits(s: string)
  {
    forall i :: 0 <= i < |s| ==> IsHexDigit(s[i])
  }

  function DigitValue(c: char): (d: nat)
    requires IsHexDigit(c)
    ensures d < 16
  {
    if '0' <= c <= '9' then c as int - '0' as int
    else if 'a' <= c <= 'f' then c as int - 'a' as int + 10
    else c as int - 'A' as int + 10
  }

  /** The number a string of hex digits denotes, most significant digit first. */
  function HexValue(digits: string): nat
    requires AllHexDigits(digits)
  {
    if |digits| == 0 then 0
    else HexValue(digits[..|digits| - 1]) * 16 + DigitValue(digits[|digits| - 1])
  }

  /** `Long.parseUnsignedLong(s, 16)`: an optional leading `+`, then at least one
      hex digit, denoting a value below 2^64; anything else throws
      `NumberFormatException` (a leading `-` included). */
  function ParseUnsignedLong(s: string): Option<Long>
  {
    var digits := if |s| > 0 && s[0] == '+' then s[1..] else s;
    if |digits| > 0 && AllHexDigits(digits) && HexValue(digits) < TWO_TO_THE_64
    then Some(HexValue(digits))
    else None
  }

  /** The lower-case hex digit for a value below 16. */
  function HexDigit(d: nat): (c: char)
    requires d < 16
    ensures IsHexDigit(c) && DigitValue(c) == d
  {
    if d < 10 then ('0' as int + d) as char else ('a' as int + d - 10) as char
  }

  /** The shortest lower-case hex digit string of `n`: a reference encoder for
      `ParseUnsignedLong`. */
  function HexDigitsOf(n: nat): (s: string)
    ensures 0 < |s| && AllHexDigits(s)
    decreases n
  {
    if n < 16 then [HexDigit(n)] else HexDigitsOf(n / 16) + [HexDigit(n % 16)]
  }

  lemma {:induction false} HexValueOfDigits(n: nat)
    ensures HexValue(HexDigitsOf(n)) == n
    decreases n
  {
    if n >= 16 {
      var s := HexDigitsOf(n);
      assert s[..|s| - 1] == HexDigitsOf(n / 16);
      HexValueOfDigits(n / 16);
    }
  }

  /** Every `long` printed in hex is read back by `parseUnsignedLong`. */
  lemma ParseUnsignedLongRoundTrip(v: Long)
    ensures ParseUnsignedLong(HexDigitsOf(v)) == Some(v)
  {
    HexValueOfDigits(v);
  }

  /** Leading zeros do not change the value: zero-padded hex text, as a
      fixed-width formatter writes it, reads as the same number. */
  lemma {:induction false} HexValueLeadingZero(digits: string)
    requires AllHexDigits(digits)
    ensures AllHexDigits("0" + digits) && HexValue("0" + digits) == HexValue(digits)
    decreases |digits|
  {
    if |digits| > 0 {
      var padded := "0" + digits;
      assert padded[..|padded| - 1] == "0" + digits[..|digits| - 1];
      HexValueLeadingZero(digits[..|digits| - 1]);
    }
  }

  /** Any number of leading zeros leaves the value of hex digits unchanged. */
  lemma {:induction false} HexValueLeadingZeros(k: nat, digits: string)
    requires AllHexDigits(digits)
    ensures AllHexDigits(Repeat('0', k) + digits) && HexValue(Repeat('0', k) + digits) == HexValue(digits)
    decreases k
  {
    if k > 0 {
      HexValueLeadingZeros(k - 1, digits);
      assert Repeat('0', k) + digits == "0" + (Repeat('0', k - 1) + digits);
      HexValueLeadingZero(Repeat('0', k - 1) + digits);
    } else {
      assert Repeat('0', k) + digits == digits;
    }
  }

  /** Every `long` printed in hex and padded with zeros on the left is read
      back by `parseUnsignedLong`. */
  lemma ParseUnsignedLongPadded(v: Long, k: nat)
    ensures ParseUnsignedLong(Repeat('0', k) + HexDigitsOf(v)) == Some(v)
  {
    HexValueOfDigits(v);
    HexValueLeadingZeros(k, HexDigitsOf(v));
    var padded := Repeat('0', k) + HexDigitsOf(v);
    assert padded[0] != '+' by {
      assert IsHexDigit(padded[0]);
    }
  }

  // ---------------------------------------------------------------------------
  // String.trim()

  /** A character `trim()` removes: any code point up to and including space. */
  predicate IsBlank(c: char)
  {
    c <= ' '
  }

  /** The number of blank characters at the start of `s`. */
  function LeadingBlanks(s: string): (k: nat)
    ensures k <= |s|
    ensures forall j :: 0 <= j < k ==> IsBlank(s[j])
    ensures k < |s| ==> !IsBlank(s[k])
  {
    if |s| == 0 || !IsBlank(s[0]) then 0 else 1 + LeadingBlanks(s[1..])
  }

  /** The number of blank characters at the end of `s`. */
  function TrailingBlanks(s: string): (k: nat)
    ensures k <= |s|
    ensures forall j :: |s| - k <= j < |s| ==> IsBlank(s[j])
    ensures k < |s| ==> !IsBlank(s[|s| - 1 - k])
  {
    if |s| == 0 || !IsBlank(s[|s| - 1]) then 0 else 1 + TrailingBlanks(s[..|s| - 1])
  }

  /** `s.trim()`: `s` without its leading and trailing blanks. */
  function Trim(s: string): (r: string)
    ensures |r| == 0 || (!IsBlank(r[0]) && !IsBlank(r[|r| - 1]))
    ensures |s| == 0 || (!IsBlank(s[0]) && !IsBlank(s[|s| - 1])) ==> r == s
    ensures exists i, j :: && 0 <= i <= j <= |s| && r == s[i..j]
                           && (forall k :: 0 <= k < i ==> IsBlank(s[k]))
                           && (forall k :: j <= k < |s| ==> IsBlank(s[k]))
  {
    var start := LeadingBlanks(s);
    var rest := s[start..];
    var trailing := TrailingBlanks(rest);
    BlankTail(s, start, trailing);
    BlankEnds(s, start, |s| - trailing);
    rest[..|rest| - trailing]
  }

  /** The trailing blanks of `s[start..]` are trailing blanks of `s`, and what
      precedes them is a slice of `s`. */
  lemma BlankTail(s: string, start: nat, trailing: nat)
    requires start + trailing <= |s|
    requires forall j :: |s| - start - trailing <= j < |s| - start ==> IsBlank(s[start..][j])
    ensures s[start..][..|s| - start - trailing] == s[start..|s| - trailing]
    ensures forall k :: |s| - trailing <= k < |s| ==> IsBlank(s[k])
  {
    forall k | |s| - trailing <= k < |s|
      ensures IsBlank(s[k])
    {
      assert s[k] == s[start..][k - start];
    }
  }

  /** A slice with only blanks before and after it. */
  lemma BlankEnds(s: string, i: nat, j: nat)
    requires i <= j <= |s|
    requires forall k :: 0 <= k < i ==> IsBlank(s[k])
    requires forall k :: j <= k < |s| ==> IsBlank(s[k])
    ensures exists i', j' :: && 0 <= i' <= j' <= |s| && s[i..j] == s[i'..j']
                             && (forall k :: 0 <= k < i' ==> IsBlank(s[k]))
                             && (forall k :: j' <= k < |s| ==> IsBlank(s[k]))
  {
    var i', j' := i, j;
    assert && 0 <= i' <= j' <= |s| && s[i..j] == s[i'..j']
           && (forall k :: 0 <= k < i' ==> IsBlank(s[k]))
           && (forall k :: j' <= k < |s| ==> IsBlank(s[k]));
  }

  /** Trimming twice trims no more than trimming once. */
  lemma TrimIdempotent(s: string)
    ensures Trim(Trim(s)) == Trim(s)
  {
  }
}
