# MemoryPointer, modelled and verified in Dafny

This project models `MemoryPointer`, the multi-level pointer of a pointer
search tool for game-console memory. A pointer has a base, which is an
absolute 64-bit address or a module-relative text with its resolved address.
It also has an ordered list of 64-bit offsets. The class does three things,
and the model covers each:

- **Resolving** a pointer against a memory snapshot, which maps addresses to
  values (`followPointer`, `reachesDestination`). Module `ChainResolver` has
  two parts. The first is a method whose `while` loop stands for the Java
  `for` loop; it keeps the current address and a set of visited addresses. The second is a pure specification, a walk
  and the trail of visited addresses. The method is proved equal to the
  specification, with and without cycle exclusion and in raw-value mode.
- **Reading** the bracket notation `[[0x80001000] + 0x10] - 0x4`
  (`parseMemoryPointer`, `parseBaseAddress`). Module `PointerParser` works on
  character positions, as the Java does, though a position here counts
  Unicode characters rather than UTF-16 code units (see "## Left out"). Every `indexOf` gives -1
  when nothing is found, and every `substring` that is out of bounds or
  every bad number throws, here `None`. The offset loop is a method that
  fills an array. It is proved to read, term by term, the offsets a
  closed-form cursor function denotes.
- **Writing** the notation (`toString(signedOffsets, addressSize)`,
  `toString()`, and the static list `toString`). Module `PointerFormatter`
  models the `StringBuilder` loops as methods. They are proved equal to a
  `Format` specification, and properties are proved about that
  specification.

Module `RoundTrip` proves that reading what the formatter writes gives the
pointer back, under two conditions. The pointer must be absolute. The hex
writer must write `0x` and digits that read back as the same value. The
writer is `DataConversions.toHexadecimal`, which is not part of this model,
so the second condition is a hypothesis. The lemmas exhibit writers that
meet it: the shortest digits, and digits zero-padded to the address width.
For a module-relative pointer written in the `name (= 0x<digits>)` form the
reader expects, only the address reads back: the module text reads as
`[…[name`, with the opening brackets but one kept and without the
`(= 0x…)` part, not as the text written. Module `Longs` writes out Java's
64-bit and 32-bit wrap-around arithmetic. Module `JavaText` models the `String` and `Long`
operations the class uses.

Behaviour the model follows because the code does it:

- The display value of a negative offset in signed mode,
  `Integer.MAX_VALUE + Math.abs(Integer.MIN_VALUE) - offset + 1`, is the
  full 64-bit negation of the offset, not a 32-bit one. The absolute value
  wraps to `Integer.MIN_VALUE`, so the `int` sum is -1, which widens to the `long` -1. See `Longs.DisplayedOffsetIsNegation`.
- The pointer depth counts every `[` of the text, the base's bracket
  included. A text therefore needs one `[` per offset.
- In a module-relative base, the module text keeps the base's extra opening
  brackets: `[[name (= 0x10)] + 0x4] + 0x8` reads as module text `[name`.
  The address is read from four characters after `=`, so the reader expects
  `= 0x` with a space. Written as `(=0x…)`, the first hex digit would be
  skipped.
- `parseBaseAddress` runs on the whole line before anything else. If that
  line has an `=` outside the base, it can fail even when the base itself
  reads as a module (`PointerParser.BaseAddressCheckGuardsModuleBase`).
- A pointer without offsets is written with a trailing `] `.

## Model

| member | source | states |
|---|---|---|
| ChainResolver.FollowPointer | src/main/java/com/wiiudev/gecko/pointer/preprocessed_search/data_structures/MemoryPointer.java:219-272 | The result is `None` when cycles are excluded and the trail of normalised addresses repeats one; otherwise it is the walk's result. It is `None` when the normalised base is not in the snapshot. Without offsets, it is the normalised base. |
| ChainResolver.ReachesDestination | src/main/java/com/wiiudev/gecko/pointer/preprocessed_search/data_structures/MemoryPointer.java:126-138 | True exactly when the chain, followed without raw mode, resolves to the target address, and, when cycles are excluded, visits no normalised address twice. |
| ChainResolver.ResolveByAddresses | src/main/java/com/wiiudev/gecko/pointer/preprocessed_search/data_structures/MemoryPointer.java:224-268 | Let a(0) be the normalised base and a(i+1) = snapshot[a(i)] + offset i - startingOffset. A chain with offsets resolves exactly when every a(i) before the last offset is a snapshot key. It then resolves to snapshot[a(n-1)] plus the last offset, or in raw mode to snapshot[a(n-1)]. |
| ChainResolver.RawValueIsResultBeforeLastOffset | src/main/java/com/wiiudev/gecko/pointer/preprocessed_search/data_structures/MemoryPointer.java:239-244 | The ordinary result is the raw-mode result plus the last offset, and the two fail together. |
| ChainResolver.RawTrailIsPrefix | src/main/java/com/wiiudev/gecko/pointer/preprocessed_search/data_structures/MemoryPointer.java:239-246 | The addresses visited in raw mode are a prefix of those visited in ordinary mode. |
| ChainResolver.RawModeKeepsNoRepeats | src/main/java/com/wiiudev/gecko/pointer/preprocessed_search/data_structures/MemoryPointer.java:239-250 | If the ordinary trail repeats no address, neither does the raw-mode trail, so cycle exclusion rejects no more in raw mode. |
| PointerParser.ParseMemoryPointer | src/main/java/com/wiiudev/gecko/pointer/preprocessed_search/data_structures/MemoryPointer.java:49-105 | The method fails exactly when the separate base-address read fails, the base does not read, or some offset term does not read. Otherwise it returns the base read and the offsets denoted by the text. |
| PointerParser.ReadOffsets | src/main/java/com/wiiudev/gecko/pointer/preprocessed_search/data_structures/MemoryPointer.java:73-93 | The loop succeeds exactly when every one of the `[`-count terms reads. It then returns one offset per `[`, and offset i is the term between the i-th and (i+1)-th cursor. |
| PointerParser.BaseAddressCheckGuardsModuleBase | src/main/java/com/wiiudev/gecko/pointer/preprocessed_search/data_structures/MemoryPointer.java:49-70 | In `x=[a (= 0x10)] + 0x4` the base reads as module `a` at 0x10, yet the whole parse fails, because the first `parseBaseAddress` call fails on the line. |
| PointerParser.LeadingEqualsDefeatsBaseAddress | src/main/java/com/wiiudev/gecko/pointer/preprocessed_search/data_structures/MemoryPointer.java:107-115 | In `x=[a (= 0x10)] + 0x4`, where the first `=` comes before the brackets, `parseBaseAddress` reads the span `(= 0x10` after that `=` and fails. |
| RoundTrip.FormatThenParse | src/main/java/com/wiiudev/gecko/pointer/preprocessed_search/data_structures/MemoryPointer.java:49-105 | Parsing the notation of an absolute pointer gives that pointer back, signed or unsigned, provided the hex writer writes `0x` and digits that read back as the same value. |
| RoundTrip.ModuleRelativeBase | src/main/java/com/wiiudev/gecko/pointer/preprocessed_search/data_structures/MemoryPointer.java:56-67 | A base `[` + `[…[name (= 0x<digits>)` + `]` reads as module text `[…[name` (brackets kept) at the address the digits denote, for a name without brackets, spaces, `=`, `(` or `)`. |
| RoundTrip.ModuleRelativeAddress | src/main/java/com/wiiudev/gecko/pointer/preprocessed_search/data_structures/MemoryPointer.java:107-115 | On such a line, `parseBaseAddress` takes its `=` branch and reads the same address, so the module-relative parse is not rejected by the first check; the name holds no brackets, spaces, `=`, `(` or `)`. |
| RoundTrip.BaseAddressRead | src/main/java/com/wiiudev/gecko/pointer/preprocessed_search/data_structures/MemoryPointer.java:116-123 | `parseBaseAddress` of a line without `=`, made of brackets, `0x` and plain hex, then `]` and terms: it takes the branch for lines without `=` and reads the base hex between the first `0x` and the first `]`. |
| RoundTrip.BaseRead | src/main/java/com/wiiudev/gecko/pointer/preprocessed_search/data_structures/MemoryPointer.java:56-71 | For that absolute line, the base expression between the first `[` and the first `]` holds no space. The base is then absolute, at the address `parseBaseAddress` reads. |
| RoundTrip.ModuleExpressionRead | src/main/java/com/wiiudev/gecko/pointer/preprocessed_search/data_structures/MemoryPointer.java:60-67 | The module branch, on a base expression `[…[name (= 0x<digits>)`: it holds a space, the module text is everything up to one character before `(`, and the address is the digits four characters after `=` up to `)`, for a name without brackets, spaces, `=`, `(` or `)`. |
| RoundTrip.ReadsOffsetText | src/main/java/com/wiiudev/gecko/pointer/preprocessed_search/data_structures/MemoryPointer.java:84-90 | The term the formatter writes for an offset (`+ ` or `- `, then hex) reads back as that offset, negative offsets in signed mode included, provided the hex writer meets the round trip's hypothesis (`0x` and digits that read back). |
| RoundTrip.PaddedHexIsReadable | src/main/java/com/wiiudev/gecko/pointer/preprocessed_search/data_structures/MemoryPointer.java:160 | A writer that pads the digits with zeros to two per byte of the address size also meets the round trip's hypothesis. |
| RoundTrip.ShortestHexIsReadable | src/main/java/com/wiiudev/gecko/pointer/preprocessed_search/data_structures/MemoryPointer.java:160 | A hex writer meeting the round trip's hypothesis exists: `0x` plus the shortest lower-case digits. |
| PointerFormatter.ToString | src/main/java/com/wiiudev/gecko/pointer/preprocessed_search/data_structures/MemoryPointer.java:146-192 | The built text is the notation: one `[` per offset, the base, `] `, then the offset terms separated by `] `. |
| PointerFormatter.ToStringDefault | src/main/java/com/wiiudev/gecko/pointer/preprocessed_search/data_structures/MemoryPointer.java:140-144 | `toString()` is the notation with signed offsets at eight-byte width. |
| PointerFormatter.ListToString | src/main/java/com/wiiudev/gecko/pointer/preprocessed_search/data_structures/MemoryPointer.java:194-217 | The result is the notations in list order, one per line, with separators only between neighbours, then trimmed. |
| PointerFormatter.ListTextFront | src/main/java/com/wiiudev/gecko/pointer/preprocessed_search/data_structures/MemoryPointer.java:200-209 | Before trimming, the list text is the first pointer's notation, then, if more follow, a separator and the rest's text. |
| PointerFormatter.EmptyListText | src/main/java/com/wiiudev/gecko/pointer/preprocessed_search/data_structures/MemoryPointer.java:194-216 | An empty list is written as the empty text. |
| PointerFormatter.FormatBracketCount | src/main/java/com/wiiudev/gecko/pointer/preprocessed_search/data_structures/MemoryPointer.java:150-153 | The notation holds exactly one `[` per offset when neither the base text nor the hex writer produces one, which is the count the reader takes as the depth. |
| PointerFormatter.NegativeOffsetText | src/main/java/com/wiiudev/gecko/pointer/preprocessed_search/data_structures/MemoryPointer.java:169-175 | A negative offset in signed mode is written as `- ` and the hex of its magnitude, its absolute value as a signed 64-bit number. |
| Longs.DisplayedOffsetIsNegation | src/main/java/com/wiiudev/gecko/pointer/preprocessed_search/data_structures/MemoryPointer.java:173-174 | `integerMaxValue - offset + 1` with the `int` sum widened to `long` is the 64-bit negation of the offset. |
| Longs.IntegerMaxPlusAbsMinIsMinusOne | src/main/java/com/wiiudev/gecko/pointer/preprocessed_search/data_structures/MemoryPointer.java:173 | `Math.abs(Integer.MIN_VALUE)` wraps to `Integer.MIN_VALUE`, so `Integer.MAX_VALUE + Math.abs(Integer.MIN_VALUE)` is -1 as an `int`, which widens to all 64 bits set. |
| Longs.NegationIsMagnitude | src/main/java/com/wiiudev/gecko/pointer/preprocessed_search/data_structures/MemoryPointer.java:169-174 | The 64-bit negation of a negative `long`, read unsigned, is its magnitude, `Long.MIN_VALUE` included. |
| Longs.NegNeg | src/main/java/com/wiiudev/gecko/pointer/preprocessed_search/data_structures/MemoryPointer.java:87-90 | Negating a parsed magnitude twice gives it back, so a `-` term written from a negated offset reads as that offset. |
| ChainResolver.ResultIsLastAddress | src/main/java/com/wiiudev/gecko/pointer/preprocessed_search/data_structures/MemoryPointer.java:244-268 | A chain with offsets returns its last address un-normalised. Once `startingOffset` is subtracted, the result is the last address of the trail, the one the cycle check records at the last step. |
| JavaText.ParseUnsignedLongRoundTrip | src/main/java/com/wiiudev/gecko/pointer/preprocessed_search/data_structures/MemoryPointer.java:86 | `parseUnsignedLong(_, 16)` reads every `long`'s hex digits back as that `long`. |
| JavaText.HexValueLeadingZero | src/main/java/com/wiiudev/gecko/pointer/preprocessed_search/data_structures/MemoryPointer.java:86 | A leading zero changes neither the validity nor the value of hex digits, so zero-padded output reads the same. |
| JavaText.ParseUnsignedLongPadded | src/main/java/com/wiiudev/gecko/pointer/preprocessed_search/data_structures/MemoryPointer.java:86 | `parseUnsignedLong(_, 16)` reads every `long`'s hex digits, with any number of leading zeros, back as that `long`. |
| JavaText.IndexOfFromIs | src/main/java/com/wiiudev/gecko/pointer/preprocessed_search/data_structures/MemoryPointer.java:79 | `indexOf(c, from)` is the first position from `from` holding `c`, or -1 when there is none. |
| JavaText.IndexOfTextFromIs | src/main/java/com/wiiudev/gecko/pointer/preprocessed_search/data_structures/MemoryPointer.java:118 | `indexOf("0x")` is the first position where `0x` occurs. |
| JavaText.Trim | src/main/java/com/wiiudev/gecko/pointer/preprocessed_search/data_structures/MemoryPointer.java:216 | The trimmed text is a slice of the text with only blanks (characters up to space) before and after it. The slice starts and ends with a non-blank character, or is empty. Together these fix the result: the text without its leading and trailing blanks. |
| JavaText.TrimIdempotent | src/main/java/com/wiiudev/gecko/pointer/preprocessed_search/data_structures/MemoryPointer.java:216 | Trimming twice is trimming once. |

## Left out

- `DataConversions.toHexadecimal` is not part of this model. It is the
  parameter `hex`, and every formatter property holds for any `hex` meeting
  the property's stated hypothesis. The
  round trip assumes `hex` writes `0x` and digits that read back.
- `System.lineSeparator()` is a parameter of `ListToString`, since it depends
  on the platform.
- The Lombok getters, setters, `equals` and `hashCode` are not modelled. The
  core never mutates a pointer, so it is a value (a datatype). Structural
  equality of the datatype stands for the generated `equals`.
- The two constructors are the functions `MemoryPointers.Absolute` and
  `MemoryPointers.ModuleRelative`, the latter followed by `setBaseAddress`.
- `null` arguments and the `NullPointerException`s they raise are not
  modelled. The one `null` the core uses on purpose, the absent module text,
  is `None`.
- Java indexes a `String` by UTF-16 code units; a Dafny `string` is indexed
  by Unicode characters. The parser's fixed skips (two after a `]`, four into
  a term, one before `(`, four after `=`) therefore count characters. The
  skips differ from Java's only when they cross a character outside the
  Basic Multilingual Plane, which takes two code units in Java. An example
  is the term `-😀0x10`, which the model reads as -0x10, while Java throws.
  UTF-16 encoding is not modelled.
- `Character.digit` also accepts non-ASCII digit characters. `IsHexDigit`
  accepts only ASCII `0-9`, `a-f` and `A-F`.
- `StringIndexOutOfBoundsException` and `NumberFormatException` are one
  error, `MalformedExpression`, since the caller cannot tell them apart
  usefully.
- `HashMap<Long, Long>` and `HashSet<Long>` are a Dafny `map` and `set`.
  Hashing and boxing are not modelled.
- RoundTrip.FormatThenParse: holds only for absolute pointers. A
  module-relative pointer's notation holds only its module text, without
  the `(= 0x…)` part the reader needs.
- RoundTrip.FormatThenParse: assumes a hex writer that writes `0x` and digits
  that read back. Whether `toHexadecimal(…, false)` does so is not part of
  this model. A writer without the `0x` header breaks the offsets: reading
  a term skips four characters, so the first two digits of every offset
  are lost. With two or more offsets it breaks the base as well, whose span
  then starts at a `[`; with one offset the base still reads, from just
  after the single `[`.
