/** The structured pointer and the presentation setting for its offsets. */
module MemoryPointers {
  import opened Wrappers
  import opened Longs
  import opened Sequences

  /** A multi-level pointer: a base address, then one offset per dereference,
      applied in order. `baseModuleNameWithOffset` is the text of a
      module-relative base (Java's `null` for an absolute pointer is `None`);
      `baseAddress` is the absolute base, which the parser records for a
      module-relative pointer too. Equality is structural over all three
      fields, as the generated `equals` is. */
  datatype MemoryPointer = MemoryPointer(
    baseModuleNameWithOffset: Option<string>,
    baseAddress: Long,
    offsets: seq<Long>)

  /** `new MemoryPointer(baseAddress, offsets)` */
  function Absolute(baseAddress: Long, offsets: seq<Long>): MemoryPointer
  {
    MemoryPointer(None, baseAddress, offsets)
  }

  /** `new MemoryPointer(baseModuleNameWithOffset, offsets)` followed by
      `setBaseAddress(baseAddress)` */
  function ModuleRelative(baseModuleNameWithOffset: string, baseAddress: Long, offsets: seq<Long>): MemoryPointer
  {
    MemoryPointer(Some(baseModuleNameWithOffset), baseAddress, offsets)
  }

  /** The `n` opening brackets that begin the notation of a pointer with `n`
      offsets. */
  function OpeningBrackets(n: nat): (s: string)
    ensures |s| == n && forall i :: 0 <= i < n ==> s[i] == '['
  {
    Repeat('[', n)
  }

  /** How the list formatter prints negative offsets. */
  datatype OffsetPrintingSetting = Signed | Unsigned
}
