/** Resolving a pointer chain against a memory snapshot (`followPointer`) and
    testing whether it lands on a target (`reachesDestination`).

    Every address used to index the snapshot is first normalised by
    subtracting `startingOffset`. From the normalised base a(0), each step reads
    the value stored at a(i), adds offset i, and normalises the sum to get
    a(i+1). The last step's sum is the result, un-normalised; in raw mode the
    result is instead the value read by the last step. */
module ChainResolver {
  import opened Wrappers
  import opened Sequences
  import opened Longs
  import opened MemoryPointers

  /** An address-to-value memory snapshot. */
  type SnapshotMap = map<Long, Long>

  /** The walk from the normalised address `current` through `offsets`, with no
      cycle detection. */
  function Walk(pointerMap: SnapshotMap, startingOffset: Long, current: Long, offsets: seq<Long>, returnOffset: bool): Option<Long>
    requires |offsets| > 0
    decreases |offsets|
  {
    if current !in pointerMap then None
    else
      var value := pointerMap[current];
      if |offsets| == 1 then Some(if returnOffset then value else Add(value, offsets[0]))
      else Walk(pointerMap, startingOffset, Sub(Add(value, offsets[0]), startingOffset), offsets[1..], returnOffset)
  }

  /** What the pointer resolves to when cycles are allowed: nothing if some
      address on the way is not a key of the snapshot; for a pointer without
      offsets, the normalised base itself. */
  function Resolve(p: MemoryPointer, pointerMap: SnapshotMap, startingOffset: Long, returnOffset: bool): Option<Long>
  {
    var base := Sub(p.baseAddress, startingOffset);
    if |p.offsets| == 0 then (if base in pointerMap then Some(base) else None)
    else Walk(pointerMap, startingOffset, base, p.offsets, returnOffset)
  }

  /** The normalised addresses the walk from `current` computes after it, up to
      the point where it stops: the end of the offsets, a missing key, or (in
      raw mode) the last step, which returns before computing an address. */
  function TrailFrom(pointerMap: SnapshotMap, startingOffset: Long, current: Long, offsets: seq<Long>, returnOffset: bool): seq<Long>
    requires |offsets| > 0
    decreases |offsets|
  {
    if current !in pointerMap || (returnOffset && |offsets| == 1) then []
    else
      var next := Sub(Add(pointerMap[current], offsets[0]), startingOffset);
      [next] + (if |offsets| == 1 then [] else TrailFrom(pointerMap, startingOffset, next, offsets[1..], returnOffset))
  }

  /** Every normalised address a resolution visits, the base first. */
  function Trail(p: MemoryPointer, pointerMap: SnapshotMap, startingOffset: Long, returnOffset: bool): seq<Long>
  {
    var base := Sub(p.baseAddress, startingOffset);
    [base] + (if |p.offsets| > 0 then TrailFrom(pointerMap, startingOffset, base, p.offsets, returnOffset) else [])
  }

  predicate NoRepeats(s: seq<Long>)
  {
    forall i, j :: 0 <= i < j < |s| ==> s[i] != s[j]
  }

  lemma NoRepeatsAppend(s: seq<Long>, a: Long)
    requires NoRepeats(s) && a !in s
    ensures NoRepeats(s + [a])
  {
  }

  lemma RepeatBreaksNoRepeats(s: seq<Long>, t: seq<Long>)
    requires |t| > 0 && t[0] in s
    ensures !NoRepeats(s + t)
  {
    var i :| 0 <= i < |s| && s[i] == t[0];
    assert (s + t)[i] == (s + t)[|s|];
  }

  /** `followPointer`: a `for` loop over the offsets that keeps the current
      address and a set of the normalised addresses seen so far. With
      `excludeCycles`, an address seen twice makes the result `None`; otherwise
      the result is the walk's. */
  method FollowPointer(p: MemoryPointer, pointerMap: SnapshotMap, startingOffset: Long, excludeCycles: bool, returnOffset: bool)
    returns (r: Option<Long>)
    ensures r == if excludeCycles && !NoRepeats(Trail(p, pointerMap, startingOffset, returnOffset)) then None
                 else Resolve(p, pointerMap, startingOffset, returnOffset)
    ensures Sub(p.baseAddress, startingOffset) !in pointerMap ==> r == None
    ensures |p.offsets| == 0 && Sub(p.baseAddress, startingOffset) in pointerMap ==> r == Some(Sub(p.baseAddress, startingOffset))
  {
    var offsets := p.offsets;
    ghost var resolved := Resolve(p, pointerMap, startingOffset, returnOffset);
    ghost var trail := Trail(p, pointerMap, startingOffset, returnOffset);
    var currentBaseOffset := Sub(p.baseAddress, startingOffset);
    var baseAddressesHashSet: set<Long> := {};
    var hasOffset := currentBaseOffset in pointerMap;

    if hasOffset {
      baseAddressesHashSet := baseAddressesHashSet + {currentBaseOffset};
      ghost var seen := [currentBaseOffset];

      var offsetsIndex := 0;
      while offsetsIndex < |offsets|
        invariant offsetsIndex < |offsets| || (|offsets| == 0 && offsetsIndex == 0)
        invariant currentBaseOffset in pointerMap
        invariant |offsets| == 0 ==> currentBaseOffset == Sub(p.baseAddress, startingOffset) && trail == seen
        invariant offsetsIndex < |offsets| ==>
          resolved == Walk(pointerMap, startingOffset, currentBaseOffset, offsets[offsetsIndex..], returnOffset)
        invariant offsetsIndex < |offsets| ==>
          trail == seen + TrailFrom(pointerMap, startingOffset, currentBaseOffset, offsets[offsetsIndex..], returnOffset)
        invariant forall a :: a in baseAddressesHashSet <==> a in seen
        invariant excludeCycles ==> NoRepeats(seen)
      {
        ghost var rest := offsets[offsetsIndex..];
        var pointerOffset := offsets[offsetsIndex];
        var value := pointerMap[currentBaseOffset];

        if returnOffset && offsetsIndex == |offsets| - 1 {
          assert trail == seen;
          return Some(value);
        }

        currentBaseOffset := Add(value, pointerOffset);

        var normalised := Sub(currentBaseOffset, startingOffset);
        ghost var tail := if |rest| == 1 then [] else TrailFrom(pointerMap, startingOffset, normalised, rest[1..], returnOffset);
        assert trail == seen + ([normalised] + tail);
        var successfullyAdded := normalised !in baseAddressesHashSet;
        baseAddressesHashSet := baseAddressesHashSet + {normalised};
        if excludeCycles && !successfullyAdded {
          RepeatBreaksNoRepeats(seen, [normalised] + tail);
          return None;
        }
        if excludeCycles {
          NoRepeatsAppend(seen, normalised);
        }
        AppendAssociative(seen, [normalised], tail);
        seen := seen + [normalised];

        if offsetsIndex == |offsets| - 1 {
          break;
        }

        currentBaseOffset := Sub(currentBaseOffset, startingOffset);
        hasOffset := currentBaseOffset in pointerMap;

        if !hasOffset {
          return None;
        }
        assert rest[1..] == offsets[offsetsIndex + 1..];
        offsetsIndex := offsetsIndex + 1;
      }

      return Some(currentBaseOffset);
    }

    return None;
  }

  /** `reachesDestination`: the chain, followed without raw mode, resolves to
      exactly `targetAddress`. */
  method ReachesDestination(p: MemoryPointer, pointerMap: SnapshotMap, targetAddress: Long, startingOffset: Long, excludeCycles: bool)
    returns (reaches: bool)
    ensures reaches <==>
      && Resolve(p, pointerMap, startingOffset, false) == Some(targetAddress)
      && (excludeCycles ==> NoRepeats(Trail(p, pointerMap, startingOffset, false)))
  {
    var destinationAddress := FollowPointer(p, pointerMap, startingOffset, excludeCycles, false);
    if destinationAddress.None? {
      return false;
    }
    return destinationAddress.value == targetAddress;
  }

  // ---------------------------------------------------------------------------
  // The resolution by index: a(0) is the normalised base and
  // a(i+1) = pointerMap[a(i)] + offsets[i] - startingOffset.

  /** a(i), or `None` once some earlier a(j) is not a key of the snapshot. */
  function Address(p: MemoryPointer, pointerMap: SnapshotMap, startingOffset: Long, i: nat): Option<Long>
    requires i <= |p.offsets|
  {
    if i == 0 then Some(Sub(p.baseAddress, startingOffset))
    else match Address(p, pointerMap, startingOffset, i - 1)
      case Some(a) => if a in pointerMap then Some(Sub(Add(pointerMap[a], p.offsets[i - 1]), startingOffset)) else None
      case None => None
  }

  /** a(i) is defined and is a key of the snapshot. */
  predicate AddressIsKey(p: MemoryPointer, pointerMap: SnapshotMap, startingOffset: Long, i: nat)
    requires i <= |p.offsets|
  {
    var a := Address(p, pointerMap, startingOffset, i);
    a.Some? && a.value in pointerMap
  }

  lemma {:induction false} AddressStaysUndefined(p: MemoryPointer, pointerMap: SnapshotMap, startingOffset: Long, i: nat, j: nat)
    requires i <= j <= |p.offsets|
    requires Address(p, pointerMap, startingOffset, i) == None
    ensures Address(p, pointerMap, startingOffset, j) == None
    decreases j
  {
    if i < j {
      AddressStaysUndefined(p, pointerMap, startingOffset, i, j - 1);
    }
  }

  /** The value the last step produces from a(n-1), if every address is a key. */
  function LastStep(p: MemoryPointer, pointerMap: SnapshotMap, startingOffset: Long, returnOffset: bool): Option<Long>
    requires |p.offsets| > 0
  {
    var n := |p.offsets|;
    match Address(p, pointerMap, startingOffset, n - 1)
    case Some(a) =>
      if a in pointerMap then Some(if returnOffset then pointerMap[a] else Add(pointerMap[a], p.offsets[n - 1])) else None
    case None => None
  }

  lemma {:induction false} WalkFromAddress(p: MemoryPointer, pointerMap: SnapshotMap, startingOffset: Long, returnOffset: bool, k: nat)
    requires k < |p.offsets|
    requires Address(p, pointerMap, startingOffset, k).Some?
    ensures Walk(pointerMap, startingOffset, Address(p, pointerMap, startingOffset, k).value, p.offsets[k..], returnOffset)
            == LastStep(p, pointerMap, startingOffset, returnOffset)
    decreases |p.offsets| - k
  {
    var n := |p.offsets|;
    var a := Address(p, pointerMap, startingOffset, k).value;
    if a !in pointerMap {
      if k + 1 < n {
        AddressStaysUndefined(p, pointerMap, startingOffset, k + 1, n - 1);
      }
    } else if k + 1 < n {
      assert p.offsets[k..][1..] == p.offsets[k + 1..];
      WalkFromAddress(p, pointerMap, startingOffset, returnOffset, k + 1);
    }
  }

  /** A chain with offsets resolves iff every a(i) with i < n is a key of the
      snapshot, and then to pointerMap[a(n-1)] + offsets[n-1], or to
      pointerMap[a(n-1)] in raw mode. */
  lemma ResolveByAddresses(p: MemoryPointer, pointerMap: SnapshotMap, startingOffset: Long, returnOffset: bool)
    requires |p.offsets| > 0
    ensures Resolve(p, pointerMap, startingOffset, returnOffset) == LastStep(p, pointerMap, startingOffset, returnOffset)
    ensures Resolve(p, pointerMap, startingOffset, returnOffset).Some? <==>
      forall i: nat :: i < |p.offsets| ==> AddressIsKey(p, pointerMap, startingOffset, i)
  {
    WalkFromAddress(p, pointerMap, startingOffset, returnOffset, 0);
    assert p.offsets[0..] == p.offsets;
    var n := |p.offsets|;
    if LastStep(p, pointerMap, startingOffset, returnOffset).Some? {
      forall i: nat | i < n
        ensures AddressIsKey(p, pointerMap, startingOffset, i)
      {
        AddressesBeforeLastAreKeys(p, pointerMap, startingOffset, returnOffset, i);
      }
    } else {
      assert !AddressIsKey(p, pointerMap, startingOffset, n - 1);
    }
  }

  lemma AddressesBeforeLastAreKeys(p: MemoryPointer, pointerMap: SnapshotMap, startingOffset: Long, returnOffset: bool, i: nat)
    requires i < |p.offsets|
    requires LastStep(p, pointerMap, startingOffset, returnOffset).Some?
    ensures AddressIsKey(p, pointerMap, startingOffset, i)
  {
    var n := |p.offsets|;
    if Address(p, pointerMap, startingOffset, i).None? {
      AddressStaysUndefined(p, pointerMap, startingOffset, i, n - 1);
    } else if Address(p, pointerMap, startingOffset, i).value !in pointerMap && i + 1 < n {
      AddressStaysUndefined(p, pointerMap, startingOffset, i + 1, n - 1);
    }
  }

  /** Raw mode returns the value read by the last step, before its offset is
      added: the ordinary result is the raw one plus the last offset, and the
      two fail together. */
  lemma RawValueIsResultBeforeLastOffset(p: MemoryPointer, pointerMap: SnapshotMap, startingOffset: Long)
    requires |p.offsets| > 0
    ensures Resolve(p, pointerMap, startingOffset, false) ==
      match Resolve(p, pointerMap, startingOffset, true)
      case Some(v) => Some(Add(v, p.offsets[|p.offsets| - 1]))
      case None => None
  {
    ResolveByAddresses(p, pointerMap, startingOffset, false);
    ResolveByAddresses(p, pointerMap, startingOffset, true);
  }

  lemma {:induction false} WalkEndsTrail(pointerMap: SnapshotMap, startingOffset: Long, current: Long, offsets: seq<Long>)
    requires |offsets| > 0
    requires Walk(pointerMap, startingOffset, current, offsets, false).Some?
    ensures var trail := TrailFrom(pointerMap, startingOffset, current, offsets, false);
            && |trail| > 0
            && trail[|trail| - 1] == Sub(Walk(pointerMap, startingOffset, current, offsets, false).value, startingOffset)
    decreases |offsets|
  {
    if |offsets| > 1 {
      var next := Sub(Add(pointerMap[current], offsets[0]), startingOffset);
      WalkEndsTrail(pointerMap, startingOffset, next, offsets[1..]);
    }
  }

  /** The result of a chain with offsets is returned un-normalised, and it is
      the last address visited once normalised: the address the cycle check
      records at the last step. */
  lemma ResultIsLastAddress(p: MemoryPointer, pointerMap: SnapshotMap, startingOffset: Long)
    requires |p.offsets| > 0
    requires Resolve(p, pointerMap, startingOffset, false).Some?
    ensures var trail := Trail(p, pointerMap, startingOffset, false);
            Sub(Resolve(p, pointerMap, startingOffset, false).value, startingOffset) == trail[|trail| - 1]
  {
    WalkEndsTrail(pointerMap, startingOffset, Sub(p.baseAddress, startingOffset), p.offsets);
  }

  /** The raw-mode trail is the ordinary trail without its last address. */
  lemma {:induction false} RawTrailIsPrefix(pointerMap: SnapshotMap, startingOffset: Long, current: Long, offsets: seq<Long>)
    requires |offsets| > 0
    ensures TrailFrom(pointerMap, startingOffset, current, offsets, true)
            <= TrailFrom(pointerMap, startingOffset, current, offsets, false)
    decreases |offsets|
  {
    if current in pointerMap && |offsets| > 1 {
      var next := Sub(Add(pointerMap[current], offsets[0]), startingOffset);
      RawTrailIsPrefix(pointerMap, startingOffset, next, offsets[1..]);
    }
  }

  /** Cycle exclusion rejects no more in raw mode than in ordinary mode: if the
      ordinary trail has no repeated address, neither has the raw one. */
  lemma RawModeKeepsNoRepeats(p: MemoryPointer, pointerMap: SnapshotMap, startingOffset: Long)
    requires NoRepeats(Trail(p, pointerMap, startingOffset, false))
    ensures NoRepeats(Trail(p, pointerMap, startingOffset, true))
  {
    var base := Sub(p.baseAddress, startingOffset);
    if |p.offsets| > 0 {
      RawTrailIsPrefix(pointerMap, startingOffset, base, p.offsets);
      var raw := Trail(p, pointerMap, startingOffset, true);
      var full := Trail(p, pointerMap, startingOffset, false);
      assert raw <= full;
      forall i, j | 0 <= i < j < |raw| ensures raw[i] != raw[j] {
        assert raw[i] == full[i] && raw[j] == full[j];
      }
    }
  }
}
