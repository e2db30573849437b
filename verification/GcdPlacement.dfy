/** Where an allocation may go, and why the searches of CoreAllocateSpace, which only look at the
    starts and ends of entries and skip ahead when an entry is in the way, miss no such place. */
module GcdPlacement {
  import opened Arithmetic
  import opened Efi
  import opened GcdEntries
  import opened GcdConversion
  import opened GcdSpec

  datatype Kind = AllocateMemory | AllocateIo

  /** What an allocation asks for: the operation, the types, 2^alignment and the length. */
  datatype Request = Request(kind: Kind, memoryType: int, ioType: int, alignment: nat, length: nat)

  datatype Mode =
    | AnySearchBottomUp
    | MaxAddressSearchBottomUp
    | AtAddress
    | AnySearchTopDown
    | MaxAddressSearchTopDown
    | UnknownMode

  /** CoreAllocateSpaceCheckEntry */
  function CheckEntry(q: Request, r: SpaceRecord): Status {
    if r.ImageHandle != 0 then EFI_NOT_FOUND
    else match q.kind
      case AllocateMemory => if r.GcdMemoryType != q.memoryType then EFI_NOT_FOUND else EFI_SUCCESS
      case AllocateIo => if r.GcdIoType != q.ioType then EFI_NOT_FOUND else EFI_SUCCESS
  }

  /** Unowned and of the type asked for. */
  predicate Usable(q: Request, r: SpaceRecord) {
    && r.ImageHandle == 0
    && match q.kind
       case AllocateMemory => r.GcdMemoryType == q.memoryType
       case AllocateIo => r.GcdIoType == q.ioType
  }

  ghost predicate FreeRange(es: seq<MapEntry>, q: Request, b: int, stop: int) {
    forall x :: b <= x < stop ==> Usable(q, RecordAt(es, x))
  }

  /** The aligned range at `b` lies in the space, ends at or below `max`, and is free. */
  ghost predicate Fits(es: seq<MapEntry>, limit: nat, q: Request, max: nat, b: nat) {
    && b % Pow2(q.alignment) == 0
    && b + q.length <= limit
    && b + q.length - 1 <= max
    && FreeRange(es, q, b, b + q.length)
  }

  // ---------- entries and ranges ----------

  lemma FreeEntry(es: seq<MapEntry>, limit: nat, q: Request, k: nat, x: int, b: int, stop: int)
    requires Tiles(es, 0, limit) && k < |es| && Holds(es[k], x) && b <= x < stop && FreeRange(es, q, b, stop)
    ensures Usable(q, es[k].Space)
  {
    hide Tiles, RecordAt, Usable;
    RecordIs(es, 0, limit, k, x);
  }

  lemma FreeEntries(es: seq<MapEntry>, limit: nat, q: Request, b: nat, end: nat, i: nat, j: nat)
    requires Tiles(es, 0, limit) && Spans(es, b, end, i, j) && b <= end
    requires forall k :: i <= k <= j ==> Usable(q, es[k].Space)
    ensures FreeRange(es, q, b, end + 1)
  {
    hide Tiles, RecordAt, Usable;
    SpansWithin(es, limit, b, end, i, j);
    forall x | b <= x <= end ensures Usable(q, RecordAt(es, x)) {
      var k := EntryAt(es, 0, limit, x);
      if k < i { TilesOrdered(es, 0, limit, k, i); }
      if j < k { TilesOrdered(es, 0, limit, j, k); }
      RecordIs(es, 0, limit, k, x);
    }
  }

  // ---------- bottom up ----------

  /** Aligning an address of the space does not leave [0, 2^63]. */
  lemma AlignedInRange(x: nat, alignment: nat)
    requires x <= SPACE_MAX && alignment < 64
    ensures RoundUp(x, Pow2(alignment)) <= SPACE_MAX && x + Pow2(alignment) - 1 < UINT64_RANGE
    ensures x <= RoundUp(x, Pow2(alignment))
  {
    Pow2Of63();
    Pow2Monotonic(alignment, 63);
    Pow2Sum(alignment, 63 - alignment);
    DivisionUnique(SPACE_MAX, Pow2(alignment), Pow2(63 - alignment), 0);
    SmallestMultiple(SPACE_MAX, x, Pow2(alignment));
    RoundUpIs(x, Pow2(alignment));
  }

  /** No fitting base is below `a`. */
  ghost predicate NoneBelow(es: seq<MapEntry>, limit: nat, q: Request, max: nat, a: int) {
    forall b: nat :: Fits(es, limit, q, max, b) ==> a <= b
  }

  lemma BottomUpSkip(es: seq<MapEntry>, limit: nat, q: Request, max: nat, k: nat)
    requires Tiles(es, 0, limit) && k < |es| && q.length > 0 && !Usable(q, es[k].Space)
    requires NoneBelow(es, limit, q, max, es[k].BaseAddress)
    ensures NoneBelow(es, limit, q, max, Start(es, k + 1, limit))
  {
    hide Tiles, RecordAt, Usable;
    TilesEntry(es, 0, limit, k);
    forall b: nat | Fits(es, limit, q, max, b) ensures Start(es, k + 1, limit) <= b {
      if b <= es[k].EndAddress { FreeEntry(es, limit, q, k, b, b, b + q.length); }
    }
  }

  /** Fitting bases are aligned, so the first aligned address of an entry bounds them too. */
  lemma BottomUpAlign(es: seq<MapEntry>, limit: nat, q: Request, max: nat, a: nat)
    requires NoneBelow(es, limit, q, max, a)
    ensures NoneBelow(es, limit, q, max, RoundUp(a, Pow2(q.alignment)))
  {
    hide FreeRange;
    forall b: nat | Fits(es, limit, q, max, b) ensures RoundUp(a, Pow2(q.alignment)) <= b {
      SmallestMultiple(b, a, Pow2(q.alignment));
    }
  }

  /** An unusable entry in the way of the range at `base` is in the way of all ranges up to it. */
  lemma BottomUpJump(es: seq<MapEntry>, limit: nat, q: Request, max: nat, base: nat, i: nat, j: nat, m: nat)
    requires Tiles(es, 0, limit) && q.length > 0 && Spans(es, base, base + q.length - 1, i, j) && i <= m <= j
    requires NoneBelow(es, limit, q, max, base) && !Usable(q, es[m].Space)
    ensures NoneBelow(es, limit, q, max, es[m].BaseAddress)
  {
    hide Tiles, RecordAt, Usable;
    TilesEntry(es, 0, limit, m);
    if m < j { TilesOrdered(es, 0, limit, m, j); }
    forall b: nat | Fits(es, limit, q, max, b) ensures es[m].BaseAddress <= b {
      if b < es[m].BaseAddress { FreeEntry(es, limit, q, m, es[m].BaseAddress, b, b + q.length); }
    }
  }

  /** Past the last entry, past `max` or past the end of the space, there is nothing to find. */
  lemma BottomUpNowhere(es: seq<MapEntry>, limit: nat, q: Request, max: nat, a: nat)
    requires q.length > 0 && NoneBelow(es, limit, q, max, a)
    requires a >= limit || a + q.length > limit || a + q.length - 1 > max
    ensures forall b: nat :: !Fits(es, limit, q, max, b)
  {
  }

  // ---------- top down ----------

  /** The top-down search looks at the range at `b` only if the entry that holds its last address
      starts low enough for base + length not to pass `max`. */
  ghost predicate Considered(es: seq<MapEntry>, q: Request, max: nat, b: nat) {
    exists k :: 0 <= k < |es| && Holds(es[k], b + q.length - 1) && es[k].BaseAddress + q.length <= max
  }

  ghost predicate FitsTopDown(es: seq<MapEntry>, limit: nat, q: Request, max: nat, b: nat) {
    Fits(es, limit, q, max, b) && Considered(es, q, max, b)
  }

  /** No considered fitting range ends at or above `a`. */
  ghost predicate NoneAbove(es: seq<MapEntry>, limit: nat, q: Request, max: nat, a: int) {
    forall b: nat :: FitsTopDown(es, limit, q, max, b) ==> b + q.length - 1 < a
  }

  lemma NoneAboveLimit(es: seq<MapEntry>, limit: nat, q: Request, max: nat)
    ensures NoneAbove(es, limit, q, max, limit)
  {
  }

  lemma TopDownSkip(es: seq<MapEntry>, limit: nat, q: Request, max: nat, k: nat)
    requires Tiles(es, 0, limit) && k < |es| && q.length > 0 && NoneAbove(es, limit, q, max, Start(es, k + 1, limit))
    requires !Usable(q, es[k].Space) || es[k].BaseAddress + q.length > max
    ensures NoneAbove(es, limit, q, max, es[k].BaseAddress)
  {
    hide Tiles, RecordAt, Usable;
    TilesEntry(es, 0, limit, k);
    forall b: nat | FitsTopDown(es, limit, q, max, b) ensures b + q.length - 1 < es[k].BaseAddress {
      var last := b + q.length - 1;
      if es[k].BaseAddress <= last {
        var n :| 0 <= n < |es| && Holds(es[n], last) && es[n].BaseAddress + q.length <= max;
        TilesHoldOnce(es, 0, limit, k, n, last);
        FreeEntry(es, limit, q, k, last, b, b + q.length);
      }
    }
  }

  /** The highest aligned base whose range ends in entry `k`, at or below `max`. */
  function TopDownBase(e: MapEntry, q: Request, max: nat): nat
    requires q.length <= e.EndAddress + 1 && e.BaseAddress + q.length <= max
  {
    RoundDown((if e.EndAddress > max then max else e.EndAddress) + 1 - q.length, Pow2(q.alignment))
  }

  lemma TopDownCandidate(es: seq<MapEntry>, limit: nat, q: Request, max: nat, k: nat, b: nat)
    requires Tiles(es, 0, limit) && k < |es| && NoneAbove(es, limit, q, max, Start(es, k + 1, limit))
    requires q.length <= es[k].EndAddress + 1 && es[k].BaseAddress + q.length <= max
    requires FitsTopDown(es, limit, q, max, b)
    ensures b <= TopDownBase(es[k], q, max)
  {
    hide Tiles, FreeRange;
    TilesEntry(es, 0, limit, k);
    LargestMultiple(b, (if es[k].EndAddress > max then max else es[k].EndAddress) + 1 - q.length, Pow2(q.alignment));
  }

  lemma TopDownFound(es: seq<MapEntry>, limit: nat, q: Request, max: nat, k: nat, base: nat, i: nat, j: nat)
    requires Tiles(es, 0, limit) && k < |es| && q.length > 0
    requires q.length <= es[k].EndAddress + 1 && es[k].BaseAddress + q.length <= max
    requires base == TopDownBase(es[k], q, max) && Spans(es, base, base + q.length - 1, i, j)
    requires forall m :: i <= m <= j ==> Usable(q, es[m].Space)
    ensures FitsTopDown(es, limit, q, max, base)
  {
    hide Tiles, Usable, FreeRange;
    var last := base + q.length - 1;
    TilesEntry(es, 0, limit, k);
    RoundDownIs((if es[k].EndAddress > max then max else es[k].EndAddress) + 1 - q.length, Pow2(q.alignment));
    FreeEntries(es, limit, q, base, last, i, j);
    if k < j { TilesOrdered(es, 0, limit, k, j); }
    if j < k { TilesEntry(es, 0, limit, j); TilesOrdered(es, 0, limit, j, k); }
    assert es[j].BaseAddress + q.length <= max;
  }

  /** An unusable entry in the way of the candidate is in the way of all ranges below it that reach
      up to that entry. */
  lemma TopDownJump(es: seq<MapEntry>, limit: nat, q: Request, max: nat, k: nat, base: nat, i: nat, j: nat, m: nat)
    requires Tiles(es, 0, limit) && k < |es| && q.length > 0 && NoneAbove(es, limit, q, max, Start(es, k + 1, limit))
    requires q.length <= es[k].EndAddress + 1 && es[k].BaseAddress + q.length <= max
    requires base == TopDownBase(es[k], q, max) && Spans(es, base, base + q.length - 1, i, j)
    requires i <= m <= j && !Usable(q, es[m].Space)
    ensures NoneAbove(es, limit, q, max, es[m].BaseAddress)
  {
    hide Tiles, RecordAt, Usable;
    TilesEntry(es, 0, limit, m);
    if i < m { TilesOrdered(es, 0, limit, i, m); }
    forall b: nat | FitsTopDown(es, limit, q, max, b) ensures b + q.length - 1 < es[m].BaseAddress {
      var last := b + q.length - 1;
      TopDownCandidate(es, limit, q, max, k, b);
      if es[m].BaseAddress <= last {
        FreeEntry(es, limit, q, m, if b <= es[m].BaseAddress then es[m].BaseAddress else b, b, b + q.length);
      }
    }
  }

  // ---------- what each mode chooses ----------

  /** The highest address the search modes may use. */
  function MaxAddress(limit: nat, mode: Mode, baseIn: nat): int {
    if mode.MaxAddressSearchBottomUp? || mode.MaxAddressSearchTopDown? then baseIn else limit - 1
  }

  /** The base a mode settles on: the one given, the lowest fitting one, or the highest fitting one
      among those the top-down search considers. */
  ghost predicate Chosen(es: seq<MapEntry>, limit: nat, mode: Mode, q: Request, baseIn: nat, b: nat)
    requires limit > 0
  {
    var max: nat := MaxAddress(limit, mode, baseIn);
    match mode
    case AtAddress => b == baseIn && Fits(es, limit, q, max, b)
    case AnySearchBottomUp | MaxAddressSearchBottomUp =>
      Fits(es, limit, q, max, b) && NoneBelow(es, limit, q, max, b)
    case AnySearchTopDown | MaxAddressSearchTopDown =>
      FitsTopDown(es, limit, q, max, b) && forall b': nat :: FitsTopDown(es, limit, q, max, b') ==> b' <= b
    case UnknownMode => false
  }

  /** 64-bit address arithmetic cannot wrap around: automatically so top down, for lengths up to
      2^63 bottom up, and when the range given does not. */
  predicate Ranged(mode: Mode, q: Request, baseIn: nat) {
    match mode
    case AtAddress => baseIn + q.length <= UINT64_RANGE
    case AnySearchBottomUp | MaxAddressSearchBottomUp => q.length <= SPACE_MAX
    case _ => true
  }

  // ---------- ranges that wrap around ----------

  /** A range that wraps around is taken for free if one usable entry holds both its ends. */
  ghost predicate Accepted(es: seq<MapEntry>, q: Request, b: nat)
    requires q.length > 0
  {
    exists k: nat :: k < |es| && Spans(es, b, LastAddress(b, q.length), k, k) && Usable(q, es[k].Space)
  }

  ghost predicate Refused(es: seq<MapEntry>, q: Request, b: nat)
    requires q.length > 0
  {
    exists k: nat :: k < |es| && Spans(es, b, LastAddress(b, q.length), k, k) && !Usable(q, es[k].Space)
  }

  /** Where the bottom-up search tries entry `k`. */
  function FirstAligned(e: MapEntry, q: Request): nat {
    RoundUp(e.BaseAddress, Pow2(q.alignment))
  }

  /** The bottom-up search for more than 2^63 bytes goes on behind entry `k`. */
  ghost predicate PassedOver(es: seq<MapEntry>, q: Request, max: nat, k: nat)
    requires q.length > 0 && k < |es|
  {
    || !Usable(q, es[k].Space)
    || (LastAddress(FirstAligned(es[k], q), q.length) <= max && Refused(es, q, FirstAligned(es[k], q)))
  }

  ghost predicate AllPassedOver(es: seq<MapEntry>, q: Request, max: nat, n: nat)
    requires q.length > 0 && n <= |es|
  {
    forall k :: 0 <= k < n ==> PassedOver(es, q, max, k)
  }

  /** It takes the first usable entry that it does not pass over, if the range there is accepted. */
  ghost predicate LongChoice(es: seq<MapEntry>, q: Request, max: nat, b: nat)
    requires q.length > 0
  {
    exists k: nat :: k < |es| && LongChoiceAt(es, q, max, b, k)
  }

  ghost predicate LongChoiceAt(es: seq<MapEntry>, q: Request, max: nat, b: nat, k: nat)
    requires q.length > 0 && k < |es|
  {
    && Usable(q, es[k].Space) && b == FirstAligned(es[k], q) && AllPassedOver(es, q, max, k)
    && LastAddress(b, q.length) <= max && Accepted(es, q, b)
  }

  lemma AcceptedNotRefused(es: seq<MapEntry>, limit: nat, q: Request, b: nat)
    requires Tiles(es, 0, limit) && q.length > 0 && Accepted(es, q, b)
    ensures !Refused(es, q, b)
  {
    hide Tiles, Usable;
    var i: nat :| i < |es| && Spans(es, b, LastAddress(b, q.length), i, i) && Usable(q, es[i].Space);
    forall k: nat | k < |es| && Spans(es, b, LastAddress(b, q.length), k, k) ensures Usable(q, es[k].Space) {
      TilesHoldOnce(es, 0, limit, i, k, b);
    }
  }

  /** Once an entry is reached that is neither taken nor passed over, or none is left, nothing is taken. */
  lemma LongNowhere(es: seq<MapEntry>, limit: nat, q: Request, max: nat, n: nat)
    requires Tiles(es, 0, limit) && q.length > 0 && n <= |es| && AllPassedOver(es, q, max, n)
    requires n < |es| ==> !PassedOver(es, q, max, n) && forall b: nat :: !LongChoiceAt(es, q, max, b, n)
    ensures forall b: nat :: !LongChoice(es, q, max, b)
  {
    hide Tiles, Usable, Accepted, Refused, FirstAligned, LastAddress;
    forall b: nat ensures !LongChoice(es, q, max, b) {
      if LongChoice(es, q, max, b) {
        var k: nat :| k < |es| && LongChoiceAt(es, q, max, b, k);
        AcceptedNotRefused(es, limit, q, b);
        assert k >= n by { assert k < n ==> PassedOver(es, q, max, k); }
      }
    }
  }

  /** An entry that starts between `k` and its first aligned address is tried at the same place. */
  lemma SameCandidate(e: MapEntry, f: MapEntry, q: Request)
    requires e.BaseAddress <= f.BaseAddress <= FirstAligned(e, q)
    ensures FirstAligned(f, q) == FirstAligned(e, q)
  {
    hide RoundUp, RoundDown, Pow2;
    var p := Pow2(q.alignment);
    RoundUpIs(e.BaseAddress, p);
    RoundUpIs(f.BaseAddress, p);
    SmallestMultiple(FirstAligned(e, q), f.BaseAddress, p);
    SmallestMultiple(FirstAligned(f, q), e.BaseAddress, p);
  }

  /** In a space of at most 2^63, a range of more than 2^63 has both its ends only if it wraps around. */
  lemma LongSpans(es: seq<MapEntry>, limit: nat, base: nat, length: nat, i: nat, j: nat)
    requires Tiles(es, 0, limit) && limit <= SPACE_MAX < length && Spans(es, base, LastAddress(base, length), i, j)
    requires base < UINT64_RANGE && length < UINT64_RANGE
    ensures i == j && LastAddress(base, length) < base && base + length > UINT64_RANGE
  {
    hide Tiles;
    SpansWithin(es, limit, base, LastAddress(base, length), i, j);
  }

  /** Jumping to the unusable entry `n` that holds both ends skips only entries that are passed over. */
  lemma LongJump(es: seq<MapEntry>, limit: nat, q: Request, max: nat, k: nat, n: nat)
    requires Tiles(es, 0, limit) && q.length > 0 && k < n < |es| && AllPassedOver(es, q, max, k)
    requires LastAddress(FirstAligned(es[k], q), q.length) <= max && !Usable(q, es[n].Space)
    requires Spans(es, FirstAligned(es[k], q), LastAddress(FirstAligned(es[k], q), q.length), n, n)
    ensures AllPassedOver(es, q, max, n)
  {
    hide Tiles, Usable, FirstAligned, LastAddress;
    forall m | k <= m < n ensures PassedOver(es, q, max, m) {
      TilesEntry(es, 0, limit, m);
      TilesOrdered(es, 0, limit, m, n);
      if k < m { TilesEntry(es, 0, limit, k); TilesOrdered(es, 0, limit, k, m); }
      SameCandidate(es[k], es[m], q);
    }
  }

  /** What a mode settles on when the arithmetic can wrap around. */
  ghost predicate WrappedChoice(es: seq<MapEntry>, limit: nat, mode: Mode, q: Request, baseIn: nat, b: nat)
    requires limit > 0 && q.length > 0
  {
    match mode
    case AtAddress => b == baseIn && b % Pow2(q.alignment) == 0 && Accepted(es, q, b)
    case AnySearchBottomUp | MaxAddressSearchBottomUp => LongChoice(es, q, MaxAddress(limit, mode, baseIn), b)
    case _ => false
  }

  /** The parameter checks at the head of CoreAllocateSpace, in order.  The types are compared as
      unsigned numbers, which refuses negative ones. */
  function ParameterStatus(mode: Mode, q: Request, hasBase: bool, imageHandle: nat): Status {
    if mode.UnknownMode? then EFI_INVALID_PARAMETER
    else if !(0 <= q.memoryType < MEMORY_TYPE_MAXIMUM) then EFI_INVALID_PARAMETER
    else if !(0 <= q.ioType < IO_TYPE_MAXIMUM) then EFI_INVALID_PARAMETER
    else if !hasBase then EFI_INVALID_PARAMETER
    else if imageHandle == 0 then EFI_INVALID_PARAMETER
    else if q.alignment >= 64 then EFI_NOT_FOUND
    else if q.length == 0 then EFI_INVALID_PARAMETER
    else EFI_SUCCESS
  }

  /** What CoreAllocateSpace does to a map. */
  ghost predicate AllocateOutcome(es: seq<MapEntry>, es': seq<MapEntry>, limit: nat, mode: Mode, q: Request,
                                  hasBase: bool, baseIn: nat, imageHandle: nat, deviceHandle: nat,
                                  granted: bool, status: Status, base: nat)
    requires 0 < limit
  {
    && (status != EFI_SUCCESS ==> es' == es)
    && (ParameterStatus(mode, q, hasBase, imageHandle) != EFI_SUCCESS ==>
          status == ParameterStatus(mode, q, hasBase, imageHandle))
    && (ParameterStatus(mode, q, hasBase, imageHandle) == EFI_SUCCESS ==>
          && (status == EFI_SUCCESS ==> Placed(es, es', q, imageHandle, deviceHandle, base))
          && (if Ranged(mode, q, baseIn)
              then PlacementOutcome(es, es', limit, mode, q, baseIn, imageHandle, deviceHandle, granted, status, base)
              else WrappedPlacement(es, limit, mode, q, baseIn, granted, status, base)))
  }

  /** The same for ranges that can wrap around; what is recorded then is what Placed says. */
  ghost predicate WrappedPlacement(es: seq<MapEntry>, limit: nat, mode: Mode, q: Request, baseIn: nat,
                                   granted: bool, status: Status, base: nat)
    requires 0 < limit && q.length > 0
  {
    if exists b: nat :: WrappedChoice(es, limit, mode, q, baseIn, b) then
      if granted then status == EFI_SUCCESS && WrappedChoice(es, limit, mode, q, baseIn, base)
      else status == EFI_OUT_OF_RESOURCES
    else status == EFI_NOT_FOUND
  }

  /** Success means that the entries at `base` were converted, whether or not the range wraps around. */
  ghost predicate Placed(es: seq<MapEntry>, es': seq<MapEntry>, q: Request, imageHandle: nat, deviceHandle: nat,
                         base: nat)
    requires q.length > 0
  {
    && base < UINT64_RANGE
    && exists i, j ::
         && Spans(es, base, LastAddress(base, q.length), i, j)
         && (forall k :: i <= k <= j ==> Usable(q, es[k].Space))
         && es' == After(es, Allocate(imageHandle, deviceHandle), base, LastAddress(base, q.length), i, j)
  }

  /** The mode's choice is made exactly if there is one, and is then recorded for exactly its range. */
  ghost predicate PlacementOutcome(es: seq<MapEntry>, es': seq<MapEntry>, limit: nat, mode: Mode, q: Request,
                                   baseIn: nat, imageHandle: nat, deviceHandle: nat,
                                   granted: bool, status: Status, base: nat)
    requires 0 < limit && q.length > 0
  {
    if exists b: nat :: Chosen(es, limit, mode, q, baseIn, b) then
      if granted then
        && status == EFI_SUCCESS && Chosen(es, limit, mode, q, baseIn, base)
        && Updates(es, es', limit, Allocate(imageHandle, deviceHandle), base, base + q.length - 1)
      else status == EFI_OUT_OF_RESOURCES
    else status == EFI_NOT_FOUND
  }

  /** A base that is chosen is a base that fits. */
  lemma ChosenFits(es: seq<MapEntry>, limit: nat, mode: Mode, q: Request, baseIn: nat, b: nat)
    requires limit > 0 && Chosen(es, limit, mode, q, baseIn, b)
    ensures Fits(es, limit, q, MaxAddress(limit, mode, baseIn), b)
  {
  }

  lemma PlacedUpdates(es: seq<MapEntry>, es': seq<MapEntry>, limit: nat, mode: Mode, q: Request,
                      baseIn: nat, imageHandle: nat, deviceHandle: nat, base: nat)
    requires MapInvariant(es, limit) && q.length > 0 && imageHandle != 0
    requires Chosen(es, limit, mode, q, baseIn, base) && Placed(es, es', q, imageHandle, deviceHandle, base)
    ensures Updates(es, es', limit, Allocate(imageHandle, deviceHandle), base, base + q.length - 1)
  {
    hide Tiles, Canonical, Signed, HandlesPaired, Usable, FreeRange, After, Updates, Chosen;
    ChosenFits(es, limit, mode, q, baseIn, base);
    var last := LastAddress(base, q.length);
    assert last == base + q.length - 1;
    var i, j :| && Spans(es, base, last, i, j)
                && (forall k :: i <= k <= j ==> Usable(q, es[k].Space))
                && es' == After(es, Allocate(imageHandle, deviceHandle), base, last, i, j);
    AfterUpdates(es, limit, Allocate(imageHandle, deviceHandle), base, last, i, j);
  }

  /** Putting the search and the conversion together. */
  lemma OutcomeFound(es: seq<MapEntry>, es': seq<MapEntry>, limit: nat, mode: Mode, q: Request, baseIn: nat,
                     imageHandle: nat, deviceHandle: nat, granted: bool, status: Status, base: nat)
    requires MapInvariant(es, limit) && ParameterStatus(mode, q, true, imageHandle) == EFI_SUCCESS && q.length > 0
    requires if Ranged(mode, q, baseIn) then Chosen(es, limit, mode, q, baseIn, base)
             else WrappedChoice(es, limit, mode, q, baseIn, base)
    requires status == if granted then EFI_SUCCESS else EFI_OUT_OF_RESOURCES
    requires status == EFI_SUCCESS ==> Placed(es, es', q, imageHandle, deviceHandle, base)
    requires status != EFI_SUCCESS ==> es' == es
    ensures AllocateOutcome(es, es', limit, mode, q, true, baseIn, imageHandle, deviceHandle, granted, status, base)
  {
    hide Tiles, Canonical, Signed, HandlesPaired, Usable, Fits, FreeRange, After, Updates, Chosen, WrappedChoice,
         Placed, Ranged;
    if Ranged(mode, q, baseIn) && status == EFI_SUCCESS {
      PlacedUpdates(es, es', limit, mode, q, baseIn, imageHandle, deviceHandle, base);
    }
  }

  lemma OutcomeNotFound(es: seq<MapEntry>, limit: nat, mode: Mode, q: Request, baseIn: nat,
                        imageHandle: nat, deviceHandle: nat, granted: bool, base: nat)
    requires limit > 0 && ParameterStatus(mode, q, true, imageHandle) == EFI_SUCCESS && q.length > 0
    requires if Ranged(mode, q, baseIn) then forall b: nat :: !Chosen(es, limit, mode, q, baseIn, b)
             else forall b: nat :: !WrappedChoice(es, limit, mode, q, baseIn, b)
    ensures AllocateOutcome(es, es, limit, mode, q, true, baseIn, imageHandle, deviceHandle, granted,
                            EFI_NOT_FOUND, base)
  {
  }
}
