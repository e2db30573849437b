/** Consequences for single calls: what allocation and release do to each other, when attributes
    are kept, and what a range that wraps around 2^64 does to a map. */
module GcdTheorems {
  import opened Arithmetic
  import opened Efi
  import opened GcdEntries
  import opened GcdConversion
  import opened GcdSpec
  import opened GcdPlacement

  // ---------- allocating and freeing ----------

  /** Freeing exactly what was allocated restores the very same list of entries. */
  lemma AllocateThenFree(es: seq<MapEntry>, es1: seq<MapEntry>, es2: seq<MapEntry>, limit: nat, mode: Mode, q: Request,
                         baseIn: nat, imageHandle: nat, deviceHandle: nat, granted: bool, base: nat,
                         granted2: bool, cpu: CpuArch, status2: Status)
    requires MapInvariant(es, limit) && q.length > 0 && imageHandle != 0
    requires PlacementOutcome(es, es1, limit, mode, q, baseIn, imageHandle, deviceHandle, granted, EFI_SUCCESS, base)
    requires ConvertOutcome(es1, es2, limit, Free, base, q.length, granted2, cpu, status2)
    ensures status2 == if granted2 then EFI_SUCCESS else EFI_OUT_OF_RESOURCES
    ensures status2 == EFI_SUCCESS ==> es2 == es
  {
    hide Tiles, RecordAt, Canonical, Signed, FreeRange, CarriedAt, RangeStatus, HandlesPaired, WrappedOutcome;
    var c := Allocate(imageHandle, deviceHandle);
    ChosenFits(es, limit, mode, q, baseIn, base);
    var end := base + q.length - 1;
    assert base + q.length <= UINT64_RANGE;
    forall x | 0 <= x < limit
      ensures base <= x <= end ==> RecordAt(es1, x).ImageHandle != 0
      ensures Target(es1, Free, base, end, x) == RecordAt(es, x)
    {
      assert RecordAt(es1, x) == Target(es, c, base, end, x);
      PairedEverywhere(es, limit, x);
      if base <= x <= end { UsableAt(es, q, base, base + q.length, x); }
    }
    OwnedRangeFrees(es1, limit, base, q.length, base, base + q.length);
    if status2 == EFI_SUCCESS {
      assert SameRecords(es2, es, 0, limit);
      CanonicalUnique(es2, es, 0, limit);
    }
  }

  lemma UsableAt(es: seq<MapEntry>, q: Request, b: int, stop: int, x: int)
    requires FreeRange(es, q, b, stop) && b <= x < stop
    ensures RecordAt(es, x).ImageHandle == 0
  {
  }

  lemma {:induction false} OwnedRangeFrees(es: seq<MapEntry>, limit: nat, base: nat, length: nat, x: nat, stop: nat)
    requires forall y :: x <= y < stop ==> RecordAt(es, y).ImageHandle != 0
    ensures RangeStatus(es, Free, base, length, x, stop) == EFI_SUCCESS
    decreases stop - x
  {
    hide RecordAt;
    if x < stop { OwnedRangeFrees(es, limit, base, length, x + 1, stop); }
  }

  // ---------- attributes without CPU-arch bits ----------

  /** All bits of `a` are in `b`. */
  predicate Within(a: bv64, b: bv64) {
    Union(a, b) == b
  }

  lemma WithinUnion(a: bv64, b: bv64, k: bv64)
    requires Within(a, b)
    ensures Within(a, Union(b, k))
  {
  }

  lemma JustAdded(b: bv64, k: bv64)
    ensures Within(k, Union(b, k))
  {
  }

  lemma UnionAbsorbs(a: bv64, k: bv64, l: bv64)
    requires Within(k, l)
    ensures Union(Union(a, k), l) == Union(a, l)
  {
  }

  predicate CpuBitsOnly(a: bv64) {
    a & (EXCLUSIVE | NONEXCLUSIVE) == a
  }

  predicate NoCpuBits(a: bv64) {
    a & (EXCLUSIVE | NONEXCLUSIVE) == 0
  }

  lemma ForeignBits(a: bv64, k: bv64, l: bv64, carried: bv64)
    requires NoCpuBits(a) && CpuBitsOnly(k) && Within(k, carried) && !Within(k, l)
    ensures carried != Union(a, l)
  {
  }

  lemma NoCpuArchAttributes(a: bv64)
    requires CpuArchAttributes(a) == 0
    ensures NoCpuBits(a)
  {
  }

  /** The CPU-arch bits recorded about an address. */
  ghost function OwnBits(es: seq<MapEntry>, x: int): bv64 {
    KeptBits(RecordAt(es, x))
  }

  lemma OwnAreCpuBits(es: seq<MapEntry>, x: int)
    ensures CpuBitsOnly(OwnBits(es, x))
  {
    hide RecordAt;
  }

  /** Going up the range, CPU-arch bits are only ever added. */
  ghost predicate BitsGrow(es: seq<MapEntry>, base: nat, end: nat) {
    forall x, y :: base <= x <= y <= end ==> Within(OwnBits(es, x), OwnBits(es, y))
  }

  lemma CarriedFirst(es: seq<MapEntry>, c: Change, base: nat)
    requires CarriesBits(c)
    ensures CarriedAt(es, c, base, base) == Union(c.attributes, OwnBits(es, base))
  {
    hide RecordAt, CpuArchAttributes, KeptBits, Union;
  }

  lemma CarriedNext(es: seq<MapEntry>, c: Change, base: nat, x: int)
    requires CarriesBits(c) && base < x
    ensures CarriedAt(es, c, base, x) == Union(CarriedAt(es, c, base, x - 1), OwnBits(es, x))
  {
    hide RecordAt, CarriesBits, KeptBits, Union;
  }

  /** The bits of an address are among those carried to it. */
  lemma CarriedOwn(es: seq<MapEntry>, c: Change, base: nat, x: int)
    requires CarriesBits(c) && base <= x
    ensures Within(OwnBits(es, x), CarriedAt(es, c, base, x))
  {
    hide CarriedAt, OwnBits, Within, Union, CpuArchAttributes;
    if x == base {
      CarriedFirst(es, c, base);
      JustAdded(c.attributes, OwnBits(es, x));
    } else {
      CarriedNext(es, c, base, x);
      JustAdded(CarriedAt(es, c, base, x - 1), OwnBits(es, x));
    }
  }

  /** Bits once carried stay, and those of every address passed are among them. */
  lemma {:induction false} CarriedGrows(es: seq<MapEntry>, c: Change, base: nat, x: int, y: int)
    requires CarriesBits(c) && base <= x <= y
    ensures Within(OwnBits(es, x), CarriedAt(es, c, base, y))
    decreases y - x
  {
    hide CarriesBits, CarriedAt, OwnBits, Within, Union;
    if x == y {
      CarriedOwn(es, c, base, x);
    } else {
      CarriedGrows(es, c, base, x, y - 1);
      CarriedNext(es, c, base, y);
      WithinUnion(OwnBits(es, x), CarriedAt(es, c, base, y - 1), OwnBits(es, y));
    }
  }

  /** If the bits grow, the bits carried to an address are its own. */
  lemma {:induction false} CarriedIsOwn(es: seq<MapEntry>, c: Change, base: nat, end: nat, x: int)
    requires CarriesBits(c) && base <= x <= end && BitsGrow(es, base, end)
    ensures CarriedAt(es, c, base, x) == Union(c.attributes, OwnBits(es, x))
    decreases x
  {
    hide CpuArchAttributes, CarriedAt, OwnBits, Within, Union;
    if x == base {
      CarriedFirst(es, c, base);
    } else {
      CarriedIsOwn(es, c, base, end, x - 1);
      CarriedNext(es, c, base, x);
      UnionAbsorbs(c.attributes, OwnBits(es, x - 1), OwnBits(es, x));
    }
  }

  lemma CarriesTooMuch(es: seq<MapEntry>, c: Change, base: nat, x: int, y: int)
    requires CarriesBits(c) && base <= x <= y && !Within(OwnBits(es, x), OwnBits(es, y))
    ensures CarriedAt(es, c, base, y) != Union(c.attributes, OwnBits(es, y))
  {
    hide CpuArchAttributes, OwnBits, CarriedAt, Within, Union, NoCpuBits, CpuBitsOnly;
    CarriedGrows(es, c, base, x, y);
    NoCpuArchAttributes(c.attributes);
    OwnAreCpuBits(es, x);
    ForeignBits(c.attributes, OwnBits(es, x), OwnBits(es, y), CarriedAt(es, c, base, y));
  }

  lemma SomewhereTooMuch(es: seq<MapEntry>, c: Change, base: nat, end: nat) returns (y: int)
    requires CarriesBits(c) && !BitsGrow(es, base, end)
    ensures base <= y <= end && CarriedAt(es, c, base, y) != Union(c.attributes, OwnBits(es, y))
  {
    hide CpuArchAttributes, OwnBits, CarriedAt, Within, Union;
    var x;
    x, y :| base <= x <= y <= end && !Within(OwnBits(es, x), OwnBits(es, y));
    CarriesTooMuch(es, c, base, x, y);
  }

  lemma SetAt(es: seq<MapEntry>, es': seq<MapEntry>, limit: nat, attributes: bv64, base: nat, end: nat, x: int)
    requires Updates(es, es', limit, SetAttributes(attributes), base, end) && base <= x <= end < limit
    ensures RecordAt(es', x) == RecordAt(es, x).(Attributes := CarriedAt(es, SetAttributes(attributes), base, x))
  {
    hide RecordAt, MapInvariant, CarriedAt;
  }

  /** Every address of the range keeps its own CPU-arch bits and gets no other ones. */
  ghost predicate KeepsOwnBits(es: seq<MapEntry>, es': seq<MapEntry>, attributes: bv64, base: nat, end: nat) {
    forall x :: base <= x <= end ==>
      RecordAt(es', x) == RecordAt(es, x).(Attributes := Union(attributes, OwnBits(es, x)))
  }

  /** SET_ATTRIBUTES without CPU-arch bits means to keep the CPU-arch bits of every address, and does
      so exactly if those bits only grow along the range: bits of one entry are carried to the next. */
  lemma KeepsCpuBitsIff(es: seq<MapEntry>, es': seq<MapEntry>, limit: nat, attributes: bv64, base: nat, end: nat)
    requires Updates(es, es', limit, SetAttributes(attributes), base, end) && base <= end < limit
    requires CpuArchAttributes(attributes) == 0
    ensures KeepsOwnBits(es, es', attributes, base, end) <==> BitsGrow(es, base, end)
  {
    hide RecordAt, CpuArchAttributes, CarriedAt, BitsGrow, Updates, OwnBits, Union;
    var c := SetAttributes(attributes);
    if BitsGrow(es, base, end) {
      forall x | base <= x <= end
        ensures RecordAt(es', x) == RecordAt(es, x).(Attributes := Union(attributes, OwnBits(es, x)))
      {
        CarriedIsOwn(es, c, base, end, x);
        SetAt(es, es', limit, attributes, base, end, x);
      }
    } else {
      var y := SomewhereTooMuch(es, c, base, end);
      SetAt(es, es', limit, attributes, base, end, y);
    }
  }

  /** A map on which the bits do not grow, and the call on it: an uncacheable page is followed by
      write-back memory, both support RUNTIME, and setting RUNTIME on the first two pages goes through and
      makes the second one uncacheable as well. */
  lemma CarriesUncacheableOn(es: seq<MapEntry>, es': seq<MapEntry>, limit: nat, below: SpaceRecord,
                             above: SpaceRecord, status: Status)
    requires 2 * PAGE_SIZE <= limit <= SPACE_MAX && Paired(below) && Paired(above)
    requires below.Attributes == EFI_MEMORY_UC && below.Capabilities & EFI_MEMORY_RUNTIME == EFI_MEMORY_RUNTIME
    requires above.Attributes == EFI_MEMORY_WB && above.Capabilities & EFI_MEMORY_RUNTIME == EFI_MEMORY_RUNTIME
    requires es == [MapEntry(GCD_MAP_SIGNATURE, 0, PAGE_SIZE - 1, below),
                    MapEntry(GCD_MAP_SIGNATURE, PAGE_SIZE, limit - 1, above)]
    requires ConvertOutcome(es, es', limit, SetAttributes(EFI_MEMORY_RUNTIME), 0, 2 * PAGE_SIZE, true, Absent, status)
    ensures MapInvariant(es, limit) && status == EFI_SUCCESS
    ensures RecordAt(es', PAGE_SIZE).Attributes == EFI_MEMORY_RUNTIME | EFI_MEMORY_UC | EFI_MEMORY_WB
  {
    hide Tiles, RecordAt, CarriedAt, RangeStatus, Updates, WrappedOutcome, CarryAfter;
    var c, end := SetAttributes(EFI_MEMORY_RUNTIME), 2 * PAGE_SIZE - 1;
    TwoEntries(es, limit, below, above);
    ScanRange(es, limit, c, 0, 2 * PAGE_SIZE, 0, 1, 0, end);
    RuntimeSupported(es, below, above);
    assert status == EFI_SUCCESS;
    SetAt(es, es', limit, EFI_MEMORY_RUNTIME, 0, end, PAGE_SIZE);
    CarryByAddress(es, limit, c, 0, 0, 1, PAGE_SIZE);
    CarryOverTwo(es, below, above);
  }

  lemma TwoEntries(es: seq<MapEntry>, limit: nat, below: SpaceRecord, above: SpaceRecord)
    requires 2 * PAGE_SIZE <= limit <= SPACE_MAX && Paired(below) && Paired(above)
    requires below.Attributes == EFI_MEMORY_UC && above.Attributes == EFI_MEMORY_WB
    requires es == [MapEntry(GCD_MAP_SIGNATURE, 0, PAGE_SIZE - 1, below),
                    MapEntry(GCD_MAP_SIGNATURE, PAGE_SIZE, limit - 1, above)]
    ensures MapInvariant(es, limit)
  {
    assert es[..1] == [es[0]] && es[..1][..0] == [];
    assert Tiles(es, 0, limit);
  }

  lemma RuntimeSupported(es: seq<MapEntry>, below: SpaceRecord, above: SpaceRecord)
    requires |es| == 2 && es[0].Space == below && es[1].Space == above
    requires below.Capabilities & EFI_MEMORY_RUNTIME == EFI_MEMORY_RUNTIME
    requires above.Capabilities & EFI_MEMORY_RUNTIME == EFI_MEMORY_RUNTIME
    ensures EntriesStatus(es, SetAttributes(EFI_MEMORY_RUNTIME), 0, 2 * PAGE_SIZE, 0, 1) == EFI_SUCCESS
    ensures CpuArchAttributes(EFI_MEMORY_RUNTIME) == 0
  {
    var c := SetAttributes(EFI_MEMORY_RUNTIME);
    assert CheckRecord(c, below, 0, 2 * PAGE_SIZE) == EFI_SUCCESS
      && CheckRecord(c, above, 0, 2 * PAGE_SIZE) == EFI_SUCCESS;
    assert EntriesStatus(es, c, 0, 2 * PAGE_SIZE, 2, 1) == EFI_SUCCESS;
    assert EntriesStatus(es, c, 0, 2 * PAGE_SIZE, 1, 1) == EFI_SUCCESS;
  }

  lemma CarryOverTwo(es: seq<MapEntry>, below: SpaceRecord, above: SpaceRecord)
    requires |es| == 2 && es[0].Space == below && es[1].Space == above
    requires below.Attributes == EFI_MEMORY_UC && above.Attributes == EFI_MEMORY_WB
    ensures CarryAfter(es, SetAttributes(EFI_MEMORY_RUNTIME), 0, 2) ==
              EFI_MEMORY_RUNTIME | EFI_MEMORY_UC | EFI_MEMORY_WB
  {
    var c := SetAttributes(EFI_MEMORY_RUNTIME);
    assert CarryAfter(es, c, 0, 1) == NextCarry(c, below, CarryAfter(es, c, 0, 0));
    assert CarryAfter(es, c, 0, 2) == NextCarry(c, above, CarryAfter(es, c, 0, 1));
  }

  // ---------- ranges that wrap around ----------

  /** A range that wraps around inside entry `i` leaves an entry that ends before it starts, unless
      the operation changes nothing about the entry: then it leaves the list as it was. */
  lemma WrapAround(es: seq<MapEntry>, limit: nat, c: Change, base: nat, end: nat, i: nat)
    requires Tiles(es, 0, limit) && Spans(es, base, end, i, i) && end < base
    ensures Tiles(After(es, c, base, end, i, i), 0, limit) <==> NewSpace(es, c, i, i) == es[i].Space
    ensures NewSpace(es, c, i, i) == es[i].Space ==> After(es, c, base, end, i, i) == es
  {
    hide Tiles, NewSpace, After, MergeFirst, AppendMerged, Core;
    WrapParts(es, c, base, end, i);
    if NewSpace(es, c, i, i) == es[i].Space {
      WrapHeals(es, base, end, i);
    } else {
      WrapStays(es, limit, NewSpace(es, c, i, i), base, end, i);
    }
  }

  /** The three pieces of the entry, merged as far as they can be. */
  ghost function WrapPieces(es: seq<MapEntry>, r: SpaceRecord, base: nat, end: nat, i: nat): seq<MapEntry>
    requires i < |es| && end < base
  {
    var e := es[i];
    AppendMerged(AppendMerged(es[..i] + [e.(EndAddress := base - 1)], Core(e, base, end, r)),
      e.(BaseAddress := end + 1))
    + es[i + 1..]
  }

  lemma WrapHeals(es: seq<MapEntry>, base: nat, end: nat, i: nat)
    requires Spans(es, base, end, i, i) && end < base
    ensures WrapPieces(es, es[i].Space, base, end, i) == es
  {
    var e := es[i];
    var core := Core(e, base, end, e.Space);
    var one := AppendMerged(es[..i] + [e.(EndAddress := base - 1)], core);
    assert one == es[..i] + [core.(BaseAddress := e.BaseAddress)];
    assert AppendMerged(one, e.(BaseAddress := end + 1)) == es[..i] + [e];
  }

  lemma WrapStays(es: seq<MapEntry>, limit: nat, r: SpaceRecord, base: nat, end: nat, i: nat)
    requires Spans(es, base, end, i, i) && end < base && r != es[i].Space
    ensures !Tiles(WrapPieces(es, r, base, end, i), 0, limit)
  {
    hide Tiles;
    var t := WrapPieces(es, r, base, end, i);
    assert t[i + 1] == Core(es[i], base, end, r);
    if Tiles(t, 0, limit) { TilesEntry(t, 0, limit, i + 1); }
  }

  lemma WrapParts(es: seq<MapEntry>, c: Change, base: nat, end: nat, i: nat)
    requires Spans(es, base, end, i, i) && end < base
    ensures After(es, c, base, end, i, i) == WrapPieces(es, NewSpace(es, c, i, i), base, end, i)
  {
    hide NewSpace, MergeFirst;
    var e := es[i];
    var core, above := Core(e, base, end, NewSpace(es, c, i, i)), e.(BaseAddress := end + 1);
    var low, rest := es[..i] + [e.(EndAddress := base - 1)], [core, above] + es[i + 1..];
    assert Cores(es, c, base, end, i, i) == [];
    assert Cores(es, c, base, end, i, i + 1) == [core];
    assert Cores(es, c, base, end, i, i + 1) + High(es, end, i) == rest;
    TwoMerges(low, rest);
    assert rest[2..] == es[i + 1..];
  }

  lemma TwoMerges(p: seq<MapEntry>, q: seq<MapEntry>)
    requires |q| >= 2
    ensures MergeFirst(p, q, 2) == AppendMerged(AppendMerged(p, q[0]), q[1])
  {
    assert MergeFirst(p, q, 0) == p && MergeFirst(p, q, 1) == AppendMerged(p, q[0]);
  }

  /** A conversion that succeeds leaves a partition of the space if and only if its range does not
      wrap around or the operation changes nothing at its first address. */
  lemma ConvertTilesIff(es: seq<MapEntry>, es': seq<MapEntry>, limit: nat, c: Change, base: nat, length: nat,
                        granted: bool, cpu: CpuArch)
    requires MapInvariant(es, limit) && length > 0 && base < UINT64_RANGE && length < UINT64_RANGE
    requires ConvertOutcome(es, es', limit, c, base, length, granted, cpu, EFI_SUCCESS)
    ensures Tiles(es', 0, limit) <==>
              || base + length <= UINT64_RANGE
              || UpdateRecord(c, RecordAt(es, base), CarriedAt(es, c, base, base)) == RecordAt(es, base)
  {
    hide Tiles, RecordAt, Canonical, Signed, HandlesPaired, After, CheckRecord, UpdateRecord, NextCarry;
    if base + length > UINT64_RANGE {
      var end := LastAddress(base, length);
      var i :| Spans(es, base, end, i, i) && es' == After(es, c, base, end, i, i);
      WrapAround(es, limit, c, base, end, i);
      RecordIs(es, 0, limit, i, base);
      CarryByAddress(es, limit, c, base, i, i, base);
    }
  }

  /** Recording a range that was found leaves a partition exactly if the range does not wrap around. */
  lemma PlacedTilesIff(es: seq<MapEntry>, es': seq<MapEntry>, limit: nat, q: Request,
                       imageHandle: nat, deviceHandle: nat, base: nat)
    requires MapInvariant(es, limit) && 0 < q.length < UINT64_RANGE && imageHandle != 0
    requires Placed(es, es', q, imageHandle, deviceHandle, base)
    ensures Tiles(es', 0, limit) <==> base + q.length <= UINT64_RANGE
  {
    hide Tiles, RecordAt, Canonical, Signed, HandlesPaired, After;
    var end := LastAddress(base, q.length);
    var c := Allocate(imageHandle, deviceHandle);
    var i, j :| && Spans(es, base, end, i, j)
                && (forall k :: i <= k <= j ==> Usable(q, es[k].Space))
                && es' == After(es, c, base, end, i, j);
    SpansWithin(es, limit, base, end, i, j);
    if base + q.length <= UINT64_RANGE {
      AfterOperation(es, limit, c, base, end, i, j);
    } else {
      WrapAround(es, limit, c, base, end, i);
    }
  }

  /** An allocation that succeeds leaves a partition of the space if and only if its parameters rule out
      that its range wraps around: they give a range that does not, or a length of at most 2^63 to search
      for upwards, or they search downwards. */
  lemma AllocateTilesIff(es: seq<MapEntry>, es': seq<MapEntry>, limit: nat, mode: Mode, q: Request, baseIn: nat,
                         imageHandle: nat, deviceHandle: nat, granted: bool, base: nat)
    requires MapInvariant(es, limit) && q.length < UINT64_RANGE && baseIn < UINT64_RANGE
    requires AllocateOutcome(es, es', limit, mode, q, true, baseIn, imageHandle, deviceHandle, granted,
                             EFI_SUCCESS, base)
    ensures Tiles(es', 0, limit) <==> Ranged(mode, q, baseIn)
  {
    hide Tiles, Ranged, PlacementOutcome, WrappedPlacement, Placed, Canonical, Signed, HandlesPaired;
    if Ranged(mode, q, baseIn) {
      RangedTiles(es, es', limit, mode, q, baseIn, imageHandle, deviceHandle, granted, base);
    } else {
      WrappedBase(es, es', limit, mode, q, baseIn, imageHandle, deviceHandle, granted, base);
      PlacedTilesIff(es, es', limit, q, imageHandle, deviceHandle, base);
    }
  }

  lemma RangedTiles(es: seq<MapEntry>, es': seq<MapEntry>, limit: nat, mode: Mode, q: Request, baseIn: nat,
                    imageHandle: nat, deviceHandle: nat, granted: bool, base: nat)
    requires 0 < limit && q.length > 0
    requires PlacementOutcome(es, es', limit, mode, q, baseIn, imageHandle, deviceHandle, granted, EFI_SUCCESS, base)
    ensures Tiles(es', 0, limit)
  {
    hide Tiles, Chosen, Target;
  }

  lemma WrappedBase(es: seq<MapEntry>, es': seq<MapEntry>, limit: nat, mode: Mode, q: Request, baseIn: nat,
                    imageHandle: nat, deviceHandle: nat, granted: bool, base: nat)
    requires Tiles(es, 0, limit) && 0 < limit <= SPACE_MAX && 0 < q.length < UINT64_RANGE && !Ranged(mode, q, baseIn)
    requires Placed(es, es', q, imageHandle, deviceHandle, base)
    requires WrappedPlacement(es, limit, mode, q, baseIn, granted, EFI_SUCCESS, base)
    ensures base + q.length > UINT64_RANGE
  {
    hide Tiles, WrappedChoice, Ranged, After, Usable;
    ChoiceWraps(es, limit, mode, q, baseIn, base);
  }

  lemma ChoiceWraps(es: seq<MapEntry>, limit: nat, mode: Mode, q: Request, baseIn: nat, base: nat)
    requires Tiles(es, 0, limit) && 0 < limit <= SPACE_MAX && 0 < q.length < UINT64_RANGE && base < UINT64_RANGE
    requires !Ranged(mode, q, baseIn) && WrappedChoice(es, limit, mode, q, baseIn, base)
    ensures base + q.length > UINT64_RANGE
  {
    hide Tiles, Usable, AllPassedOver, FirstAligned;
    if !mode.AtAddress? {
      assert Accepted(es, q, base);
      var k: nat :| k < |es| && Spans(es, base, LastAddress(base, q.length), k, k);
      LongSpans(es, limit, base, q.length, k, k);
    }
  }

  /** The initial map of a space. */
  lemma InitialTiles(es: seq<MapEntry>, limit: nat, x: nat)
    requires x < limit && es == [MapEntry(GCD_MAP_SIGNATURE, 0, limit - 1, NOTHING)]
    ensures Tiles(es, 0, limit) && RecordAt(es, x) == NOTHING && Holds(es[0], x)
  {
    assert es[..0] == [];
    RecordIs(es, 0, limit, 0, x);
  }

  /** An allocation that wraps around and goes through: on the initial map of any space, all of 2^64 bytes
      but one, of non-existent memory, at the second page. */
  lemma AllocatingAlmostEverythingWraps(es: seq<MapEntry>, es': seq<MapEntry>, limit: nat, ioType: int,
                                        imageHandle: nat, deviceHandle: nat, status: Status, base: nat)
    requires PAGE_SIZE < limit <= SPACE_MAX && es == [MapEntry(GCD_MAP_SIGNATURE, 0, limit - 1, NOTHING)]
    requires 0 <= ioType < IO_TYPE_MAXIMUM && imageHandle != 0
    requires AllocateOutcome(es, es', limit, AtAddress,
                             Request(AllocateMemory, MEMORY_NON_EXISTENT, ioType, 0, UINT64_RANGE - 1),
                             true, PAGE_SIZE, imageHandle, deviceHandle, true, status, base)
    ensures status == EFI_SUCCESS && base == PAGE_SIZE && !Tiles(es', 0, limit)
  {
    hide Placed, Chosen, After, RecordAt, Tiles;
    var q := Request(AllocateMemory, MEMORY_NON_EXISTENT, ioType, 0, UINT64_RANGE - 1);
    InitialTiles(es, limit, PAGE_SIZE);
    InitialTiles(es, limit, LastAddress(PAGE_SIZE, q.length));
    assert Spans(es, PAGE_SIZE, LastAddress(PAGE_SIZE, q.length), 0, 0) && Usable(q, es[0].Space);
    assert Accepted(es, q, PAGE_SIZE);
    assert WrappedChoice(es, limit, AtAddress, q, PAGE_SIZE, PAGE_SIZE);
    AllocateTilesIff(es, es', limit, AtAddress, q, PAGE_SIZE, imageHandle, deviceHandle, true, base);
  }

  /** A conversion that wraps around and goes through: on the initial map of any space, adding all of
      2^64 bytes but one from the second page on succeeds, and leaves no partition. */
  lemma AddingAlmostEverythingWraps(es: seq<MapEntry>, es': seq<MapEntry>, limit: nat, t: int, cap: bv64,
                                    cpu: CpuArch, status: Status)
    requires PAGE_SIZE < limit <= SPACE_MAX && t != MEMORY_NON_EXISTENT
    requires es == [MapEntry(GCD_MAP_SIGNATURE, 0, limit - 1, NOTHING)]
    requires ConvertOutcome(es, es', limit, AddMemory(t, cap), PAGE_SIZE, UINT64_RANGE - 1, true, cpu, status)
    ensures status == EFI_SUCCESS && !Tiles(es', 0, limit)
  {
    InitialTiles(es, limit, PAGE_SIZE);
    assert Spans(es, PAGE_SIZE, LastAddress(PAGE_SIZE, UINT64_RANGE - 1), 0, 0);
    assert status == EFI_SUCCESS;
    ConvertTilesIff(es, es', limit, AddMemory(t, cap), PAGE_SIZE, UINT64_RANGE - 1, true, cpu);
  }

  // ---------- what the top-down search misses ----------

  ghost predicate HighestFit(es: seq<MapEntry>, limit: nat, q: Request, max: nat, b: nat) {
    Fits(es, limit, q, max, b) && forall b': nat :: Fits(es, limit, q, max, b') ==> b' <= b
  }

  /** The top-down modes choose the highest base that fits exactly if the entry in which its range
      ends starts low enough for base + length not to pass the highest address. */
  lemma TopDownHighestIff(es: seq<MapEntry>, limit: nat, mode: Mode, q: Request, baseIn: nat, b: nat, k: nat)
    requires MapInvariant(es, limit) && q.length > 0 && (mode.AnySearchTopDown? || mode.MaxAddressSearchTopDown?)
    requires HighestFit(es, limit, q, MaxAddress(limit, mode, baseIn), b) && k < |es| && Holds(es[k], b + q.length - 1)
    ensures Chosen(es, limit, mode, q, baseIn, b) <==> es[k].BaseAddress + q.length <= MaxAddress(limit, mode, baseIn)
  {
    hide Tiles, Canonical, Signed, HandlesPaired, Fits;
    var max: nat := MaxAddress(limit, mode, baseIn);
    if Considered(es, q, max, b) {
      var n :| 0 <= n < |es| && Holds(es[n], b + q.length - 1) && es[n].BaseAddress + q.length <= max;
      TilesHoldOnce(es, 0, limit, k, n, b + q.length - 1);
    }
  }

  /** A free entry at the end of the space is never filled exactly: with nothing else free, a request
      for its whole length finds nothing, although it fits there. */
  lemma LastEntryNeverFilled(es: seq<MapEntry>, limit: nat, q: Request, b: nat)
    requires MapInvariant(es, limit) && q.length > 0 && b % Pow2(q.alignment) == 0
    requires |es| > 0 && es[|es| - 1].BaseAddress == b && q.length == limit - b && Usable(q, es[|es| - 1].Space)
    ensures Fits(es, limit, q, limit - 1, b) && !Chosen(es, limit, AnySearchTopDown, q, 0, b)
  {
    hide Canonical, Signed, HandlesPaired, Usable, RecordAt;
    var k := |es| - 1;
    TilesEntry(es, 0, limit, k);
    forall x | b <= x < limit ensures Usable(q, RecordAt(es, x)) { RecordIs(es, 0, limit, k, x); }
    if Considered(es, q, limit - 1, b) {
      var n :| 0 <= n < |es| && Holds(es[n], limit - 1) && es[n].BaseAddress + q.length <= limit - 1;
      TilesHoldOnce(es, 0, limit, k, n, limit - 1);
    }
  }
}
