/** What the GCD services promise about the address-to-record function: no entries, no splits and
    no merges, only what is recorded about each address. */
module GcdSpec {
  import opened Efi
  import opened GcdEntries
  import opened GcdConversion

  /** gCpu: not there yet, or there and answering SetMemoryAttributes on a range with a status. */
  datatype CpuArch = Absent | Present(SetMemoryAttributes: (nat, nat, bv64) -> Status)

  /** The last address of a range, as 64-bit code computes it. */
  function LastAddress(base: nat, length: nat): nat
    requires length > 0
  {
    (base + length - 1) % UINT64_RANGE
  }

  // ---------- the update of a range ----------

  /** The attributes the update carries once it has passed address `x`: those asked for, and for
      SET_ATTRIBUTES without CPU-arch bits the CPU-arch bits of every address of the range so far. */
  ghost function CarriedAt(es: seq<MapEntry>, c: Change, base: nat, x: int): bv64
    decreases x - base
  {
    if x < base then FirstCarry(c) else NextCarry(c, RecordAt(es, x), CarriedAt(es, c, base, x - 1))
  }

  /** What is recorded about `x` once `c` was applied to [base, end]. */
  ghost function Target(es: seq<MapEntry>, c: Change, base: nat, end: nat, x: int): SpaceRecord {
    if base <= x <= end then UpdateRecord(c, RecordAt(es, x), CarriedAt(es, c, base, x)) else RecordAt(es, x)
  }

  /** `es'` is a map for the function of `es` with `c` applied to [base, end] and to nothing else. */
  ghost predicate Updates(es: seq<MapEntry>, es': seq<MapEntry>, limit: nat, c: Change, base: nat, end: nat) {
    && MapInvariant(es', limit)
    && forall x :: 0 <= x < limit ==> RecordAt(es', x) == Target(es, c, base, end, x)
  }

  lemma CarryTwice(c: Change, r: SpaceRecord, carry: bv64)
    ensures NextCarry(c, r, NextCarry(c, r, carry)) == NextCarry(c, r, carry)
  {
  }

  /** Carrying entry by entry and carrying address by address is the same. */
  lemma {:induction false} CarryByAddress(es: seq<MapEntry>, limit: nat, c: Change, base: nat, i: nat, k: nat, x: int)
    requires Tiles(es, 0, limit) && i <= k < |es| && Holds(es[i], base) && Holds(es[k], x) && base <= x
    ensures CarriedAt(es, c, base, x) == CarryAfter(es, c, i, k + 1)
    decreases x - base
  {
    hide Tiles, RecordAt, NextCarry;
    RecordIs(es, 0, limit, k, x);
    if x == base {
      TilesHoldOnce(es, 0, limit, i, k, x);
    } else if Holds(es[k], x - 1) {
      CarryByAddress(es, limit, c, base, i, k, x - 1);
      CarryTwice(c, es[k].Space, CarryAfter(es, c, i, k));
    } else {
      if i == k { TilesHoldOnce(es, 0, limit, i, k, x); }
      TilesEntry(es, 0, limit, k - 1);
      CarryByAddress(es, limit, c, base, i, k - 1, x - 1);
    }
  }

  predicate Paired(r: SpaceRecord) {
    r.ImageHandle == 0 ==> r.DeviceHandle == 0
  }

  /** An allocation names an owner. */
  predicate NamesOwner(c: Change) {
    c.Allocate? ==> c.imageHandle != 0
  }

  lemma UpdateKeepsPaired(c: Change, r: SpaceRecord, carry: bv64)
    requires Paired(r) && NamesOwner(c)
    ensures Paired(UpdateRecord(c, r, carry))
  {
  }

  lemma PairedEverywhere(es: seq<MapEntry>, limit: nat, x: int)
    requires Tiles(es, 0, limit) && HandlesPaired(es) && 0 <= x < limit
    ensures Paired(RecordAt(es, x))
  {
  }

  lemma PairedFromRecords(es: seq<MapEntry>, limit: nat)
    requires Tiles(es, 0, limit) && forall x :: 0 <= x < limit ==> Paired(RecordAt(es, x))
    ensures HandlesPaired(es)
  {
    forall k | 0 <= k < |es| ensures Paired(es[k].Space) {
      TilesEntry(es, 0, limit, k);
      RecordIs(es, 0, limit, k, es[k].BaseAddress);
    }
  }

  /** The list operations do to the function exactly what the address-level update says. */
  lemma AfterRecord(es: seq<MapEntry>, limit: nat, c: Change, base: nat, end: nat, i: nat, j: nat, x: int)
    requires Tiles(es, 0, limit) && Canonical(es) && Signed(es) && Spans(es, base, end, i, j) && base <= end
    requires 0 <= x < limit
    ensures RecordAt(After(es, c, base, end, i, j), x) == Target(es, c, base, end, x)
  {
    hide Tiles, RecordAt, Canonical, Signed, After, Converted, UpdateRecord, CarryAfter, CarriedAt;
    AfterOperation(es, limit, c, base, end, i, j);
    var k := EntryAt(es, 0, limit, x);
    RecordIs(es, 0, limit, k, x);
    ConvertedRecord(es, limit, c, base, end, i, j, k, x);
    if base <= x <= end {
      CarryByAddress(es, limit, c, base, i, k, x);
    }
  }

  lemma AfterUpdates(es: seq<MapEntry>, limit: nat, c: Change, base: nat, end: nat, i: nat, j: nat)
    requires MapInvariant(es, limit) && Spans(es, base, end, i, j) && base <= end && NamesOwner(c)
    ensures Updates(es, After(es, c, base, end, i, j), limit, c, base, end)
  {
    hide Tiles, RecordAt, Canonical, Signed, After, UpdateRecord, CarriedAt, Paired, HandlesPaired;
    var t := After(es, c, base, end, i, j);
    AfterOperation(es, limit, c, base, end, i, j);
    forall x | 0 <= x < limit ensures RecordAt(t, x) == Target(es, c, base, end, x) && Paired(RecordAt(t, x)) {
      AfterRecord(es, limit, c, base, end, i, j, x);
      PairedEverywhere(es, limit, x);
      UpdateKeepsPaired(c, RecordAt(es, x), CarriedAt(es, c, base, x));
    }
    PairedFromRecords(t, limit);
  }

  /** Lists are canonical, so the updated function determines the new list. */
  lemma UpdatesUnique(es: seq<MapEntry>, a: seq<MapEntry>, b: seq<MapEntry>, limit: nat, c: Change, base: nat, end: nat)
    requires Updates(es, a, limit, c, base, end) && Updates(es, b, limit, c, base, end)
    ensures a == b
  {
    CanonicalUnique(a, b, 0, limit);
  }

  // ---------- the status of a conversion ----------

  /** The first complaint about an address of [x, stop), in address order. */
  ghost function RangeStatus(es: seq<MapEntry>, c: Change, base: nat, length: nat, x: nat, stop: nat): Status
    decreases stop - x
  {
    if x >= stop then EFI_SUCCESS
    else
      var s := CheckRecord(c, RecordAt(es, x), base, length);
      if s != EFI_SUCCESS then s else RangeStatus(es, c, base, length, x + 1, stop)
  }

  /** The first complaint about an entry from `i` to `j`. */
  ghost function EntriesStatus(es: seq<MapEntry>, c: Change, base: nat, length: nat, i: nat, j: nat): Status
    requires j < |es|
    decreases j + 1 - i
  {
    if i > j then EFI_SUCCESS
    else
      var s := CheckRecord(c, es[i].Space, base, length);
      if s != EFI_SUCCESS then s else EntriesStatus(es, c, base, length, i + 1, j)
  }

  /** Addresses of one entry agree, so a scan can jump to its end. */
  lemma {:induction false} ScanEntry(es: seq<MapEntry>, limit: nat, c: Change, base: nat, length: nat, k: nat, x: nat,
                                     stop: nat)
    requires Tiles(es, 0, limit) && k < |es| && Holds(es[k], x) && x < stop
    ensures var s := CheckRecord(c, es[k].Space, base, length);
            RangeStatus(es, c, base, length, x, stop)
            == if s != EFI_SUCCESS then s else RangeStatus(es, c, base, length, es[k].EndAddress + 1, stop)
    decreases es[k].EndAddress - x
  {
    hide Tiles, RecordAt, CheckRecord;
    RecordIs(es, 0, limit, k, x);
    if x < es[k].EndAddress && x + 1 < stop {
      ScanEntry(es, limit, c, base, length, k, x + 1, stop);
    }
  }

  lemma {:induction false} ScanRange(es: seq<MapEntry>, limit: nat, c: Change, base: nat, length: nat, i: nat, j: nat,
                                     x: nat, end: nat)
    requires Tiles(es, 0, limit) && Spans(es, x, end, i, j) && x <= end
    ensures RangeStatus(es, c, base, length, x, end + 1) == EntriesStatus(es, c, base, length, i, j)
    decreases j - i
  {
    hide Tiles, CheckRecord;
    ScanEntry(es, limit, c, base, length, i, x, end + 1);
    if i < j {
      TilesEntry(es, 0, limit, i);
      TilesEntry(es, 0, limit, i + 1);
      TilesOrdered(es, 0, limit, i, j);
      if i + 1 < j { TilesOrdered(es, 0, limit, i + 1, j); }
      ScanRange(es, limit, c, base, length, i + 1, j, es[i + 1].BaseAddress, end);
    } else {
      assert EntriesStatus(es, c, base, length, i + 1, j) == EFI_SUCCESS;
    }
  }

  /** Work space, then the CPU: the reasons left for a range that passed its checks to be refused. */
  function WorkStatus(c: Change, base: nat, length: nat, granted: bool, cpu: CpuArch): Status {
    if !granted then EFI_OUT_OF_RESOURCES
    else if c.SetAttributes? && CpuArchAttributes(c.attributes) != 0 then
      if cpu.Absent? then EFI_NOT_AVAILABLE_YET
      else cpu.SetMemoryAttributes(base, length, CpuArchAttributes(c.attributes))
    else EFI_SUCCESS
  }

  function Then(first: Status, second: Status): Status {
    if first != EFI_SUCCESS then first else second
  }

  /** The status of CoreConvertSpace on a range that does not wrap around. */
  ghost function ConvertStatus(es: seq<MapEntry>, limit: nat, c: Change, base: nat, length: nat, granted: bool,
                               cpu: CpuArch): Status {
    if length == 0 then EFI_INVALID_PARAMETER
    else if base + length > limit then EFI_UNSUPPORTED
    else Then(RangeStatus(es, c, base, length, base, base + length), WorkStatus(c, base, length, granted, cpu))
  }

  /** A range inside the space is spanned by two of its entries, and no other is. */
  lemma SpansInside(es: seq<MapEntry>, limit: nat, base: nat, end: nat) returns (i: nat, j: nat)
    requires Tiles(es, 0, limit) && base <= end < limit
    ensures Spans(es, base, end, i, j)
  {
    i := EntryAt(es, 0, limit, base);
    j := EntryAt(es, 0, limit, end);
    if j < i { TilesOrdered(es, 0, limit, j, i); }
  }

  lemma SpansWithin(es: seq<MapEntry>, limit: nat, base: nat, end: nat, i: nat, j: nat)
    requires Tiles(es, 0, limit) && Spans(es, base, end, i, j)
    ensures base < limit && end < limit
    ensures end < base ==> i == j
    ensures base <= end ==> forall k :: i < k <= j ==> base <= es[k].BaseAddress
    ensures base <= end ==> forall k :: i <= k < j ==> es[k].EndAddress <= end
    ensures forall m, n :: Spans(es, base, end, m, n) ==> m == i && n == j
  {
    hide Tiles;
    RecordIs(es, 0, limit, i, base);
    RecordIs(es, 0, limit, j, end);
    if i < j { TilesOrdered(es, 0, limit, i, j); }
    forall k | i < k <= j ensures base <= es[k].BaseAddress { TilesOrdered(es, 0, limit, i, k); }
    forall k | i <= k < j ensures es[k].EndAddress <= end { TilesOrdered(es, 0, limit, k, j); }
    forall m, n | Spans(es, base, end, m, n) ensures m == i && n == j {
      TilesHoldOnce(es, 0, limit, m, i, base);
      TilesHoldOnce(es, 0, limit, n, j, end);
    }
  }

  /** When base + length passes 2^64 the last address comes out below the first, and the range is
      taken to be there only if one entry holds both. */
  ghost predicate WrappedOutcome(es: seq<MapEntry>, es': seq<MapEntry>, c: Change, base: nat, length: nat,
                                 granted: bool, cpu: CpuArch, status: Status)
    requires length > 0
  {
    var end := LastAddress(base, length);
    if exists i :: Spans(es, base, end, i, i) then
      && status == Then(CheckRecord(c, RecordAt(es, base), base, length), WorkStatus(c, base, length, granted, cpu))
      && (status == EFI_SUCCESS ==> exists i :: Spans(es, base, end, i, i) && es' == After(es, c, base, end, i, i))
    else
      status == EFI_UNSUPPORTED
  }

  /** What CoreConvertSpace does to a map: all or nothing, and all is exactly the update asked for. */
  ghost predicate ConvertOutcome(es: seq<MapEntry>, es': seq<MapEntry>, limit: nat, c: Change, base: nat, length: nat,
                                 granted: bool, cpu: CpuArch, status: Status)
  {
    && (status != EFI_SUCCESS ==> es' == es)
    && (length > 0 && base + length > UINT64_RANGE ==> WrappedOutcome(es, es', c, base, length, granted, cpu, status))
    && (length == 0 || base + length <= UINT64_RANGE ==>
          && status == ConvertStatus(es, limit, c, base, length, granted, cpu)
          && (status == EFI_SUCCESS ==> Updates(es, es', limit, c, base, base + length - 1)))
  }

  lemma OutcomeEmpty(es: seq<MapEntry>, limit: nat, c: Change, base: nat, granted: bool, cpu: CpuArch)
    ensures ConvertOutcome(es, es, limit, c, base, 0, granted, cpu, EFI_INVALID_PARAMETER)
  {
  }

  /** From what the search, the checks and the work space say to the outcome. */
  lemma OutcomeUnspanned(es: seq<MapEntry>, limit: nat, c: Change, base: nat, length: nat, granted: bool, cpu: CpuArch)
    requires MapInvariant(es, limit) && length > 0 && base < UINT64_RANGE && length < UINT64_RANGE
    requires forall i, j :: !Spans(es, base, LastAddress(base, length), i, j)
    ensures ConvertOutcome(es, es, limit, c, base, length, granted, cpu, EFI_UNSUPPORTED)
  {
    hide Tiles, CheckRecord, Updates, RangeStatus;
    if base + length <= limit {
      var i, j := SpansInside(es, limit, base, LastAddress(base, length));
    }
  }

  lemma OutcomeSpanned(es: seq<MapEntry>, es': seq<MapEntry>, limit: nat, c: Change, base: nat, length: nat,
                       granted: bool, cpu: CpuArch, status: Status, i: nat, j: nat)
    requires MapInvariant(es, limit) && length > 0 && base < UINT64_RANGE && length < UINT64_RANGE && NamesOwner(c)
    requires Spans(es, base, LastAddress(base, length), i, j)
    requires status == Then(EntriesStatus(es, c, base, length, i, j), WorkStatus(c, base, length, granted, cpu))
    requires es' == if status == EFI_SUCCESS then After(es, c, base, LastAddress(base, length), i, j) else es
    ensures ConvertOutcome(es, es', limit, c, base, length, granted, cpu, status)
  {
    hide Tiles, CheckRecord, Updates, RangeStatus, After, RecordAt, WorkStatus, Canonical, HandlesPaired, Signed;
    var end := LastAddress(base, length);
    SpansWithin(es, limit, base, end, i, j);
    if base + length <= UINT64_RANGE {
      assert end == base + length - 1;
      ScanRange(es, limit, c, base, length, i, j, base, end);
      if status == EFI_SUCCESS { AfterUpdates(es, limit, c, base, end, i, j); }
    } else {
      assert end < base;
      assert Spans(es, base, end, i, i);
      RecordIs(es, 0, limit, i, base);
      assert EntriesStatus(es, c, base, length, i + 1, i) == EFI_SUCCESS;
    }
  }
}
