/** What callers of CoreConvertSpace and CoreAllocateSpace are promised: which record every address has
    afterwards, field by field, and which answer they get when, in the numbers of the specifications. */
module GcdPromises {
  import opened Arithmetic
  import opened Efi
  import opened GcdEntries
  import opened GcdConversion
  import opened GcdSpec
  import opened GcdPlacement

  // ---------- conversions that succeed ----------

  lemma {:induction false} NoComplaint(es: seq<MapEntry>, c: Change, base: nat, length: nat, x: nat, stop: nat, y: int)
    requires RangeStatus(es, c, base, length, x, stop) == EFI_SUCCESS && x <= y < stop
    ensures CheckRecord(c, RecordAt(es, y), base, length) == EFI_SUCCESS
    decreases stop - x
  {
    hide CheckRecord, RecordAt;
    if x < y { NoComplaint(es, c, base, length, x + 1, stop, y); }
  }

  /** A conversion that succeeds found nothing to complain about in its range, updates the records of the
      range and leaves all others alone. */
  lemma Converted(es: seq<MapEntry>, es': seq<MapEntry>, limit: nat, c: Change, base: nat, length: nat, granted: bool,
                  cpu: CpuArch, x: int)
    requires ConvertOutcome(es, es', limit, c, base, length, granted, cpu, EFI_SUCCESS)
    requires base + length <= 0x1_0000_0000_0000_0000
    ensures 0 < length && base + length <= limit
    ensures 0 <= x < limit && !(base <= x < base + length) ==> RecordAt(es', x) == RecordAt(es, x)
    ensures base <= x < base + length ==>
              && CheckRecord(c, RecordAt(es, x), base, length) == EFI_SUCCESS
              && RecordAt(es', x) == UpdateRecord(c, RecordAt(es, x), CarriedAt(es, c, base, x))
  {
    hide CheckRecord, UpdateRecord, RecordAt, CarriedAt, MapInvariant, RangeStatus, WrappedOutcome, WorkStatus;
    if base <= x < base + length { NoComplaint(es, c, base, length, base, base + length, x); }
  }

  /** Whatever succeeds, what is recorded about addresses outside the range stays. */
  lemma NothingElse(es: seq<MapEntry>, es': seq<MapEntry>, limit: nat, c: Change, base: nat, length: nat,
                    granted: bool, cpu: CpuArch)
    requires ConvertOutcome(es, es', limit, c, base, length, granted, cpu, EFI_SUCCESS)
    requires base + length <= 0x1_0000_0000_0000_0000
    ensures forall x :: 0 <= x < base || base + length <= x < limit ==> RecordAt(es', x) == RecordAt(es, x)
  {
    hide RecordAt, ConvertOutcome;
    forall x | 0 <= x < base || base + length <= x < limit ensures RecordAt(es', x) == RecordAt(es, x) {
      Converted(es, es', limit, c, base, length, granted, cpu, x);
    }
  }

  /** Memory that is added has the type and the capabilities given, and RUNTIME; memory-mapped I/O has
      PORT_IO as well. */
  lemma MemoryAdded(es: seq<MapEntry>, es': seq<MapEntry>, limit: nat, t: int, cap: bv64, base: nat, length: nat,
                    granted: bool, cpu: CpuArch)
    requires ConvertOutcome(es, es', limit, AddMemory(t, cap), base, length, granted, cpu, EFI_SUCCESS)
    requires base + length <= 0x1_0000_0000_0000_0000
    ensures forall x :: base <= x < base + length ==>
              var r, r' := RecordAt(es, x), RecordAt(es', x);
              && r.GcdMemoryType == 0 && r.ImageHandle == 0
              && r'.GcdMemoryType == t
              && r'.Capabilities == (if t == 3 then WithPortIo(WithRuntime(cap)) else WithRuntime(cap))
              && r'.Attributes == r.Attributes && r'.GcdIoType == r.GcdIoType
              && r'.ImageHandle == r.ImageHandle && r'.DeviceHandle == r.DeviceHandle
  {
    hide RecordAt, ConvertOutcome, CarriedAt, UpdateRecord, CheckRecord, WithRuntime, WithPortIo;
    var c := AddMemory(t, cap);
    forall x | base <= x < base + length
      ensures RecordAt(es, x).GcdMemoryType == 0 && RecordAt(es, x).ImageHandle == 0
      ensures RecordAt(es', x) == AddedRecord(t, cap, RecordAt(es, x))
    {
      Converted(es, es', limit, c, base, length, granted, cpu, x);
      AddedRecordIs(t, cap, RecordAt(es, x), CarriedAt(es, c, base, x), base, length);
    }
  }

  function WithRuntime(cap: bv64): bv64 {
    cap | 0x8000_0000_0000_0000
  }

  function WithPortIo(cap: bv64): bv64 {
    cap | 0x4000_0000_0000_0000
  }

  ghost function AddedRecord(t: int, cap: bv64, r: SpaceRecord): SpaceRecord {
    SpaceRecord(if t == 3 then WithPortIo(WithRuntime(cap)) else WithRuntime(cap),
                r.Attributes, t, r.GcdIoType, r.ImageHandle, r.DeviceHandle)
  }

  lemma AddedRecordIs(t: int, cap: bv64, r: SpaceRecord, carry: bv64, base: nat, length: nat)
    ensures UpdateRecord(AddMemory(t, cap), r, carry) == AddedRecord(t, cap, r)
    ensures CheckRecord(AddMemory(t, cap), r, base, length) == EFI_SUCCESS ==>
              r.GcdMemoryType == 0 && r.ImageHandle == 0
  {
    hide AddedCapabilities, WithRuntime, WithPortIo;
    AddedCapabilitiesAre(t, cap);
  }

  lemma AddedCapabilitiesAre(t: int, cap: bv64)
    ensures t == 3 ==> AddedCapabilities(t, cap) == WithPortIo(WithRuntime(cap))
    ensures t != 3 ==> AddedCapabilities(t, cap) == WithRuntime(cap)
  {
  }

  lemma IoAdded(es: seq<MapEntry>, es': seq<MapEntry>, limit: nat, t: int, base: nat, length: nat, granted: bool,
                cpu: CpuArch)
    requires ConvertOutcome(es, es', limit, AddIo(t), base, length, granted, cpu, EFI_SUCCESS)
    requires base + length <= 0x1_0000_0000_0000_0000
    ensures forall x :: base <= x < base + length ==>
              var r, r' := RecordAt(es, x), RecordAt(es', x);
              && r.GcdIoType == 0 && r.ImageHandle == 0
              && r'.GcdIoType == t
              && r'.Capabilities == r.Capabilities && r'.Attributes == r.Attributes
              && r'.GcdMemoryType == r.GcdMemoryType
              && r'.ImageHandle == r.ImageHandle && r'.DeviceHandle == r.DeviceHandle
  {
    hide RecordAt, ConvertOutcome, CarriedAt;
    var c := AddIo(t);
    forall x | base <= x < base + length
      ensures RecordAt(es', x) == UpdateRecord(c, RecordAt(es, x), CarriedAt(es, c, base, x))
      ensures CheckRecord(c, RecordAt(es, x), base, length) == EFI_SUCCESS
    {
      Converted(es, es', limit, c, base, length, granted, cpu, x);
    }
  }

  /** What is freed was owned, and has no owner and no device any more. */
  lemma Freed(es: seq<MapEntry>, es': seq<MapEntry>, limit: nat, base: nat, length: nat, granted: bool, cpu: CpuArch)
    requires ConvertOutcome(es, es', limit, Free, base, length, granted, cpu, EFI_SUCCESS)
    requires base + length <= 0x1_0000_0000_0000_0000
    ensures forall x :: base <= x < base + length ==>
              var r, r' := RecordAt(es, x), RecordAt(es', x);
              && r.ImageHandle != 0
              && r'.ImageHandle == 0 && r'.DeviceHandle == 0
              && r'.Capabilities == r.Capabilities && r'.Attributes == r.Attributes
              && r'.GcdMemoryType == r.GcdMemoryType && r'.GcdIoType == r.GcdIoType
  {
    hide RecordAt, ConvertOutcome, CarriedAt;
    forall x | base <= x < base + length
      ensures RecordAt(es', x) == UpdateRecord(Free, RecordAt(es, x), CarriedAt(es, Free, base, x))
      ensures CheckRecord(Free, RecordAt(es, x), base, length) == EFI_SUCCESS
    {
      Converted(es, es', limit, Free, base, length, granted, cpu, x);
    }
  }

  /** Memory that is removed existed without an owner, and neither exists nor can do anything any more. */
  lemma MemoryRemoved(es: seq<MapEntry>, es': seq<MapEntry>, limit: nat, base: nat, length: nat, granted: bool,
                      cpu: CpuArch)
    requires ConvertOutcome(es, es', limit, RemoveMemory, base, length, granted, cpu, EFI_SUCCESS)
    requires base + length <= 0x1_0000_0000_0000_0000
    ensures forall x :: base <= x < base + length ==>
              var r, r' := RecordAt(es, x), RecordAt(es', x);
              && r.GcdMemoryType != 0 && r.ImageHandle == 0
              && r'.GcdMemoryType == 0 && r'.Capabilities == 0
              && r'.Attributes == r.Attributes && r'.GcdIoType == r.GcdIoType
              && r'.ImageHandle == r.ImageHandle && r'.DeviceHandle == r.DeviceHandle
  {
    hide RecordAt, ConvertOutcome, CarriedAt;
    forall x | base <= x < base + length
      ensures RecordAt(es', x) == UpdateRecord(RemoveMemory, RecordAt(es, x), CarriedAt(es, RemoveMemory, base, x))
      ensures CheckRecord(RemoveMemory, RecordAt(es, x), base, length) == EFI_SUCCESS
    {
      Converted(es, es', limit, RemoveMemory, base, length, granted, cpu, x);
    }
  }

  lemma IoRemoved(es: seq<MapEntry>, es': seq<MapEntry>, limit: nat, base: nat, length: nat, granted: bool,
                  cpu: CpuArch)
    requires ConvertOutcome(es, es', limit, RemoveIo, base, length, granted, cpu, EFI_SUCCESS)
    requires base + length <= 0x1_0000_0000_0000_0000
    ensures forall x :: base <= x < base + length ==>
              var r, r' := RecordAt(es, x), RecordAt(es', x);
              && r.GcdIoType != 0 && r.ImageHandle == 0
              && r'.GcdIoType == 0
              && r'.Capabilities == r.Capabilities && r'.Attributes == r.Attributes
              && r'.GcdMemoryType == r.GcdMemoryType
              && r'.ImageHandle == r.ImageHandle && r'.DeviceHandle == r.DeviceHandle
  {
    hide RecordAt, ConvertOutcome, CarriedAt;
    forall x | base <= x < base + length
      ensures RecordAt(es', x) == UpdateRecord(RemoveIo, RecordAt(es, x), CarriedAt(es, RemoveIo, base, x))
      ensures CheckRecord(RemoveIo, RecordAt(es, x), base, length) == EFI_SUCCESS
    {
      Converted(es, es', limit, RemoveIo, base, length, granted, cpu, x);
    }
  }

  /** New capabilities cover the attributes in force. */
  lemma CapabilitiesSet(es: seq<MapEntry>, es': seq<MapEntry>, limit: nat, cap: bv64, base: nat, length: nat,
                        granted: bool, cpu: CpuArch)
    requires ConvertOutcome(es, es', limit, SetCapabilities(cap), base, length, granted, cpu, EFI_SUCCESS)
    requires base + length <= 0x1_0000_0000_0000_0000
    ensures base % 0x1000 == 0 && length % 0x1000 == 0
    ensures forall x :: base <= x < base + length ==>
              var r, r' := RecordAt(es, x), RecordAt(es', x);
              && Includes(cap, r.Attributes)
              && r'.Capabilities == cap
              && r'.Attributes == r.Attributes
              && r'.GcdMemoryType == r.GcdMemoryType && r'.GcdIoType == r.GcdIoType
              && r'.ImageHandle == r.ImageHandle && r'.DeviceHandle == r.DeviceHandle
  {
    hide RecordAt, ConvertOutcome, CarriedAt, CheckRecord, Includes;
    var c := SetCapabilities(cap);
    Converted(es, es', limit, c, base, length, granted, cpu, base);
    CapabilitiesCheck(cap, RecordAt(es, base), base, length);
    forall x | base <= x < base + length
      ensures RecordAt(es', x) == UpdateRecord(c, RecordAt(es, x), CarriedAt(es, c, base, x))
      ensures Includes(cap, RecordAt(es, x).Attributes)
    {
      Converted(es, es', limit, c, base, length, granted, cpu, x);
      CapabilitiesCheck(cap, RecordAt(es, x), base, length);
    }
  }

  // ---------- attributes ----------

  /** The word the CPU is asked to set: the page attributes, and of the cache attributes the lowest. */
  function CpuWord(a: bv64): bv64 {
    (a & 0x26000) | ((a & 0x101F) & (0 - (a & 0x101F)))
  }

  lemma CpuWordIs(a: bv64)
    ensures CpuArchAttributes(a) == CpuWord(a)
    ensures CpuWord(a) == 0 <==> !HasCpuBits(a)
  {
  }

  predicate HasCpuBits(a: bv64) {
    a & 0x2701F != 0
  }

  predicate HasRuntime(a: bv64) {
    a & 0x8000_0000_0000_0000 != 0
  }

  /** All bits of `a` are in `b`. */
  predicate Includes(b: bv64, a: bv64) {
    b & a == a
  }

  /** `v` is `a` but for page and cache attributes, of which there may be more. */
  predicate AddsCpuBits(v: bv64, a: bv64) {
    a & !v == 0 && v & !a & !0x2701F == 0
  }

  /** All page and cache attributes of `a` are in `b`. */
  predicate CoversCpuBits(b: bv64, a: bv64) {
    a & 0x2701F & !b == 0
  }

  ghost predicate CoversRange(es: seq<MapEntry>, base: nat, x: int, b: bv64) {
    forall y :: base <= y <= x ==> CoversCpuBits(b, RecordAt(es, y).Attributes)
  }

  /** `v` is `a` with the page and cache attributes recorded in [base, x], no more and no less. */
  ghost predicate Gathered(es: seq<MapEntry>, a: bv64, base: nat, x: int, v: bv64) {
    && AddsCpuBits(v, a) && CoversRange(es, base, x, v)
    && forall b :: CoversRange(es, base, x, b) ==> CoversCpuBits(b, v)
  }

  // Bits gathered, and one more record: what the update loop carries on.

  lemma GatherOthers(a: bv64, r: bv64, v: bv64)
    requires AddsCpuBits(v, a)
    ensures AddsCpuBits(Union(v, CpuBits(r)), a)
  {
  }

  lemma GatherBits(r: bv64, v: bv64)
    ensures CoversCpuBits(Union(v, CpuBits(r)), r)
  {
  }

  lemma GatherKeeps(q: bv64, r: bv64, v: bv64)
    ensures CoversCpuBits(v, q) ==> CoversCpuBits(Union(v, CpuBits(r)), q)
    ensures CoversCpuBits(q, v) && CoversCpuBits(q, r) ==> CoversCpuBits(q, Union(v, CpuBits(r)))
  {
  }

  function CpuBits(r: bv64): bv64 {
    r & (EXCLUSIVE | NONEXCLUSIVE)
  }

  lemma NoCpuBitsCovered(a: bv64, b: bv64)
    requires !HasCpuBits(a)
    ensures AddsCpuBits(a, a) && CoversCpuBits(b, a)
  {
  }

  lemma CarryStep(es: seq<MapEntry>, a: bv64, base: nat, x: int)
    requires base <= x
    ensures CarriedAt(es, SetAttributes(a), base, base - 1) == a
    ensures var before := CarriedAt(es, SetAttributes(a), base, x - 1);
            CarriedAt(es, SetAttributes(a), base, x)
            == if HasCpuBits(a) then before else Union(before, CpuBits(RecordAt(es, x).Attributes))
  {
    hide RecordAt, CpuArchAttributes, Union;
    CpuWordIs(a);
  }

  lemma {:induction false} CarriedGathers(es: seq<MapEntry>, a: bv64, base: nat, x: int)
    requires base <= x && !HasCpuBits(a)
    ensures Gathered(es, a, base, x, CarriedAt(es, SetAttributes(a), base, x))
    decreases x
  {
    hide RecordAt, CpuArchAttributes, CoversCpuBits, Union, CarriedAt, HasCpuBits, AddsCpuBits, CpuBits;
    var c, r := SetAttributes(a), RecordAt(es, x).Attributes;
    var before, after := CarriedAt(es, c, base, x - 1), CarriedAt(es, c, base, x);
    CarryStep(es, a, base, x);
    NoCpuBitsCovered(a, a);
    if base < x { CarriedGathers(es, a, base, x - 1); }
    GatherOthers(a, r, before);
    GatherBits(r, before);
    forall y | base <= y <= x ensures CoversCpuBits(after, RecordAt(es, y).Attributes) {
      GatherKeeps(RecordAt(es, y).Attributes, r, before);
    }
    forall b | CoversRange(es, base, x, b) ensures CoversCpuBits(b, after) {
      NoCpuBitsCovered(a, b);
      assert CoversRange(es, base, x - 1, b);
      GatherKeeps(b, r, before);
    }
  }

  lemma {:induction false} CarriesNothing(es: seq<MapEntry>, a: bv64, base: nat, x: int)
    requires base <= x && HasCpuBits(a)
    ensures CarriedAt(es, SetAttributes(a), base, x) == a
    decreases x
  {
    hide RecordAt, CarriedAt, HasCpuBits;
    CarryStep(es, a, base, x);
    if base < x { CarriesNothing(es, a, base, x - 1); }
  }

  /** Attributes with a page or cache attribute among them are recorded as they are.  Others are recorded
      with the page and cache attributes of every address of the range so far. */
  lemma AttributesSet(es: seq<MapEntry>, es': seq<MapEntry>, limit: nat, a: bv64, base: nat, length: nat,
                      granted: bool, cpu: CpuArch)
    requires ConvertOutcome(es, es', limit, SetAttributes(a), base, length, granted, cpu, EFI_SUCCESS)
    requires base + length <= 0x1_0000_0000_0000_0000
    ensures HasRuntime(a) ==> base % 0x1000 == 0 && length % 0x1000 == 0
    ensures forall x :: base <= x < base + length ==>
              var r, r' := RecordAt(es, x), RecordAt(es', x);
              && Includes(r.Capabilities, a)
              && (if HasCpuBits(a) then r'.Attributes == a else Gathered(es, a, base, x, r'.Attributes))
              && r'.Capabilities == r.Capabilities
              && r'.GcdMemoryType == r.GcdMemoryType && r'.GcdIoType == r.GcdIoType
              && r'.ImageHandle == r.ImageHandle && r'.DeviceHandle == r.DeviceHandle
  {
    hide RecordAt, ConvertOutcome, CarriedAt, UpdateRecord, CheckRecord, Gathered, HasCpuBits, HasRuntime, Includes;
    var c := SetAttributes(a);
    Converted(es, es', limit, c, base, length, granted, cpu, base);
    SetRecordCheck(a, RecordAt(es, base), base, length);
    forall x | base <= x < base + length
      ensures Includes(RecordAt(es, x).Capabilities, a)
      ensures RecordAt(es', x) == RecordAt(es, x).(Attributes := CarriedAt(es, c, base, x))
      ensures if HasCpuBits(a) then CarriedAt(es, c, base, x) == a
              else Gathered(es, a, base, x, CarriedAt(es, c, base, x))
    {
      Converted(es, es', limit, c, base, length, granted, cpu, x);
      SetRecordCheck(a, RecordAt(es, x), base, length);
      SetRecordIs(a, RecordAt(es, x), CarriedAt(es, c, base, x));
      if HasCpuBits(a) { CarriesNothing(es, a, base, x); } else { CarriedGathers(es, a, base, x); }
    }
  }

  lemma SetRecordIs(a: bv64, r: SpaceRecord, carry: bv64)
    ensures UpdateRecord(SetAttributes(a), r, carry) == r.(Attributes := carry)
  {
  }

  lemma SetRecordCheck(a: bv64, r: SpaceRecord, base: nat, length: nat)
    ensures CheckRecord(SetAttributes(a), r, base, length) ==
              if HasRuntime(a) && (base % 0x1000 != 0 || length % 0x1000 != 0) then EFI_INVALID_PARAMETER
              else if !Includes(r.Capabilities, a) then EFI_UNSUPPORTED else EFI_SUCCESS
  {
    hide HasRuntime, Includes, AsksRuntime, Supports;
    AsksRuntimeIs(a);
    SupportsIs(r.Capabilities, a);
  }

  lemma AsksRuntimeIs(a: bv64)
    ensures AsksRuntime(a) <==> HasRuntime(a)
  {
  }

  lemma SupportsIs(b: bv64, a: bv64)
    ensures Supports(b, a) <==> Includes(b, a)
  {
  }

  // ---------- which answer a conversion gets ----------

  lemma {:induction false} FirstRefused(es: seq<MapEntry>, c: Change, base: nat, length: nat, x: nat, stop: nat)
    returns (y: nat)
    requires x <= stop
    ensures x <= y <= stop && forall z :: x <= z < y ==> CheckRecord(c, RecordAt(es, z), base, length) == EFI_SUCCESS
    ensures y < stop ==> CheckRecord(c, RecordAt(es, y), base, length) != EFI_SUCCESS
    ensures RangeStatus(es, c, base, length, x, stop)
            == if y < stop then CheckRecord(c, RecordAt(es, y), base, length) else EFI_SUCCESS
    decreases stop - x
  {
    hide CheckRecord, RecordAt;
    y := x;
    if x < stop && CheckRecord(c, RecordAt(es, x), base, length) == EFI_SUCCESS {
      y := FirstRefused(es, c, base, length, x + 1, stop);
    }
  }

  /** A range that is empty or not in the space is refused, whatever the operation. */
  lemma OutsideRefused(es: seq<MapEntry>, es': seq<MapEntry>, limit: nat, c: Change, base: nat, length: nat,
                       granted: bool, cpu: CpuArch, status: Status)
    requires ConvertOutcome(es, es', limit, c, base, length, granted, cpu, status)
    requires base + length <= 0x1_0000_0000_0000_0000
    ensures length == 0 ==> status == EFI_INVALID_PARAMETER
    ensures length > 0 && base + length > limit ==> status == EFI_UNSUPPORTED
    ensures status != EFI_SUCCESS ==> es' == es
  {
  }

  /** Inside, it is decided at the first address `y` that is refused, or else by work space and CPU. */
  lemma Decided(es: seq<MapEntry>, es': seq<MapEntry>, limit: nat, c: Change, base: nat, length: nat,
                granted: bool, cpu: CpuArch, status: Status) returns (y: nat)
    requires ConvertOutcome(es, es', limit, c, base, length, granted, cpu, status)
    requires 0 < length && base + length <= limit <= 0x1_0000_0000_0000_0000
    ensures base <= y <= base + length
    ensures forall z :: base <= z < y ==> CheckRecord(c, RecordAt(es, z), base, length) == EFI_SUCCESS
    ensures y < base + length ==> CheckRecord(c, RecordAt(es, y), base, length) != EFI_SUCCESS
    ensures status == if y < base + length then CheckRecord(c, RecordAt(es, y), base, length)
                      else WorkStatus(c, base, length, granted, cpu)
  {
    hide CheckRecord, RecordAt, WorkStatus, WrappedOutcome, Updates, RangeStatus;
    y := FirstRefused(es, c, base, length, base, base + length);
  }

  /** Memory is added exactly where none is and nobody owns the addresses, if there is work space. */
  lemma AddMemoryAnswer(es: seq<MapEntry>, es': seq<MapEntry>, limit: nat, t: int, cap: bv64, base: nat, length: nat,
                        granted: bool, cpu: CpuArch, status: Status)
    requires ConvertOutcome(es, es', limit, AddMemory(t, cap), base, length, granted, cpu, status)
    requires 0 < length && base + length <= limit <= 0x1_0000_0000_0000_0000
    ensures status == if exists x :: base <= x < base + length &&
                                     !(RecordAt(es, x).GcdMemoryType == 0 && RecordAt(es, x).ImageHandle == 0)
                      then EFI_ACCESS_DENIED
                      else if granted then EFI_SUCCESS else EFI_OUT_OF_RESOURCES
  {
    hide RecordAt, ConvertOutcome;
    var y := Decided(es, es', limit, AddMemory(t, cap), base, length, granted, cpu, status);
  }

  lemma AddIoAnswer(es: seq<MapEntry>, es': seq<MapEntry>, limit: nat, t: int, base: nat, length: nat,
                    granted: bool, cpu: CpuArch, status: Status)
    requires ConvertOutcome(es, es', limit, AddIo(t), base, length, granted, cpu, status)
    requires 0 < length && base + length <= limit <= 0x1_0000_0000_0000_0000
    ensures status == if exists x :: base <= x < base + length &&
                                     !(RecordAt(es, x).GcdIoType == 0 && RecordAt(es, x).ImageHandle == 0)
                      then EFI_ACCESS_DENIED
                      else if granted then EFI_SUCCESS else EFI_OUT_OF_RESOURCES
  {
    hide RecordAt, ConvertOutcome;
    var y := Decided(es, es', limit, AddIo(t), base, length, granted, cpu, status);
  }

  lemma FreeAnswer(es: seq<MapEntry>, es': seq<MapEntry>, limit: nat, base: nat, length: nat,
                   granted: bool, cpu: CpuArch, status: Status)
    requires ConvertOutcome(es, es', limit, Free, base, length, granted, cpu, status)
    requires 0 < length && base + length <= limit <= 0x1_0000_0000_0000_0000
    ensures status == if exists x :: base <= x < base + length && RecordAt(es, x).ImageHandle == 0
                      then EFI_NOT_FOUND
                      else if granted then EFI_SUCCESS else EFI_OUT_OF_RESOURCES
  {
    hide RecordAt, ConvertOutcome;
    var y := Decided(es, es', limit, Free, base, length, granted, cpu, status);
  }

  /** Memory is removed where there is some and nobody owns it; of two reasons against it, the one met
      first on the way up is the answer. */
  lemma RemoveMemoryAnswer(es: seq<MapEntry>, es': seq<MapEntry>, limit: nat, base: nat, length: nat,
                           granted: bool, cpu: CpuArch, status: Status)
    requires ConvertOutcome(es, es', limit, RemoveMemory, base, length, granted, cpu, status)
    requires 0 < length && base + length <= limit <= 0x1_0000_0000_0000_0000
    ensures (forall x :: base <= x < base + length ==> IdleMemory(RecordAt(es, x))) ==>
              status == if granted then EFI_SUCCESS else EFI_OUT_OF_RESOURCES
    ensures forall x: nat :: x < base + length && FirstNotIdleMemory(es, base, x) ==>
              status == if RecordAt(es, x).GcdMemoryType == 0 then EFI_NOT_FOUND else EFI_ACCESS_DENIED
  {
    hide RecordAt, ConvertOutcome, CheckRecord;
    var y := Decided(es, es', limit, RemoveMemory, base, length, granted, cpu, status);
    RemoveMemoryCheck(base, length);
    assert y < base + length ==> FirstNotIdleMemory(es, base, y);
    forall x: nat | x < base + length && FirstNotIdleMemory(es, base, x) ensures x == y { }
  }

  ghost predicate FirstNotIdleMemory(es: seq<MapEntry>, base: nat, x: nat) {
    base <= x && !IdleMemory(RecordAt(es, x)) && forall z :: base <= z < x ==> IdleMemory(RecordAt(es, z))
  }

  lemma RemoveMemoryCheck(base: nat, length: nat)
    ensures forall r :: CheckRecord(RemoveMemory, r, base, length) ==
              if r.GcdMemoryType == 0 then EFI_NOT_FOUND
              else if r.ImageHandle != 0 then EFI_ACCESS_DENIED else EFI_SUCCESS
  {
  }

  predicate IdleMemory(r: SpaceRecord) {
    r.GcdMemoryType != 0 && r.ImageHandle == 0
  }

  lemma RemoveIoAnswer(es: seq<MapEntry>, es': seq<MapEntry>, limit: nat, base: nat, length: nat,
                       granted: bool, cpu: CpuArch, status: Status)
    requires ConvertOutcome(es, es', limit, RemoveIo, base, length, granted, cpu, status)
    requires 0 < length && base + length <= limit <= 0x1_0000_0000_0000_0000
    ensures (forall x :: base <= x < base + length ==> IdleIo(RecordAt(es, x))) ==>
              status == if granted then EFI_SUCCESS else EFI_OUT_OF_RESOURCES
    ensures forall x: nat :: x < base + length && FirstNotIdleIo(es, base, x) ==>
              status == if RecordAt(es, x).GcdIoType == 0 then EFI_NOT_FOUND else EFI_ACCESS_DENIED
  {
    hide RecordAt, ConvertOutcome, CheckRecord;
    var y := Decided(es, es', limit, RemoveIo, base, length, granted, cpu, status);
    RemoveIoCheck(base, length);
    assert y < base + length ==> FirstNotIdleIo(es, base, y);
    forall x: nat | x < base + length && FirstNotIdleIo(es, base, x) ensures x == y { }
  }

  ghost predicate FirstNotIdleIo(es: seq<MapEntry>, base: nat, x: nat) {
    base <= x && !IdleIo(RecordAt(es, x)) && forall z :: base <= z < x ==> IdleIo(RecordAt(es, z))
  }

  lemma RemoveIoCheck(base: nat, length: nat)
    ensures forall r :: CheckRecord(RemoveIo, r, base, length) ==
              if r.GcdIoType == 0 then EFI_NOT_FOUND else if r.ImageHandle != 0 then EFI_ACCESS_DENIED else EFI_SUCCESS
  {
  }

  predicate IdleIo(r: SpaceRecord) {
    r.GcdIoType != 0 && r.ImageHandle == 0
  }

  /** Attributes must be supported everywhere, RUNTIME only by whole pages; page and cache attributes
      need the CPU, which is asked to set them on the range. */
  lemma SetAttributesAnswer(es: seq<MapEntry>, es': seq<MapEntry>, limit: nat, a: bv64, base: nat, length: nat,
                            granted: bool, cpu: CpuArch, status: Status)
    requires ConvertOutcome(es, es', limit, SetAttributes(a), base, length, granted, cpu, status)
    requires 0 < length && base + length <= limit <= 0x1_0000_0000_0000_0000
    ensures status ==
              if HasRuntime(a) && (base % 0x1000 != 0 || length % 0x1000 != 0) then EFI_INVALID_PARAMETER
              else if exists x :: base <= x < base + length && !Includes(RecordAt(es, x).Capabilities, a)
              then EFI_UNSUPPORTED
              else if !granted then EFI_OUT_OF_RESOURCES
              else if !HasCpuBits(a) then EFI_SUCCESS
              else if cpu.Absent? then EFI_NOT_AVAILABLE_YET
              else cpu.SetMemoryAttributes(base, length, CpuWord(a))
  {
    hide RecordAt, ConvertOutcome, HasRuntime, Includes, HasCpuBits, CheckRecord, CpuArchAttributes, CpuWord;
    var y := Decided(es, es', limit, SetAttributes(a), base, length, granted, cpu, status);
    CpuWordIs(a);
    SetRecordCheck(a, RecordAt(es, base), base, length);
    forall x | base <= x < base + length
      ensures CheckRecord(SetAttributes(a), RecordAt(es, x), base, length) ==
                if HasRuntime(a) && (base % 0x1000 != 0 || length % 0x1000 != 0) then EFI_INVALID_PARAMETER
                else if !Includes(RecordAt(es, x).Capabilities, a) then EFI_UNSUPPORTED else EFI_SUCCESS
    {
      SetRecordCheck(a, RecordAt(es, x), base, length);
    }
  }

  lemma SetCapabilitiesAnswer(es: seq<MapEntry>, es': seq<MapEntry>, limit: nat, cap: bv64, base: nat, length: nat,
                              granted: bool, cpu: CpuArch, status: Status)
    requires ConvertOutcome(es, es', limit, SetCapabilities(cap), base, length, granted, cpu, status)
    requires 0 < length && base + length <= limit <= 0x1_0000_0000_0000_0000
    ensures status ==
              if base % 0x1000 != 0 || length % 0x1000 != 0 then EFI_INVALID_PARAMETER
              else if exists x :: base <= x < base + length && !Includes(cap, RecordAt(es, x).Attributes)
              then EFI_UNSUPPORTED
              else if granted then EFI_SUCCESS else EFI_OUT_OF_RESOURCES
  {
    hide RecordAt, ConvertOutcome, Includes, CheckRecord;
    var y := Decided(es, es', limit, SetCapabilities(cap), base, length, granted, cpu, status);
    CapabilitiesCheck(cap, RecordAt(es, base), base, length);
    forall x | base <= x < base + length
      ensures CheckRecord(SetCapabilities(cap), RecordAt(es, x), base, length) ==
                if base % 0x1000 != 0 || length % 0x1000 != 0 then EFI_INVALID_PARAMETER
                else if !Includes(cap, RecordAt(es, x).Attributes) then EFI_UNSUPPORTED else EFI_SUCCESS
    {
      CapabilitiesCheck(cap, RecordAt(es, x), base, length);
    }
  }

  lemma CapabilitiesCheck(cap: bv64, r: SpaceRecord, base: nat, length: nat)
    ensures CheckRecord(SetCapabilities(cap), r, base, length) ==
              if base % 0x1000 != 0 || length % 0x1000 != 0 then EFI_INVALID_PARAMETER
              else if !Includes(cap, r.Attributes) then EFI_UNSUPPORTED else EFI_SUCCESS
  {
    hide Includes, Supports;
    SupportsIs(cap, r.Attributes);
  }
}
