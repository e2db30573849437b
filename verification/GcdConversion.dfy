/** What CoreConvertSpace and CoreAllocateSpace do to an entry list, as functions on values: split
    the ends of the range off, update what lies inside, merge equal neighbours. */
module GcdConversion {
  import opened Efi
  import opened GcdEntries

  // GCD memory and I/O types, in the order of the name tables of Gcd.c
  const MEMORY_NON_EXISTENT: int := 0
  const MEMORY_MAPPED_IO: int := 3
  const MEMORY_TYPE_MAXIMUM: int := 6
  const IO_NON_EXISTENT: int := 0
  const IO_TYPE_MAXIMUM: int := 3

  const PAGE_SIZE: nat := 0x1000

  // EFI_MEMORY_* attribute bits of section 7.2.3 of the UEFI Specification, and EFI_MEMORY_PORT_IO of Gcd.h
  const EFI_MEMORY_UC: bv64 := 0x1
  const EFI_MEMORY_WC: bv64 := 0x2
  const EFI_MEMORY_WT: bv64 := 0x4
  const EFI_MEMORY_WB: bv64 := 0x8
  const EFI_MEMORY_UCE: bv64 := 0x10
  const EFI_MEMORY_WP: bv64 := 0x1000
  const EFI_MEMORY_RUNTIME: bv64 := 0x8000_0000_0000_0000
  const EFI_MEMORY_PORT_IO: bv64 := 0x4000_0000_0000_0000

  /** EXCLUSIVE_MEMORY_ATTRIBUTES: the cache attributes */
  const EXCLUSIVE: bv64 := 0x101F
  /** NONEXCLUSIVE_MEMORY_ATTRIBUTES: the page attributes */
  const NONEXCLUSIVE: bv64 := 0x26000

  /** What an operation does to the entries of its range.  Memory and I/O forms of an operation
      that act alike are one change; which list it acts on is the caller's business. */
  datatype Change =
    | AddMemory(memoryType: int, capabilities: bv64)
    | AddIo(ioType: int)
    | Free
    | RemoveMemory
    | RemoveIo
    | SetAttributes(attributes: bv64)
    | SetCapabilities(capabilities: bv64)
    | Allocate(imageHandle: nat, deviceHandle: nat)

  /** ConverToCpuArchAttributes: the page attributes, and the first cache attribute in priority order. */
  function CpuArchAttributes(a: bv64): bv64 {
    (a & NONEXCLUSIVE) |
    if a & EFI_MEMORY_UC != 0 then EFI_MEMORY_UC
    else if a & EFI_MEMORY_WC != 0 then EFI_MEMORY_WC
    else if a & EFI_MEMORY_WT != 0 then EFI_MEMORY_WT
    else if a & EFI_MEMORY_WB != 0 then EFI_MEMORY_WB
    else if a & EFI_MEMORY_UCE != 0 then EFI_MEMORY_UCE
    else if a & EFI_MEMORY_WP != 0 then EFI_MEMORY_WP
    else 0
  }

  /** The CPU-arch bits of a record, which SET_ATTRIBUTES without such bits means to keep. */
  function KeptBits(r: SpaceRecord): bv64 {
    r.Attributes & (EXCLUSIVE | NONEXCLUSIVE)
  }

  /** All bits of both. */
  function Union(a: bv64, b: bv64): bv64 {
    a | b
  }

  predicate CarriesBits(c: Change) {
    c.SetAttributes? && CpuArchAttributes(c.attributes) == 0
  }

  predicate AsksRuntime(a: bv64) {
    a & EFI_MEMORY_RUNTIME != 0
  }

  predicate Supports(capabilities: bv64, attributes: bv64) {
    capabilities & attributes == attributes
  }

  function AddedCapabilities(memoryType: int, capabilities: bv64): bv64 {
    if memoryType == MEMORY_MAPPED_IO then capabilities | EFI_MEMORY_RUNTIME | EFI_MEMORY_PORT_IO
    else capabilities | EFI_MEMORY_RUNTIME
  }

  /** The verification loop's test of one entry. */
  function CheckRecord(c: Change, r: SpaceRecord, base: nat, length: nat): Status {
    match c
    case AddMemory(_, _) =>
      if r.GcdMemoryType != MEMORY_NON_EXISTENT || r.ImageHandle != 0 then EFI_ACCESS_DENIED else EFI_SUCCESS
    case AddIo(_) =>
      if r.GcdIoType != IO_NON_EXISTENT || r.ImageHandle != 0 then EFI_ACCESS_DENIED else EFI_SUCCESS
    case Free =>
      if r.ImageHandle == 0 then EFI_NOT_FOUND else EFI_SUCCESS
    case RemoveMemory =>
      if r.GcdMemoryType == MEMORY_NON_EXISTENT then EFI_NOT_FOUND
      else if r.ImageHandle != 0 then EFI_ACCESS_DENIED else EFI_SUCCESS
    case RemoveIo =>
      if r.GcdIoType == IO_NON_EXISTENT then EFI_NOT_FOUND
      else if r.ImageHandle != 0 then EFI_ACCESS_DENIED else EFI_SUCCESS
    case SetAttributes(a) =>
      if AsksRuntime(a) && (base % PAGE_SIZE != 0 || length % PAGE_SIZE != 0) then EFI_INVALID_PARAMETER
      else if !Supports(r.Capabilities, a) then EFI_UNSUPPORTED else EFI_SUCCESS
    case SetCapabilities(cap) =>
      if base % PAGE_SIZE != 0 || length % PAGE_SIZE != 0 then EFI_INVALID_PARAMETER
      else if !Supports(cap, r.Attributes) then EFI_UNSUPPORTED else EFI_SUCCESS
    case Allocate(_, _) => EFI_SUCCESS
  }

  /** The parameter `Attributes` as the update loop leaves it after an entry with record `r`. */
  function NextCarry(c: Change, r: SpaceRecord, carry: bv64): bv64 {
    if CarriesBits(c) then Union(carry, KeptBits(r)) else carry
  }

  function FirstCarry(c: Change): bv64 {
    if c.SetAttributes? then c.attributes else 0
  }

  /** The update of one record; `carry` is the parameter `Attributes` at that point. */
  function UpdateRecord(c: Change, r: SpaceRecord, carry: bv64): SpaceRecord {
    match c
    case AddMemory(t, cap) =>
      r.(GcdMemoryType := t, Capabilities := AddedCapabilities(t, cap))
    case AddIo(t) => r.(GcdIoType := t)
    case Free => r.(ImageHandle := 0, DeviceHandle := 0)
    case RemoveMemory => r.(GcdMemoryType := MEMORY_NON_EXISTENT, Capabilities := 0)
    case RemoveIo => r.(GcdIoType := IO_NON_EXISTENT)
    case SetAttributes(_) => r.(Attributes := carry)
    case SetCapabilities(cap) => r.(Capabilities := cap)
    case Allocate(image, device) => r.(ImageHandle := image, DeviceHandle := device)
  }

  // ---------- the update loop ----------

  /** CoreInsertGcdMapEntry and the update, on one entry: what is left of it inside the range. */
  ghost function Core(e: MapEntry, base: nat, end: nat, r: SpaceRecord): MapEntry {
    MapEntry(e.Signature,
             if base > e.BaseAddress then base else e.BaseAddress,
             if end < e.EndAddress then end else e.EndAddress,
             r)
  }

  /** The part of an entry below the range, and above it. */
  ghost function Below(e: MapEntry, base: nat): seq<MapEntry> {
    if base > e.BaseAddress then [e.(EndAddress := base - 1)] else []
  }

  ghost function Above(e: MapEntry, end: nat): seq<MapEntry> {
    if end < e.EndAddress then [e.(BaseAddress := end + 1)] else []
  }

  /** The carried attributes after entries `i` up to but excluding `k`. */
  ghost function CarryAfter(es: seq<MapEntry>, c: Change, i: nat, k: nat): bv64
    requires i <= k <= |es|
  {
    if k == i then FirstCarry(c) else NextCarry(c, es[k - 1].Space, CarryAfter(es, c, i, k - 1))
  }

  /** The updated record of entry `k` when the range starts in entry `i`. */
  ghost function NewSpace(es: seq<MapEntry>, c: Change, i: nat, k: nat): SpaceRecord
    requires i <= k < |es|
  {
    UpdateRecord(c, es[k].Space, CarryAfter(es, c, i, k + 1))
  }

  /** The updated entries `i` up to but excluding `k`. */
  ghost function Cores(es: seq<MapEntry>, c: Change, base: nat, end: nat, i: nat, k: nat): (t: seq<MapEntry>)
    requires i <= k <= |es|
    ensures |t| == k - i
  {
    if k == i then []
    else Cores(es, c, base, end, i, k - 1) + [Core(es[k - 1], base, end, NewSpace(es, c, i, k - 1))]
  }

  /** What the list holds below the range, and above it. */
  ghost function Low(es: seq<MapEntry>, base: nat, i: nat): seq<MapEntry>
    requires i < |es|
  {
    es[..i] + Below(es[i], base)
  }

  ghost function High(es: seq<MapEntry>, end: nat, j: nat): seq<MapEntry>
    requires j < |es|
  {
    Above(es[j], end) + es[j + 1..]
  }

  /** The list after the update loop over entries `i` to `j`. */
  ghost function Converted(es: seq<MapEntry>, c: Change, base: nat, end: nat, i: nat, j: nat): seq<MapEntry>
    requires i <= j < |es|
  {
    Low(es, base, i) + Cores(es, c, base, end, i, j + 1) + High(es, end, j)
  }

  /** The list while the loop is at entry `k`: what it has dealt with, and what is ahead. */
  ghost function Done(es: seq<MapEntry>, c: Change, base: nat, end: nat, i: nat, k: nat): seq<MapEntry>
    requires i <= k <= |es| && i < |es|
  {
    (if k == i then es[..i] else Low(es, base, i)) + Cores(es, c, base, end, i, k)
  }

  ghost function Ahead(es: seq<MapEntry>, end: nat, j: nat, k: nat): seq<MapEntry>
    requires j < |es|
  {
    if k <= j then es[k..] else High(es, end, j)
  }

  lemma DoneNext(es: seq<MapEntry>, c: Change, base: nat, end: nat, i: nat, j: nat, k: nat)
    requires i <= k <= j < |es|
    requires base > es[k].BaseAddress ==> k == i
    requires end < es[k].EndAddress ==> k == j
    ensures Ahead(es, end, j, k) == [es[k]] + es[k + 1..]
    ensures Done(es, c, base, end, i, k) + Below(es[k], base) + [Core(es[k], base, end, NewSpace(es, c, i, k))]
            == Done(es, c, base, end, i, k + 1)
    ensures Above(es[k], end) + es[k + 1..] == Ahead(es, end, j, k + 1)
    ensures |Done(es, c, base, end, i, k)| == (if k == i then i else |Low(es, base, i)|) + (k - i)
    ensures k == i ==> Done(es, c, base, end, i, k) == es[..i] && |Low(es, base, i)| == i + |Below(es[i], base)|
    ensures k > i ==> Below(es[k], base) == []
    ensures k < j ==> Above(es[k], end) == []
  {
    hide NewSpace;
    assert es[k..] == [es[k]] + es[k + 1..];
    if k == i {
      assert Cores(es, c, base, end, i, i) == [];
      assert es[..i] + [] == es[..i];
    } else {
      assert Below(es[k], base) == [];
    }
    if k < j {
      assert Above(es[k], end) == [];
    }
  }

  lemma DoneFirst(es: seq<MapEntry>, c: Change, base: nat, end: nat, i: nat, j: nat)
    requires i <= j < |es|
    ensures |Done(es, c, base, end, i, i)| == i
    ensures Done(es, c, base, end, i, i) + Ahead(es, end, j, i) == es
  {
  }

  // ---------- the cleanup loop ----------

  /** CoreMergeGcdMapEntry on the last entry of `p` and its successor `e`. */
  ghost function AppendMerged(p: seq<MapEntry>, e: MapEntry): seq<MapEntry> {
    if p != [] && p[|p| - 1].Space == e.Space
    then p[..|p| - 1] + [e.(BaseAddress := p[|p| - 1].BaseAddress)]
    else p + [e]
  }

  /** `p` with the first `t` entries of `q` appended, each merged with its predecessor if it can be. */
  ghost function MergeFirst(p: seq<MapEntry>, q: seq<MapEntry>, t: nat): seq<MapEntry>
    requires t <= |q|
  {
    if t == 0 then p else AppendMerged(MergeFirst(p, q, t - 1), q[t - 1])
  }

  /** CoreCleanupGcdMapEntry on the list `low + mid + high`, `mid` being the entries from its
      StartLink to its EndLink: each of them is merged with its predecessor, and the last one with
      its successor, when there is one. */
  ghost function Cleaned(low: seq<MapEntry>, mid: seq<MapEntry>, high: seq<MapEntry>): seq<MapEntry> {
    var n := |mid| + if high == [] then 0 else 1;
    MergeFirst(low, mid + high, n) + (mid + high)[n..]
  }

  /** The loop first, then the forward merge of the last entry. */
  lemma CleanedSteps(low: seq<MapEntry>, mid: seq<MapEntry>, high: seq<MapEntry>)
    ensures var p := MergeFirst(low, mid + high, |mid|);
            && p + (mid + high)[|mid|..] == p + high
            && Cleaned(low, mid, high) == if high == [] then p else AppendMerged(p, high[0]) + high[1..]
  {
  }

  /** The list a successful operation leaves, when the range starts in entry `i` and ends in entry `j`. */
  ghost function After(es: seq<MapEntry>, c: Change, base: nat, end: nat, i: nat, j: nat): seq<MapEntry>
    requires i <= j < |es|
  {
    Cleaned(Low(es, base, i), Cores(es, c, base, end, i, j + 1), High(es, end, j))
  }

  // ---------- what the update loop does to the function ----------

  /** The entries holding the first and the last address of a range. */
  ghost predicate Spans(es: seq<MapEntry>, base: nat, end: nat, i: nat, j: nat) {
    i <= j < |es| && Holds(es[i], base) && Holds(es[j], end)
  }

  lemma LowerPart(es: seq<MapEntry>, limit: nat, base: nat, i: nat)
    requires Tiles(es, 0, limit) && i < |es| && Holds(es[i], base)
    ensures Tiles(Low(es, base, i), 0, base)
  {
    TilesSplit(es, 0, limit, i);
    TilesConcat(es[..i], Below(es[i], base), 0, es[i].BaseAddress, base);
  }

  lemma UpperPart(es: seq<MapEntry>, limit: nat, end: nat, j: nat)
    requires Tiles(es, 0, limit) && j < |es| && Holds(es[j], end)
    ensures Tiles(High(es, end, j), end + 1, limit)
  {
    TilesSplit(es, 0, limit, j + 1);
    TilesEntry(es, 0, limit, j);
    TilesConcat(Above(es[j], end), es[j + 1..], end + 1, es[j].EndAddress + 1, limit);
  }

  /** The updated entries tile the range. */
  lemma {:induction false} MiddlePart(es: seq<MapEntry>, limit: nat, c: Change, base: nat, end: nat, i: nat, j: nat,
                                      k: nat)
    requires Tiles(es, 0, limit) && Spans(es, base, end, i, j) && base <= end && i < k <= j + 1
    ensures Tiles(Cores(es, c, base, end, i, k), base, if k == j + 1 then end + 1 else es[k].BaseAddress)
    decreases k
  {
    hide NewSpace, Tiles, Cores;
    var front, e := Cores(es, c, base, end, i, k - 1), Core(es[k - 1], base, end, NewSpace(es, c, i, k - 1));
    CoresNext(es, c, base, end, i, k);
    TilesEntry(es, 0, limit, k - 1);
    if k <= j { TilesOrdered(es, 0, limit, k - 1, j); }
    if k > i + 1 {
      TilesOrdered(es, 0, limit, i, k - 1);
      MiddlePart(es, limit, c, base, end, i, j, k - 1);
    } else {
      NoTiles(base);
    }
    TilesNext(front, e, base);
  }

  lemma CoresNext(es: seq<MapEntry>, c: Change, base: nat, end: nat, i: nat, k: nat)
    requires i < k <= |es|
    ensures Cores(es, c, base, end, i, k) ==
              Cores(es, c, base, end, i, k - 1) + [Core(es[k - 1], base, end, NewSpace(es, c, i, k - 1))]
    ensures Cores(es, c, base, end, i, i) == []
  {
    hide NewSpace;
  }

  lemma NoTiles(lo: int)
    ensures Tiles([], lo, lo)
  {
  }

  lemma TilesNext(front: seq<MapEntry>, e: MapEntry, lo: int)
    requires Tiles(front, lo, e.BaseAddress) && e.BaseAddress <= e.EndAddress
    ensures Tiles(front + [e], lo, e.EndAddress + 1)
  {
  }

  lemma {:induction false} CoresAt(es: seq<MapEntry>, c: Change, base: nat, end: nat, i: nat, k: nat, m: nat)
    requires i <= m < k <= |es|
    ensures Cores(es, c, base, end, i, k)[m - i] == Core(es[m], base, end, NewSpace(es, c, i, m))
    decreases k
  {
    if m < k - 1 { CoresAt(es, c, base, end, i, k - 1, m); }
  }

  /** The three stretches of the list after the update loop. */
  lemma ConvertedTiles(es: seq<MapEntry>, limit: nat, c: Change, base: nat, end: nat, i: nat, j: nat)
    requires Tiles(es, 0, limit) && Spans(es, base, end, i, j) && base <= end
    ensures Tiles(Low(es, base, i), 0, base)
    ensures Tiles(Cores(es, c, base, end, i, j + 1), base, end + 1)
    ensures Tiles(High(es, end, j), end + 1, limit)
    ensures Tiles(Converted(es, c, base, end, i, j), 0, limit)
  {
    hide Tiles, Low, Cores, High;
    LowerPart(es, limit, base, i);
    MiddlePart(es, limit, c, base, end, i, j, j + 1);
    UpperPart(es, limit, end, j);
    TilesConcat(Low(es, base, i), Cores(es, c, base, end, i, j + 1), 0, base, end + 1);
    TilesConcat(Low(es, base, i) + Cores(es, c, base, end, i, j + 1), High(es, end, j), 0, end + 1, limit);
  }

  /** The record the operation puts at `x`, which entry `k` of the old list holds. */
  ghost function RecordAfter(es: seq<MapEntry>, c: Change, base: nat, end: nat, i: nat, k: nat, x: int): SpaceRecord
    requires k < |es|
  {
    if base <= x <= end && i <= k then NewSpace(es, c, i, k) else es[k].Space
  }

  lemma RecordBelow(es: seq<MapEntry>, limit: nat, base: nat, i: nat, k: nat, x: int)
    requires Tiles(es, 0, limit) && i < |es| && Holds(es[i], base)
    requires k < |es| && Holds(es[k], x) && x < base
    ensures k <= i && RecordAt(Low(es, base, i), x) == es[k].Space
  {
    hide Tiles, RecordAt;
    LowerPart(es, limit, base, i);
    if i < k { TilesOrdered(es, 0, limit, i, k); }
    RecordIs(Low(es, base, i), 0, base, k, x);
  }

  lemma RecordAbove(es: seq<MapEntry>, limit: nat, end: nat, j: nat, k: nat, x: int)
    requires Tiles(es, 0, limit) && j < |es| && Holds(es[j], end)
    requires k < |es| && Holds(es[k], x) && end < x
    ensures j <= k && High(es, end, j) != [] && RecordAt(High(es, end, j), x) == es[k].Space
  {
    hide Tiles, RecordAt;
    UpperPart(es, limit, end, j);
    if k < j { TilesOrdered(es, 0, limit, k, j); }
    RecordIs(High(es, end, j), end + 1, limit, k - j - 1 + |Above(es[j], end)|, x);
  }

  lemma RecordInside(es: seq<MapEntry>, limit: nat, c: Change, base: nat, end: nat, i: nat, j: nat, k: nat, x: int)
    requires Tiles(es, 0, limit) && Spans(es, base, end, i, j) && base <= end
    requires k < |es| && Holds(es[k], x) && base <= x <= end
    ensures i <= k <= j && RecordAt(Cores(es, c, base, end, i, j + 1), x) == NewSpace(es, c, i, k)
  {
    hide Tiles, RecordAt, NewSpace;
    MiddlePart(es, limit, c, base, end, i, j, j + 1);
    if k < i { TilesOrdered(es, 0, limit, k, i); }
    if j < k { TilesOrdered(es, 0, limit, j, k); }
    CoresAt(es, c, base, end, i, j + 1, k);
    RecordIs(Cores(es, c, base, end, i, j + 1), base, end + 1, k - i, x);
  }

  /** Inside the range the record of an address is updated, outside it is kept. */
  lemma ConvertedRecord(es: seq<MapEntry>, limit: nat, c: Change, base: nat, end: nat, i: nat, j: nat, k: nat, x: int)
    requires Tiles(es, 0, limit) && Spans(es, base, end, i, j) && base <= end
    requires k < |es| && Holds(es[k], x)
    ensures RecordAt(Converted(es, c, base, end, i, j), x) == RecordAfter(es, c, base, end, i, k, x)
    ensures base <= x <= end ==> i <= k <= j
  {
    hide Tiles, RecordAt, NewSpace, Low, High, Cores;
    var low, mid, high := Low(es, base, i), Cores(es, c, base, end, i, j + 1), High(es, end, j);
    ConvertedTiles(es, limit, c, base, end, i, j);
    RecordConcat(low + mid, high, end + 1, limit, x);
    RecordConcat(low, mid, base, end + 1, x);
    if x < base {
      RecordBelow(es, limit, base, i, k, x);
    } else if x <= end {
      RecordInside(es, limit, c, base, end, i, j, k, x);
    } else {
      RecordAbove(es, limit, end, j, k, x);
    }
  }

  // ---------- merging keeps the function and makes the list canonical ----------

  /** Merging the two equal neighbours `d`, `e` of a tiling. */
  lemma MergePair(p: seq<MapEntry>, d: MapEntry, e: MapEntry, rest: seq<MapEntry>, lo: int, hi: int)
    requires Tiles(p + [d, e] + rest, lo, hi) && d.Space == e.Space
    ensures Tiles(p + [e.(BaseAddress := d.BaseAddress)] + rest, lo, hi)
    ensures SameRecords(p + [d, e] + rest, p + [e.(BaseAddress := d.BaseAddress)] + rest, lo, hi)
  {
    var a := p + [d, e] + rest;
    var n, l, m := |p|, d.BaseAddress, e.EndAddress + 1;
    var pair, merged := [d, e], [e.(BaseAddress := l)];
    TilesSplit(a, lo, hi, n);
    TilesSplit(a[n..], l, hi, 2);
    assert a[..n] == p && a[n..][..2] == pair && a[n..][2..] == rest;
    TilesEntry(pair, l, Start(a[n..], 2, hi), 0);
    TilesEntry(pair, l, Start(a[n..], 2, hi), 1);
    forall x | l <= x < m ensures RecordAt(pair, x) == RecordAt(merged, x) {
      RecordIs(pair, l, m, if x <= d.EndAddress then 0 else 1, x);
    }
    Exchange(p, pair, merged, rest, lo, l, m, hi);
  }

  lemma MergeStep(p: seq<MapEntry>, e: MapEntry, rest: seq<MapEntry>, lo: int, hi: int)
    requires Tiles(p + [e] + rest, lo, hi)
    ensures Tiles(AppendMerged(p, e) + rest, lo, hi)
    ensures SameRecords(p + [e] + rest, AppendMerged(p, e) + rest, lo, hi)
  {
    hide Tiles, RecordAt;
    if p != [] && p[|p| - 1].Space == e.Space {
      var n := |p| - 1;
      assert p + [e] + rest == p[..n] + [p[n], e] + rest;
      MergePair(p[..n], p[n], e, rest, lo, hi);
    }
  }

  lemma {:induction false} MergeKeeps(p: seq<MapEntry>, q: seq<MapEntry>, t: nat, lo: int, hi: int)
    requires t <= |q| && Tiles(p + q, lo, hi)
    ensures Tiles(MergeFirst(p, q, t) + q[t..], lo, hi)
    ensures SameRecords(p + q, MergeFirst(p, q, t) + q[t..], lo, hi)
  {
    hide Tiles, RecordAt, AppendMerged;
    if t == 0 {
      assert q[0..] == q;
    } else {
      MergeKeeps(p, q, t - 1, lo, hi);
      var front := MergeFirst(p, q, t - 1);
      assert front + q[t - 1..] == front + [q[t - 1]] + q[t..];
      MergeStep(front, q[t - 1], q[t..], lo, hi);
    }
  }

  lemma {:induction false} MergeCanonical(p: seq<MapEntry>, q: seq<MapEntry>, t: nat)
    requires t <= |q| && Canonical(p) && Signed(p) && Signed(q)
    ensures Canonical(MergeFirst(p, q, t)) && Signed(MergeFirst(p, q, t))
    ensures t > 0 ==>
              MergeFirst(p, q, t) != [] && MergeFirst(p, q, t)[|MergeFirst(p, q, t)| - 1].Space == q[t - 1].Space
  {
    if t > 0 {
      MergeCanonical(p, q, t - 1);
      AppendCanonical(MergeFirst(p, q, t - 1), q[t - 1]);
    }
  }

  lemma AppendCanonical(p: seq<MapEntry>, e: MapEntry)
    requires Canonical(p) && Signed(p) && e.Signature == GCD_MAP_SIGNATURE
    ensures Canonical(AppendMerged(p, e)) && Signed(AppendMerged(p, e))
    ensures AppendMerged(p, e) != [] && AppendMerged(p, e)[|AppendMerged(p, e)| - 1].Space == e.Space
  {
  }

  lemma CanonicalJoin(front: seq<MapEntry>, back: seq<MapEntry>)
    requires Canonical(front) && Canonical(back)
    requires front != [] && back != [] ==> front[|front| - 1].Space != back[0].Space
    ensures Canonical(front + back)
  {
  }

  /** Cleaning up never changes what the list records. */
  lemma CleanedKeeps(low: seq<MapEntry>, mid: seq<MapEntry>, high: seq<MapEntry>, lo: int, hi: int)
    requires Tiles(low + mid + high, lo, hi)
    ensures Tiles(Cleaned(low, mid, high), lo, hi)
    ensures SameRecords(low + mid + high, Cleaned(low, mid, high), lo, hi)
  {
    hide Tiles, RecordAt, MergeFirst;
    assert low + mid + high == low + (mid + high);
    MergeKeeps(low, mid + high, |mid| + if high == [] then 0 else 1, lo, hi);
  }

  /** Cleaning up around a range restores the canonical form when the list was canonical on both
      sides of it. */
  lemma CleanedCanonical(low: seq<MapEntry>, mid: seq<MapEntry>, high: seq<MapEntry>)
    requires mid != [] && Canonical(low) && Canonical(high)
    requires Signed(low) && Signed(mid) && Signed(high)
    ensures Canonical(Cleaned(low, mid, high)) && Signed(Cleaned(low, mid, high))
  {
    var n := |mid| + if high == [] then 0 else 1;
    MergeCanonical(low, mid + high, n);
    if high != [] {
      assert (mid + high)[n..] == high[1..] && (mid + high)[n - 1] == high[0];
    }
    CanonicalJoin(MergeFirst(low, mid + high, n), (mid + high)[n..]);
  }

  lemma CanonicalSides(es: seq<MapEntry>, base: nat, end: nat, i: nat, j: nat)
    requires i <= j < |es| && Canonical(es) && Signed(es)
    ensures Canonical(Low(es, base, i)) && Signed(Low(es, base, i))
    ensures Canonical(High(es, end, j)) && Signed(High(es, end, j))
  {
  }

  lemma CoresSigned(es: seq<MapEntry>, c: Change, base: nat, end: nat, i: nat, k: nat)
    requires i <= k <= |es| && Signed(es)
    ensures Signed(Cores(es, c, base, end, i, k))
  {
  }

  /** A successful operation on a canonical list leaves a canonical list for the updated function. */
  lemma AfterOperation(es: seq<MapEntry>, limit: nat, c: Change, base: nat, end: nat, i: nat, j: nat)
    requires Tiles(es, 0, limit) && Canonical(es) && Signed(es) && Spans(es, base, end, i, j) && base <= end
    ensures Tiles(After(es, c, base, end, i, j), 0, limit)
    ensures Canonical(After(es, c, base, end, i, j)) && Signed(After(es, c, base, end, i, j))
    ensures SameRecords(Converted(es, c, base, end, i, j), After(es, c, base, end, i, j), 0, limit)
  {
    hide Tiles, RecordAt, NewSpace, Low, High, Cores;
    var low, mid, high := Low(es, base, i), Cores(es, c, base, end, i, j + 1), High(es, end, j);
    ConvertedTiles(es, limit, c, base, end, i, j);
    CanonicalSides(es, base, end, i, j);
    CoresSigned(es, c, base, end, i, j + 1);
    CleanedKeeps(low, mid, high, 0, limit);
    CleanedCanonical(low, mid, high);
  }
}
