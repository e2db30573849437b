/** The services over the two GCD maps: initialization, descriptors, and the snapshot of a map that
    other callers change whenever its lock is free. */
module GcdServices {
  import opened Arithmetic
  import opened Efi
  import opened LinkedList
  import opened GcdEntries
  import opened GcdConversion
  import opened GcdSpec
  import opened GcdMap
  import opened GcdPlacement
  import opened GcdAllocator
  import opened GcdRuns

  /** EFI_GCD_MEMORY_SPACE_DESCRIPTOR */
  datatype MemoryDescriptor = MemoryDescriptor(
    BaseAddress: nat,
    Length: int,
    Capabilities: bv64,
    Attributes: bv64,
    GcdMemoryType: int,
    ImageHandle: nat,
    DeviceHandle: nat)

  /** BuildMemoryDescriptor */
  function BuildMemoryDescriptor(e: MapEntry): MemoryDescriptor {
    MemoryDescriptor(e.BaseAddress, e.EndAddress - e.BaseAddress + 1, e.Space.Capabilities, e.Space.Attributes,
                     e.Space.GcdMemoryType, e.Space.ImageHandle, e.Space.DeviceHandle)
  }

  /** What a snapshot of a map reports. */
  ghost function Descriptors(es: seq<MapEntry>): seq<MemoryDescriptor> {
    seq(|es|, i requires 0 <= i < |es| => BuildMemoryDescriptor(es[i]))
  }

  /** The first address past a descriptor. */
  function Past(d: MemoryDescriptor): int {
    d.BaseAddress + d.Length
  }

  /** Descriptors of a map are non-empty, start at 0, abut, and end with the space; each tells about
      all its addresses what the map records. */
  lemma DescriptorsCover(es: seq<MapEntry>, limit: nat, i: nat)
    requires MapInvariant(es, limit) && i < |es|
    ensures var ds := Descriptors(es);
            && ds[i].Length > 0
            && (i == 0 ==> ds[i].BaseAddress == 0)
            && Past(ds[i]) == (if i + 1 < |ds| then ds[i + 1].BaseAddress else limit)
            && forall x :: ds[i].BaseAddress <= x < Past(ds[i]) ==>
                 && RecordAt(es, x).Capabilities == ds[i].Capabilities && RecordAt(es, x).Attributes == ds[i].Attributes
                 && RecordAt(es, x).GcdMemoryType == ds[i].GcdMemoryType
                 && RecordAt(es, x).ImageHandle == ds[i].ImageHandle
                 && RecordAt(es, x).DeviceHandle == ds[i].DeviceHandle
  {
    hide Tiles, Canonical, Signed, HandlesPaired, RecordAt;
    TilesEntry(es, 0, limit, i);
    if i + 1 < |es| { TilesEntry(es, 0, limit, i + 1); }
    var ds := Descriptors(es);
    forall x | ds[i].BaseAddress <= x < Past(ds[i]) ensures RecordAt(es, x) == es[i].Space {
      RecordIs(es, 0, limit, i, x);
    }
  }

  /** CoreInitializeGcdServices: both maps start a run. */
  method InitializeGcdServices(memory: Map, io: Map, sizeOfMemorySpace: nat,
                               sizeOfIoSpace: nat) returns (status: Status)
    requires memory != io && memory.Repr !! io.Repr
    requires memory.Valid() && memory.Contents == [] && io.Valid() && io.Contents == []
    requires sizeOfMemorySpace < 64 && sizeOfIoSpace < 64
    modifies memory, memory.Repr, io, io.Repr
    ensures status == EFI_SUCCESS && memory.Valid() && io.Valid() && memory.Repr !! io.Repr
    ensures memory.Limit == Pow2(sizeOfMemorySpace) && io.Limit == Pow2(sizeOfIoSpace)
    ensures memory.Contents ==
              [MapEntry(0x6d646367, 0, Pow2(sizeOfMemorySpace) - 1, SpaceRecord(0, 0, 0, 0, 0, 0))]
    ensures io.Contents == [MapEntry(0x6d646367, 0, Pow2(sizeOfIoSpace) - 1, SpaceRecord(0, 0, 0, 0, 0, 0))]
    ensures Run(memory.Limit, [memory.Contents], [], []) && Run(io.Limit, [io.Contents], [], [])
  {
    hide Map.Valid;
    memory.Initialize(sizeOfMemorySpace, NOTHING);
    io.Initialize(sizeOfIoSpace, NOTHING);
    SpaceSize(sizeOfMemorySpace);
    SpaceSize(sizeOfIoSpace);
    status := EFI_SUCCESS;
  }

  lemma SpaceSize(size: nat)
    requires size < 64
    ensures 0 < Pow2(size) <= SPACE_MAX
  {
    Pow2Of63();
    Pow2Monotonic(size, 63);
  }

  /** The services that do nothing but call CoreConvertSpace or CoreAllocateSpace. */
  method Perform(m: Map, call: Call) returns (answer: Answer)
    requires m.Valid() && MapInvariant(m.Contents, m.Limit) && InRange(call)
    modifies m, m.Repr
    ensures m.Valid() && m.Limit == old(m.Limit) && fresh(m.Repr - old(m.Repr))
    ensures Step(old(m.Contents), m.Contents, m.Limit, call, answer)
    ensures answer.status != EFI_SUCCESS ==> m.Links == old(m.Links)
  {
    hide Map.Valid, Tiles, Canonical, Signed, HandlesPaired, ConvertOutcome, AllocateOutcome;
    match call
    case Convert(c, base, length, cpu, granted) =>
      var status := m.ConvertSpace(c, base, length, granted, granted, cpu);
      answer := Answer(status, base);
    case Place(mode, q, baseIn, image, device, granted) =>
      var status, base := AllocateSpace(m, mode, q, baseIn, image, device, granted, granted);
      answer := Answer(status, base);
  }

  /** CoreInternalAddMemorySpace: only existing memory can be added. */
  method InternalAddMemorySpace(m: Map, memoryType: int, base: nat, length: nat, capabilities: bv64,
                                granted: bool) returns (status: Status)
    requires m.Valid() && MapInvariant(m.Contents, m.Limit) && base < UINT64_RANGE && length < UINT64_RANGE
    modifies m, m.Repr
    ensures m.Valid() && m.Limit == old(m.Limit) && fresh(m.Repr - old(m.Repr))
    ensures if 0 < memoryType < 6 then
              ConvertOutcome(old(m.Contents), m.Contents, m.Limit, AddMemory(memoryType, capabilities), base, length,
                             granted, Absent, status)
            else status == EFI_INVALID_PARAMETER && m.Contents == old(m.Contents)
  {
    hide Map.Valid, MapInvariant, ConvertOutcome;
    if memoryType <= MEMORY_NON_EXISTENT || memoryType >= MEMORY_TYPE_MAXIMUM {
      return EFI_INVALID_PARAMETER;
    }
    status := m.ConvertSpace(AddMemory(memoryType, capabilities), base, length, granted, granted, Absent);
  }

  /** CoreGetMemorySpaceDescriptor: found exactly for the addresses of the space. */
  method GetMemorySpaceDescriptor(m: Map, base: nat, wanted: bool) returns (status: Status,
                                  descriptor: Option<MemoryDescriptor>)
    requires m.Valid() && MapInvariant(m.Contents, m.Limit) && base < UINT64_RANGE
    modifies m`Locked
    ensures m.Valid() && m.Contents == old(m.Contents)
    ensures !wanted ==> status == EFI_INVALID_PARAMETER
    ensures wanted ==> status == if base < m.Limit then EFI_SUCCESS else EFI_NOT_FOUND
    ensures descriptor.Some? <==> status == EFI_SUCCESS
    ensures descriptor.Some? ==>
              exists i :: 0 <= i < |m.Contents| && Holds(m.Contents[i], base)
                          && descriptor.value == Descriptors(m.Contents)[i]
  {
    hide Map.Linked, Tiles, Canonical, Signed, HandlesPaired;
    descriptor := None;
    if !wanted {
      return EFI_INVALID_PARAMETER, None;
    }
    m.AcquireLock();
    var startLink, endLink;
    ghost var i, j;
    status, startLink, endLink, i, j := m.SearchMapEntry(base, 1);
    SingleAddress(m.Contents, m.Limit, base);
    if status != EFI_SUCCESS {
      status := EFI_NOT_FOUND;
    } else {
      m.EntryIs(i + 1, m.Contents[i]);
      descriptor := Some(BuildMemoryDescriptor(startLink.Payload));
    }
    m.ReleaseLock();
  }

  lemma SingleAddress(es: seq<MapEntry>, limit: nat, base: nat)
    requires Tiles(es, 0, limit) && base < UINT64_RANGE
    ensures LastAddress(base, 1) == base
    ensures base < limit <==> exists i, j :: Spans(es, base, base, i, j)
  {
    hide Tiles;
    if base < limit { var i, j := SpansInside(es, limit, base, base); }
    if i, j :| Spans(es, base, base, i, j) { RecordIs(es, 0, limit, i, base); }
  }

  // ---------- the snapshot ----------

  /** CoreCountGcdMapEntry */
  method CountMapEntries(m: Map) returns (count: nat)
    requires m.Linked()
    ensures count == |m.Contents|
  {
    hide Map.Linked;
    count := 0;
    m.LinkedSizes();
    m.Forward(0);
    m.AtHead(0);
    var link := m.Head.ForwardLink;
    while link != m.Head
      invariant 0 <= count <= |m.Contents| && link == m.Links[Succ(count, |m.Links|)]
      decreases |m.Contents| - count
    {
      assert count < |m.Contents| by { m.AtHead(0); }
      m.Forward(count + 1);
      count := count + 1;
      link := link.ForwardLink;
    }
    m.AtHead(Succ(count, |m.Links|));
  }

  /** The loop that copies the map out; every write stays inside the buffer. */
  method FillSnapshot(m: Map, buffer: array<MemoryDescriptor>)
    requires m.Linked() && buffer.Length == |m.Contents|
    modifies buffer
    ensures buffer[..] == Descriptors(m.Contents)
  {
    hide Map.Linked;
    ghost var k := 0;
    m.LinkedSizes();
    m.Forward(0);
    m.AtHead(0);
    var descriptor := 0;
    var link := m.Head.ForwardLink;
    while link != m.Head
      invariant 0 <= descriptor <= |m.Contents| && link == m.Links[Succ(descriptor, |m.Links|)]
      invariant buffer[..descriptor] == Descriptors(m.Contents)[..descriptor]
      decreases |m.Contents| - descriptor
    {
      assert descriptor < |m.Contents| by { m.AtHead(0); }
      m.EntryIs(descriptor + 1, m.Contents[descriptor]);
      buffer[descriptor] := BuildMemoryDescriptor(link.Payload);
      m.Forward(descriptor + 1);
      descriptor := descriptor + 1;
      link := link.ForwardLink;
    }
    m.AtHead(Succ(descriptor, |m.Links|));
  }

  /** What others do while the lock is free: calls on the map, one after the other. */
  method Interfere(m: Map, calls: seq<Call>) returns (answers: seq<Answer>, ghost states: seq<seq<MapEntry>>)
    requires m.Valid() && MapInvariant(m.Contents, m.Limit) && forall call :: call in calls ==> Proper(call)
    modifies m, m.Repr
    ensures m.Valid() && m.Limit == old(m.Limit) && fresh(m.Repr - old(m.Repr)) && MapInvariant(m.Contents, m.Limit)
    ensures |states| == |calls| + 1
    ensures RunFrom(old(m.Contents), m.Limit, states, calls, answers) && states[|calls|] == m.Contents
    ensures calls == [] ==> m.Contents == old(m.Contents)
  {
    hide Map.Valid, Tiles, Canonical, Signed, HandlesPaired, Step, Proper;
    answers, states := [], [m.Contents];
    for i := 0 to |calls|
      invariant m.Valid() && m.Limit == old(m.Limit) && fresh(m.Repr - old(m.Repr)) && MapInvariant(m.Contents, m.Limit)
      invariant |answers| == i
      invariant RunFrom(old(m.Contents), m.Limit, states, calls[..i], answers) && states[i] == m.Contents
    {
      ProperInRange(calls[i]);
      ghost var es := m.Contents;
      var answer := Perform(m, calls[i]);
      StepUpdates(es, m.Contents, m.Limit, calls[i], answer);
      RunExtended(old(m.Contents), m.Limit, states, calls[..i], answers, m.Contents, calls[i], answer);
      assert calls[..i + 1] == calls[..i] + [calls[i]];
      answers, states := answers + [answer], states + [m.Contents];
    }
    assert calls[..|calls|] == calls;
  }

  lemma ProperInRange(call: Call)
    requires Proper(call)
    ensures InRange(call)
  {
  }

  lemma RunExtended(start: seq<MapEntry>, limit: nat, states: seq<seq<MapEntry>>, calls: seq<Call>,
                    answers: seq<Answer>,
                    es': seq<MapEntry>, call: Call, answer: Answer)
    requires limit > 0 && RunFrom(start, limit, states, calls, answers)
    requires Proper(call) && Step(states[|calls|], es', limit, call, answer)
    ensures RunFrom(start, limit, states + [es'], calls + [call], answers + [answer])
  {
    hide Proper, Step;
  }

  /** One release of the lock by CoreGetMemorySpaceMap: what others do to the map meanwhile, and
      whether the pool has room for the buffer. */
  datatype Release = Release(others: seq<Call>, room: bool)

  /** The calls of the first `n` releases; beyond the given ones nobody calls. */
  ghost function CallsOf(releases: seq<Release>, n: nat): seq<Call> {
    if n == 0 then [] else CallsOf(releases, n - 1) + ReleaseAt(releases, n - 1).others
  }

  /** The buffers of the first `n` releases were all allocated. */
  ghost predicate RoomFor(releases: seq<Release>, n: nat) {
    n == 0 || (RoomFor(releases, n - 1) && ReleaseAt(releases, n - 1).room)
  }

  /** The calls of the first `n` releases lead from `start` to `es`. */
  ghost predicate Led(start: seq<MapEntry>, es: seq<MapEntry>, limit: nat, releases: seq<Release>, n: nat,
                      states: seq<seq<MapEntry>>, answers: seq<Answer>)
    requires limit > 0
  {
    RunFrom(start, limit, states, CallsOf(releases, n), answers) && states[|states| - 1] == es
  }

  lemma LedStart(start: seq<MapEntry>, limit: nat, releases: seq<Release>)
    requires limit > 0
    ensures Led(start, start, limit, releases, 0, [start], [])
  {
  }

  lemma LedOn(start: seq<MapEntry>, es: seq<MapEntry>, es': seq<MapEntry>, limit: nat, releases: seq<Release>, n: nat,
              states: seq<seq<MapEntry>>, answers: seq<Answer>, states': seq<seq<MapEntry>>, answers': seq<Answer>)
    requires limit > 0 && Led(start, es, limit, releases, n, states, answers)
    requires RunFrom(es, limit, states', ReleaseAt(releases, n).others, answers') && states'[|states'| - 1] == es'
    ensures Led(start, es', limit, releases, n + 1, states + states'[1..], answers + answers')
  {
    hide Proper, Step;
    RunsJoined(start, limit, states, CallsOf(releases, n), answers, states', ReleaseAt(releases, n).others, answers');
  }

  lemma ReleaseProper(releases: seq<Release>, n: nat)
    requires forall i, call :: 0 <= i < |releases| && call in releases[i].others ==> Proper(call)
    ensures forall call :: call in ReleaseAt(releases, n).others ==> Proper(call)
  {
  }

  function ReleaseAt(releases: seq<Release>, n: nat): Release {
    if n < |releases| then releases[n] else Release([], true)
  }

  // ---------- whether others change the number of entries ----------

  /** How many entries the map has after `i` releases. */
  ghost function CountAfter(releases: seq<Release>, states: seq<seq<MapEntry>>, i: nat): nat {
    var k := |CallsOf(releases, i)|;
    if k < |states| then |states[k]| else 0
  }

  /** Release `i` leaves the number of entries as it was. */
  ghost predicate KeepsCount(releases: seq<Release>, states: seq<seq<MapEntry>>, i: nat) {
    CountAfter(releases, states, i + 1) == CountAfter(releases, states, i)
  }

  lemma {:induction false} CallsGrow(releases: seq<Release>, i: nat, n: nat)
    requires i <= n
    ensures |CallsOf(releases, i)| <= |CallsOf(releases, n)|
    decreases n
  {
    if i < n { CallsGrow(releases, i, n - 1); }
  }

  /** More states do not change what happened before. */
  lemma CountsStay(releases: seq<Release>, states: seq<seq<MapEntry>>, more: seq<seq<MapEntry>>, n: nat)
    requires |states| == |CallsOf(releases, n)| + 1
    ensures forall i :: 0 <= i <= n ==> CountAfter(releases, states + more, i) == CountAfter(releases, states, i)
    ensures CountAfter(releases, states, n) == |states[|states| - 1]|
  {
    forall i | 0 <= i <= n ensures CountAfter(releases, states + more, i) == CountAfter(releases, states, i) {
      CallsGrow(releases, i, n);
    }
  }

  lemma LedLength(start: seq<MapEntry>, es: seq<MapEntry>, limit: nat, releases: seq<Release>, n: nat,
                  states: seq<seq<MapEntry>>, answers: seq<Answer>)
    requires limit > 0 && Led(start, es, limit, releases, n, states, answers)
    ensures |states| == |CallsOf(releases, n)| + 1 && states[|states| - 1] == es
    ensures CountAfter(releases, states, n) == |es|
  {
    hide Proper, Step;
  }

  /** After `n` releases: the array has as many elements as there were entries before the last one, and
      every release but the last changed the number of entries. */
  ghost predicate AllChanged(releases: seq<Release>, states: seq<seq<MapEntry>>, n: nat, number: nat) {
    && (n > 0 ==> number == CountAfter(releases, states, n - 1))
    && forall i :: 0 <= i < n - 1 ==> !KeepsCount(releases, states, i)
  }

  lemma NoReleases(releases: seq<Release>, states: seq<seq<MapEntry>>)
    ensures AllChanged(releases, states, 0, 0) && RoomFor(releases, 0)
  {
  }

  lemma ReleaseIs(releases: seq<Release>, n: nat)
    ensures n >= |releases| ==> ReleaseAt(releases, n).others == []
    ensures RoomFor(releases, n + 1) <==> RoomFor(releases, n) && ReleaseAt(releases, n).room
  {
  }

  lemma AllChangedNext(releases: seq<Release>, states: seq<seq<MapEntry>>, more: seq<seq<MapEntry>>, n: nat,
                       number: nat, count: nat)
    requires AllChanged(releases, states, n, number) && |states| == |CallsOf(releases, n)| + 1
    requires CountAfter(releases, states, n) == count != number
    ensures AllChanged(releases, states + more, n + 1, count)
  {
    hide CountAfter;
    CountsStay(releases, states, more, n);
    forall i | 0 <= i < n ensures !KeepsCount(releases, states + more, i) {
      if i < n - 1 { assert !KeepsCount(releases, states, i); }
    }
  }

  /** The loop ends: the last release kept the number of entries. */
  lemma ChangedUntil(releases: seq<Release>, states: seq<seq<MapEntry>>, n: nat, number: nat)
    requires AllChanged(releases, states, n, number)
    ensures n > 0 && CountAfter(releases, states, n) == number ==> KeepsCount(releases, states, n - 1)
    ensures forall i :: 0 <= i < n - 1 ==> !KeepsCount(releases, states, i)
  {
    hide CountAfter;
  }

  /** FreePool: only what is live can be given back. */
  method FreePool(buffer: array<MemoryDescriptor>, ghost live: set<array<MemoryDescriptor>>)
    returns (ghost live': set<array<MemoryDescriptor>>)
    requires buffer in live
    ensures live' == live - {buffer}
  {
    live' := live - {buffer};
  }

  /** What others do in release `n`. */
  method WhileFree(m: Map, releases: seq<Release>, n: nat, ghost start: seq<MapEntry>, ghost states: seq<seq<MapEntry>>,
                   ghost answers: seq<Answer>, ghost number: nat, ghost count: nat)
    returns (ghost states': seq<seq<MapEntry>>, ghost answers': seq<Answer>)
    requires m.Valid() && MapInvariant(m.Contents, m.Limit)
    requires forall i, call :: 0 <= i < |releases| && call in releases[i].others ==> Proper(call)
    requires Led(start, m.Contents, m.Limit, releases, n, states, answers)
    requires AllChanged(releases, states, n, number) && |m.Contents| == count != number
    modifies m, m.Repr
    ensures m.Valid() && m.Limit == old(m.Limit) && fresh(m.Repr - old(m.Repr)) && MapInvariant(m.Contents, m.Limit)
    ensures n >= |releases| ==> m.Contents == old(m.Contents)
    ensures Led(start, m.Contents, m.Limit, releases, n + 1, states', answers')
    ensures AllChanged(releases, states', n + 1, count)
  {
    hide Map.Valid, Tiles, Canonical, Signed, HandlesPaired, Step, Proper, Led, CountAfter, AllChanged, RoomFor,
         ReleaseAt;
    ghost var es := m.Contents;
    ReleaseProper(releases, n);
    ReleaseIs(releases, n);
    LedLength(start, es, m.Limit, releases, n, states, answers);
    answers', states' := Interfere(m, ReleaseAt(releases, n).others);
    LedOn(start, es, m.Contents, m.Limit, releases, n, states, answers, states', answers');
    AllChangedNext(releases, states, states'[1..], n, number, count);
    states', answers' := states + states'[1..], answers + answers';
  }

  /** CoreGetMemorySpaceMap, with finitely many releases at which others change the map arbitrarily:
      on success the buffer is the map as it is when the lock is given back for good, and the lock is
      free on every return.  `n` is the number of releases: the first one that leaves the number of
      entries as it was is the last.  Of the buffers, `live` are not given back. */
  method GetMemorySpaceMap(m: Map, hasNumber: bool, hasMap: bool, releases: seq<Release>)
    returns (status: Status, number: nat, buffer: array?<MemoryDescriptor>, ghost n: nat,
             ghost states: seq<seq<MapEntry>>, ghost answers: seq<Answer>, ghost live: set<array<MemoryDescriptor>>)
    requires m.Valid() && MapInvariant(m.Contents, m.Limit)
    requires forall i, call :: 0 <= i < |releases| && call in releases[i].others ==> Proper(call)
    modifies m, m.Repr
    ensures m.Valid() && !m.Locked && MapInvariant(m.Contents, m.Limit) && m.Limit == old(m.Limit)
    ensures fresh(m.Repr - old(m.Repr))
    ensures status == if !(hasNumber && hasMap) then EFI_INVALID_PARAMETER
                      else if RoomFor(releases, n) then EFI_SUCCESS else EFI_OUT_OF_RESOURCES
    ensures status == EFI_SUCCESS ==>
              && buffer != null && fresh(buffer) && buffer.Length == number && buffer[..] == Descriptors(m.Contents)
              && live == {buffer} && n > 0 && KeepsCount(releases, states, n - 1)
    ensures status != EFI_SUCCESS ==> buffer == null && number == 0 && live == {}
    ensures Led(old(m.Contents), m.Contents, m.Limit, releases, n, states, answers)
    ensures forall i :: 0 <= i < n - 1 ==> !KeepsCount(releases, states, i)
  {
    hide Map.Linked, Map.PoolIs, Tiles, Canonical, Signed, HandlesPaired, Step, Proper, Led, RunFrom, CountAfter,
         KeepsCount, Descriptors, BuildMemoryDescriptor, CallsOf, AllChanged, RoomFor, ReleaseAt;
    LedStart(m.Contents, m.Limit, releases);
    NoReleases(releases, [m.Contents]);
    number, buffer, n, states, answers, live := 0, null, 0, [m.Contents], [], {};
    if !hasNumber { return EFI_INVALID_PARAMETER, number, buffer, n, states, answers, live; }
    if !hasMap { return EFI_INVALID_PARAMETER, number, buffer, n, states, answers, live; }
    var at := 0;
    m.AcquireLock();
    while true
      invariant m.Linked() && m.PoolIs({}) && m.Locked && MapInvariant(m.Contents, m.Limit)
      invariant m.Limit == old(m.Limit) && fresh(m.Repr - old(m.Repr))
      invariant (buffer == null <==> n == 0) && (n == 0 ==> number == 0 && live == {})
      invariant buffer != null ==> fresh(buffer) && buffer.Length == number && live == {buffer}
      invariant at == n && RoomFor(releases, n)
      invariant n > |releases| ==> number == |m.Contents|
      invariant AllChanged(releases, states, n, number)
      invariant Led(old(m.Contents), m.Contents, m.Limit, releases, n, states, answers)
      decreases |releases| + 1 - n
    {
      LedLength(old(m.Contents), m.Contents, m.Limit, releases, n, states, answers);
      var count := CountMapEntries(m);
      if count == number {
        InvariantNotEmpty(m.Contents, m.Limit);
        FillSnapshot(m, buffer);
        ChangedUntil(releases, states, n, number);
        break;
      }
      m.ReleaseLock();
      states, answers := WhileFree(m, releases, at, old(m.Contents), states, answers, number, count);
      ChangedUntil(releases, states, n + 1, count);
      ReleaseIs(releases, n);
      n, at := n + 1, at + 1;
      if buffer != null {
        live := FreePool(buffer, live);
      }
      buffer := null;
      if !ReleaseAt(releases, at - 1).room {
        number := 0;
        return EFI_OUT_OF_RESOURCES, number, buffer, n, states, answers, live;
      }
      buffer := new MemoryDescriptor[count];
      live := live + {buffer};
      number := count;
      m.AcquireLock();
    }
    m.ReleaseLock();
    status := EFI_SUCCESS;
  }

  lemma InvariantNotEmpty(es: seq<MapEntry>, limit: nat)
    requires MapInvariant(es, limit)
    ensures es != []
  {
  }

  lemma RunsJoined(start: seq<MapEntry>, limit: nat, states: seq<seq<MapEntry>>, calls: seq<Call>, answers: seq<Answer>,
                   states': seq<seq<MapEntry>>, calls': seq<Call>, answers': seq<Answer>)
    requires limit > 0 && RunFrom(start, limit, states, calls, answers)
    requires RunFrom(states[|calls|], limit, states', calls', answers')
    ensures RunFrom(start, limit, states + states'[1..], calls + calls', answers + answers')
  {
    hide Proper, Step;
    var s, c, a := states + states'[1..], calls + calls', answers + answers';
    forall i | 0 <= i < |c| ensures Proper(c[i]) && Step(s[i], s[i + 1], limit, c[i], a[i]) {
      if i >= |calls| { assert s[i] == states'[i - |calls|]; }
    }
  }
}
