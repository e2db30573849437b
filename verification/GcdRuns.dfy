/** Runs of a GCD map: any number of calls, in any order, from the map that CoreInitializeGcdServices
    sets up.  A call is proper if its address arithmetic cannot wrap around. */
module GcdRuns {
  import opened Efi
  import opened GcdEntries
  import opened GcdConversion
  import opened GcdSpec
  import opened GcdPlacement

  /** A call of CoreConvertSpace or of CoreAllocateSpace; `granted` says whether the pool has room for
      its work space. */
  datatype Call =
    | Convert(change: Change, base: nat, length: nat, cpu: CpuArch, granted: bool)
    | Place(mode: Mode, request: Request, baseIn: Option<nat>, imageHandle: nat, deviceHandle: nat, granted: bool)

  /** What a call returns; `base` is what an allocation stores through BaseAddress. */
  datatype Answer = Answer(status: Status, base: nat)

  predicate InRange(call: Call) {
    match call
    case Convert(c, base, length, _, _) => !c.Allocate? && base < UINT64_RANGE && length < UINT64_RANGE
    case Place(_, q, baseIn, _, _, _) => q.length < UINT64_RANGE && (baseIn.Some? ==> baseIn.value < UINT64_RANGE)
  }

  predicate Proper(call: Call) {
    && InRange(call)
    && match call
       case Convert(_, base, length, _, _) => base + length <= UINT64_RANGE
       case Place(mode, q, baseIn, _, _, _) => Ranged(mode, q, Given(baseIn))
  }

  function Given(baseIn: Option<nat>): nat {
    if baseIn.Some? then baseIn.value else 0
  }

  /** What a call does to the list. */
  ghost predicate Step(es: seq<MapEntry>, es': seq<MapEntry>, limit: nat, call: Call, answer: Answer)
    requires limit > 0
  {
    match call
    case Convert(c, base, length, cpu, granted) =>
      ConvertOutcome(es, es', limit, c, base, length, granted, cpu, answer.status)
    case Place(mode, q, baseIn, image, device, granted) =>
      AllocateOutcome(es, es', limit, mode, q, baseIn.Some?, Given(baseIn), image, device, granted,
                      answer.status, answer.base)
  }

  // ---------- what a call did, in terms of addresses ----------

  function ChangeOf(call: Call): Change {
    if call.Convert? then call.change else Allocate(call.imageHandle, call.deviceHandle)
  }

  function BaseOf(call: Call, answer: Answer): nat {
    if call.Convert? then call.base else answer.base
  }

  function LengthOf(call: Call): nat {
    if call.Convert? then call.length else call.request.length
  }

  /** The call went through and its range holds `x`. */
  predicate Covers(call: Call, answer: Answer, x: int) {
    answer.status == EFI_SUCCESS && BaseOf(call, answer) <= x < BaseOf(call, answer) + LengthOf(call)
  }

  predicate Frees(call: Call, answer: Answer, x: int) {
    call.Convert? && call.change.Free? && Covers(call, answer, x)
  }

  predicate Allocates(call: Call, answer: Answer, x: int) {
    call.Place? && Covers(call, answer, x)
  }

  lemma ConvertFits(es: seq<MapEntry>, es': seq<MapEntry>, limit: nat, call: Call, answer: Answer)
    requires MapInvariant(es, limit) && Proper(call) && Step(es, es', limit, call, answer) && call.Convert?
    requires answer.status == EFI_SUCCESS
    ensures call.length > 0 && call.base + call.length <= limit
    ensures Updates(es, es', limit, call.change, call.base, call.base + call.length - 1)
  {
    hide MapInvariant, Updates, RangeStatus, WorkStatus, WrappedOutcome;
  }

  lemma PlaceFits(es: seq<MapEntry>, es': seq<MapEntry>, limit: nat, call: Call, answer: Answer)
    requires MapInvariant(es, limit) && Proper(call) && Step(es, es', limit, call, answer) && call.Place?
    requires answer.status == EFI_SUCCESS
    ensures call.request.length > 0 && call.imageHandle != 0
    ensures Chosen(es, limit, call.mode, call.request, Given(call.baseIn), answer.base)
    ensures Updates(es, es', limit, ChangeOf(call), answer.base, answer.base + call.request.length - 1)
  {
    hide MapInvariant, Updates, Chosen, Placed, Ranged;
  }

  lemma PlaceFindsFree(es: seq<MapEntry>, es': seq<MapEntry>, limit: nat, call: Call, answer: Answer)
    requires MapInvariant(es, limit) && Proper(call) && Step(es, es', limit, call, answer) && call.Place?
    requires answer.status == EFI_SUCCESS
    ensures answer.base + call.request.length <= limit
    ensures FreeRange(es, call.request, answer.base, answer.base + call.request.length)
  {
    hide Step, MapInvariant, Updates, Chosen, FreeRange;
    PlaceFits(es, es', limit, call, answer);
    assert limit > 0 by { InvariantLimit(es, limit); }
    ChosenFits(es, limit, call.mode, call.request, Given(call.baseIn), answer.base);
  }

  lemma InvariantLimit(es: seq<MapEntry>, limit: nat)
    requires MapInvariant(es, limit)
    ensures 0 < limit
  {
  }

  /** A call is all or nothing: it changes nothing, or it updates exactly its range. */
  lemma StepUpdates(es: seq<MapEntry>, es': seq<MapEntry>, limit: nat, call: Call, answer: Answer)
    requires MapInvariant(es, limit) && Proper(call) && Step(es, es', limit, call, answer)
    ensures answer.status != EFI_SUCCESS ==> es' == es
    ensures answer.status == EFI_SUCCESS ==>
              && LengthOf(call) > 0 && BaseOf(call, answer) + LengthOf(call) <= limit
              && Updates(es, es', limit, ChangeOf(call), BaseOf(call, answer),
                         BaseOf(call, answer) + LengthOf(call) - 1)
    ensures MapInvariant(es', limit)
  {
    hide MapInvariant, RecordAt, CarriedAt, UpdateRecord, FreeRange, Chosen, Placed, PlacementOutcome, WrappedOutcome,
         ConvertStatus, Ranged, ParameterStatus;
    if answer.status == EFI_SUCCESS {
      if call.Convert? {
        ConvertFits(es, es', limit, call, answer);
      } else {
        PlaceFits(es, es', limit, call, answer);
        PlaceFindsFree(es, es', limit, call, answer);
      }
    }
  }

  // ---------- runs ----------

  /** CoreInitializeGcdServices: nothing exists anywhere in the space. */
  ghost function InitialMap(limit: nat): seq<MapEntry>
    requires limit > 0
  {
    [MapEntry(GCD_MAP_SIGNATURE, 0, limit - 1, NOTHING)]
  }

  /** `states` are the lists before the first and after each of the calls. */
  ghost predicate RunFrom(start: seq<MapEntry>, limit: nat, states: seq<seq<MapEntry>>, calls: seq<Call>,
                          answers: seq<Answer>)
    requires limit > 0
  {
    && |states| == |calls| + 1 && |answers| == |calls| && states[0] == start
    && forall i :: 0 <= i < |calls| ==> Proper(calls[i]) && Step(states[i], states[i + 1], limit, calls[i], answers[i])
  }

  ghost predicate Run(limit: nat, states: seq<seq<MapEntry>>, calls: seq<Call>, answers: seq<Answer>) {
    0 < limit <= SPACE_MAX && RunFrom(InitialMap(limit), limit, states, calls, answers)
  }

  lemma InitialInvariant(limit: nat)
    requires 0 < limit <= SPACE_MAX
    ensures MapInvariant(InitialMap(limit), limit)
    ensures forall x :: 0 <= x < limit ==> RecordAt(InitialMap(limit), x) == NOTHING
  {
  }

  /** The partition and the canonical form survive every run. */
  lemma {:induction false} RunInvariant(start: seq<MapEntry>, limit: nat, states: seq<seq<MapEntry>>,
                                        calls: seq<Call>, answers: seq<Answer>, n: nat)
    requires MapInvariant(start, limit) && RunFrom(start, limit, states, calls, answers) && n <= |calls|
    ensures MapInvariant(states[n], limit)
  {
    hide MapInvariant, Step, Proper;
    if n > 0 {
      RunInvariant(start, limit, states, calls, answers, n - 1);
      StepUpdates(states[n - 1], states[n], limit, calls[n - 1], answers[n - 1]);
    }
  }

  /** Exactly one entry holds `x`. */
  ghost predicate HeldOnce(es: seq<MapEntry>, x: int) {
    && (exists k :: 0 <= k < |es| && Holds(es[k], x))
    && forall i, k :: 0 <= i < |es| && 0 <= k < |es| && Holds(es[i], x) && Holds(es[k], x) ==> i == k
  }

  /** In every state of every run the map partitions the space: each address is in exactly one entry,
      and lengths add up to the size of the space. */
  lemma RunPartition(limit: nat, states: seq<seq<MapEntry>>, calls: seq<Call>, answers: seq<Answer>, n: nat)
    requires Run(limit, states, calls, answers) && n <= |calls|
    ensures MapInvariant(states[n], limit) && TotalLength(states[n]) == limit
    ensures forall x :: 0 <= x < limit <==> HeldOnce(states[n], x)
  {
    hide Tiles, Canonical, Signed, HandlesPaired, Step, Proper, HeldOnce;
    InitialInvariant(limit);
    RunInvariant(InitialMap(limit), limit, states, calls, answers, n);
    LengthsAddUp(states[n], 0, limit);
    forall x ensures 0 <= x < limit <==> HeldOnce(states[n], x) {
      TilingHoldsOnce(states[n], limit, x);
    }
  }

  lemma TilingHoldsOnce(es: seq<MapEntry>, limit: nat, x: int)
    requires Tiles(es, 0, limit)
    ensures 0 <= x < limit <==> HeldOnce(es, x)
  {
    hide Tiles;
    if 0 <= x < limit { var k := EntryAt(es, 0, limit, x); }
    forall i, k | 0 <= i < |es| && 0 <= k < |es| && Holds(es[i], x) && Holds(es[k], x)
      ensures i == k && 0 <= x < limit
    {
      TilesHoldOnce(es, 0, limit, i, k, x);
      RecordIs(es, 0, limit, k, x);
    }
  }

  /** Two runs that lead to the same address-to-record function lead to the same list. */
  lemma SameFunctionSameList(limit: nat, states: seq<seq<MapEntry>>, calls: seq<Call>, answers: seq<Answer>, n: nat,
                             states': seq<seq<MapEntry>>, calls': seq<Call>, answers': seq<Answer>, n': nat)
    requires Run(limit, states, calls, answers) && n <= |calls|
    requires Run(limit, states', calls', answers') && n' <= |calls'|
    requires SameRecords(states[n], states'[n'], 0, limit)
    ensures states[n] == states'[n']
  {
    hide Tiles, Canonical, Signed, HandlesPaired, Step, Proper, SameRecords;
    InitialInvariant(limit);
    RunInvariant(InitialMap(limit), limit, states, calls, answers, n);
    RunInvariant(InitialMap(limit), limit, states', calls', answers', n');
    CanonicalUnique(states[n], states'[n'], 0, limit);
  }

  // ---------- the outcome of a call is determined ----------

  lemma ConvertDetermined(es: seq<MapEntry>, a: seq<MapEntry>, b: seq<MapEntry>, limit: nat, call: Call, p: Answer,
                          q: Answer)
    requires MapInvariant(es, limit) && Proper(call) && call.Convert?
    requires Step(es, a, limit, call, p) && Step(es, b, limit, call, q)
    ensures p.status == q.status && a == b
  {
    hide MapInvariant, Updates, RangeStatus, WorkStatus, WrappedOutcome;
    if p.status == EFI_SUCCESS {
      UpdatesUnique(es, a, b, limit, call.change, call.base, call.base + call.length - 1);
    }
  }

  lemma ChosenUnique(es: seq<MapEntry>, limit: nat, mode: Mode, q: Request, baseIn: nat, b: nat, b': nat)
    requires limit > 0 && Chosen(es, limit, mode, q, baseIn, b) && Chosen(es, limit, mode, q, baseIn, b')
    ensures b == b'
  {
  }

  lemma PlaceDetermined(es: seq<MapEntry>, a: seq<MapEntry>, b: seq<MapEntry>, limit: nat, call: Call, p: Answer,
                        q: Answer)
    requires MapInvariant(es, limit) && Proper(call) && call.Place?
    requires Step(es, a, limit, call, p) && Step(es, b, limit, call, q)
    ensures p.status == q.status && a == b && (p.status == EFI_SUCCESS ==> p.base == q.base)
  {
    hide MapInvariant, Updates, Chosen, Placed, Ranged;
    if p.status == EFI_SUCCESS {
      InvariantLimit(es, limit);
      PlaceFits(es, a, limit, call, p);
      PlaceFits(es, b, limit, call, q);
      ChosenUnique(es, limit, call.mode, call.request, Given(call.baseIn), p.base, q.base);
      UpdatesUnique(es, a, b, limit, ChangeOf(call), p.base, p.base + call.request.length - 1);
    }
  }

  /** The same calls have the same outcomes and leave the same lists, whatever nodes the lists are made of. */
  lemma {:induction false} RunDetermined(limit: nat, states: seq<seq<MapEntry>>, states': seq<seq<MapEntry>>,
                                         calls: seq<Call>, answers: seq<Answer>, answers': seq<Answer>, n: nat)
    requires Run(limit, states, calls, answers) && Run(limit, states', calls, answers') && n <= |calls|
    ensures states[n] == states'[n]
    ensures forall i :: 0 <= i < n ==> answers[i].status == answers'[i].status
  {
    hide MapInvariant, Step, Proper;
    if n > 0 {
      RunDetermined(limit, states, states', calls, answers, answers', n - 1);
      InitialInvariant(limit);
      RunInvariant(InitialMap(limit), limit, states, calls, answers, n - 1);
      var es, call := states[n - 1], calls[n - 1];
      if call.Convert? {
        ConvertDetermined(es, states[n], states'[n], limit, call, answers[n - 1], answers'[n - 1]);
      } else {
        PlaceDetermined(es, states[n], states'[n], limit, call, answers[n - 1], answers'[n - 1]);
      }
    }
  }

  // ---------- the map remembers exactly the calls that covered an address ----------

  /** What the first `n` calls say about an address: each call that went through and covered it, in order. */
  ghost function HistoryAt(calls: seq<Call>, answers: seq<Answer>, n: nat, x: int): SpaceRecord
    requires n <= |calls| && |answers| == |calls|
    decreases n, 0
  {
    if n == 0 then NOTHING
    else
      var call, answer := calls[n - 1], answers[n - 1];
      var c, r := ChangeOf(call), HistoryAt(calls, answers, n - 1, x);
      if Covers(call, answer, x)
      then UpdateRecord(c, r, HistoryCarried(calls, answers, n - 1, c, BaseOf(call, answer), x))
      else r
  }

  /** What change `c` carries from `base` to `x` when it follows the first `n` calls. */
  ghost function HistoryCarried(calls: seq<Call>, answers: seq<Answer>, n: nat, c: Change, base: nat, x: int): bv64
    requires n <= |calls| && |answers| == |calls|
    decreases n, 1, x - base
  {
    if x < base then FirstCarry(c)
    else NextCarry(c, HistoryAt(calls, answers, n, x), HistoryCarried(calls, answers, n, c, base, x - 1))
  }

  ghost predicate Remembers(es: seq<MapEntry>, limit: nat, calls: seq<Call>, answers: seq<Answer>, n: nat)
    requires n <= |calls| && |answers| == |calls|
  {
    forall x :: 0 <= x < limit ==> RecordAt(es, x) == HistoryAt(calls, answers, n, x)
  }

  lemma {:induction false} SameCarried(es: seq<MapEntry>, limit: nat, calls: seq<Call>, answers: seq<Answer>, n: nat,
                                       c: Change, base: nat, x: int)
    requires n <= |calls| && |answers| == |calls| && Remembers(es, limit, calls, answers, n) && x < limit
    ensures CarriedAt(es, c, base, x) == HistoryCarried(calls, answers, n, c, base, x)
    decreases x - base
  {
    hide RecordAt, HistoryAt, NextCarry, FirstCarry;
    if base <= x { SameCarried(es, limit, calls, answers, n, c, base, x - 1); }
  }

  lemma HistoryNext(calls: seq<Call>, answers: seq<Answer>, n: nat, x: int)
    requires 0 < n <= |calls| && |answers| == |calls|
    ensures var call, answer, r := calls[n - 1], answers[n - 1], HistoryAt(calls, answers, n - 1, x);
            HistoryAt(calls, answers, n, x)
            == if Covers(call, answer, x)
               then UpdateRecord(ChangeOf(call), r,
                                 HistoryCarried(calls, answers, n - 1, ChangeOf(call), BaseOf(call, answer), x))
               else r
  {
    hide UpdateRecord, HistoryCarried, Covers;
  }

  lemma StepRecord(es: seq<MapEntry>, es': seq<MapEntry>, limit: nat, call: Call, answer: Answer, x: int)
    requires MapInvariant(es, limit) && Proper(call) && Step(es, es', limit, call, answer) && 0 <= x < limit
    ensures RecordAt(es', x)
            == if Covers(call, answer, x)
               then UpdateRecord(ChangeOf(call), RecordAt(es, x),
                                 CarriedAt(es, ChangeOf(call), BaseOf(call, answer), x))
               else RecordAt(es, x)
  {
    hide MapInvariant, Step, Proper, RecordAt, UpdateRecord, CarriedAt, ChangeOf, BaseOf, LengthOf;
    StepUpdates(es, es', limit, call, answer);
  }

  lemma Remembered(es: seq<MapEntry>, es': seq<MapEntry>, limit: nat, calls: seq<Call>, answers: seq<Answer>, n: nat,
                   x: int)
    requires 0 < n <= |calls| && |answers| == |calls| && Remembers(es, limit, calls, answers, n - 1) && 0 <= x < limit
    requires MapInvariant(es, limit) && Proper(calls[n - 1]) && Step(es, es', limit, calls[n - 1], answers[n - 1])
    ensures RecordAt(es', x) == HistoryAt(calls, answers, n, x)
  {
    hide MapInvariant, Step, Proper, RecordAt, UpdateRecord, CarriedAt, HistoryCarried, HistoryAt, Covers, ChangeOf,
         BaseOf;
    var call, answer := calls[n - 1], answers[n - 1];
    HistoryNext(calls, answers, n, x);
    StepRecord(es, es', limit, call, answer, x);
    SameCarried(es, limit, calls, answers, n - 1, ChangeOf(call), BaseOf(call, answer), x);
  }

  /** Every state records about every address exactly what the calls that covered it said, in order,
      attributes that were carried along a range included. */
  lemma {:induction false} RunHistory(limit: nat, states: seq<seq<MapEntry>>, calls: seq<Call>, answers: seq<Answer>,
                                      n: nat)
    requires Run(limit, states, calls, answers) && n <= |calls|
    ensures forall x :: 0 <= x < limit ==> RecordAt(states[n], x) == HistoryAt(calls, answers, n, x)
  {
    hide MapInvariant, Step, Proper, RecordAt;
    InitialInvariant(limit);
    if n > 0 {
      RunHistory(limit, states, calls, answers, n - 1);
      RunInvariant(InitialMap(limit), limit, states, calls, answers, n - 1);
      forall x | 0 <= x < limit ensures RecordAt(states[n], x) == HistoryAt(calls, answers, n, x) {
        Remembered(states[n - 1], states[n], limit, calls, answers, n, x);
      }
    }
  }

  // ---------- owners ----------

  /** The owner of an address changes in a call only if the call frees the address. */
  lemma OwnerKept(es: seq<MapEntry>, es': seq<MapEntry>, limit: nat, call: Call, answer: Answer, x: nat)
    requires MapInvariant(es, limit) && Proper(call) && Step(es, es', limit, call, answer)
    requires x < limit && RecordAt(es, x).ImageHandle != 0 && !Frees(call, answer, x)
    ensures RecordAt(es', x).ImageHandle == RecordAt(es, x).ImageHandle
    ensures RecordAt(es', x).DeviceHandle == RecordAt(es, x).DeviceHandle
    ensures !Allocates(call, answer, x)
  {
    hide MapInvariant, Step, Ranged, RecordAt, CarriedAt, FirstCarry;
    StepUpdates(es, es', limit, call, answer);
    if Allocates(call, answer, x) { PlaceFindsFree(es, es', limit, call, answer); }
  }

  lemma OwnerSet(es: seq<MapEntry>, es': seq<MapEntry>, limit: nat, call: Call, answer: Answer, x: nat)
    requires MapInvariant(es, limit) && Proper(call) && Step(es, es', limit, call, answer) && Allocates(call, answer, x)
    ensures x < limit && call.imageHandle != 0
    ensures RecordAt(es', x).ImageHandle == call.imageHandle && RecordAt(es', x).DeviceHandle == call.deviceHandle
  {
    hide MapInvariant, Step, Proper, RecordAt, CarriedAt, FirstCarry, Chosen;
    PlaceFits(es, es', limit, call, answer);
    StepUpdates(es, es', limit, call, answer);
  }

  /** Until it is freed, an address belongs to whom it was allocated to. */
  lemma {:induction false} OwnerUntilFreed(limit: nat, states: seq<seq<MapEntry>>, calls: seq<Call>,
                                           answers: seq<Answer>, i: nat, n: nat, x: nat)
    requires Run(limit, states, calls, answers) && i < n <= |calls| && Allocates(calls[i], answers[i], x)
    requires forall k :: i < k < n ==> !Frees(calls[k], answers[k], x)
    ensures x < limit && calls[i].imageHandle != 0
    ensures RecordAt(states[n], x).ImageHandle == calls[i].imageHandle
    ensures RecordAt(states[n], x).DeviceHandle == calls[i].deviceHandle
  {
    hide MapInvariant, Step, Proper, RecordAt, Allocates, Frees;
    InitialInvariant(limit);
    RunInvariant(InitialMap(limit), limit, states, calls, answers, n - 1);
    if n == i + 1 {
      OwnerSet(states[i], states[n], limit, calls[i], answers[i], x);
    } else {
      OwnerUntilFreed(limit, states, calls, answers, i, n - 1, x);
      OwnerKept(states[n - 1], states[n], limit, calls[n - 1], answers[n - 1], x);
    }
  }

  /** No address ever has two live owners: between two allocations that cover it, it was freed. */
  lemma FreedInBetween(limit: nat, states: seq<seq<MapEntry>>, calls: seq<Call>, answers: seq<Answer>, i: nat, j: nat,
                       x: nat)
    requires Run(limit, states, calls, answers) && i < j < |calls|
    requires Allocates(calls[i], answers[i], x) && Allocates(calls[j], answers[j], x)
    ensures exists k :: i < k < j && Frees(calls[k], answers[k], x)
  {
    hide MapInvariant, Step, Proper, RecordAt, Allocates, Frees;
    if forall k :: i < k < j ==> !Frees(calls[k], answers[k], x) {
      OwnerUntilFreed(limit, states, calls, answers, i, j, x);
      InitialInvariant(limit);
      RunInvariant(InitialMap(limit), limit, states, calls, answers, j);
      NotBoth(calls[j], answers[j], x);
      OwnerKept(states[j], states[j + 1], limit, calls[j], answers[j], x);
    }
  }

  lemma NotBoth(call: Call, answer: Answer, x: nat)
    ensures !(Allocates(call, answer, x) && Frees(call, answer, x))
  {
  }
}
