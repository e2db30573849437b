/** Where CoreAllocateSpace puts a range, said on its parameters: what there is room for, how high each
    search mode may go, which of the places it takes, and when it takes none. */
module GcdChoices {
  import opened Arithmetic
  import opened Efi
  import opened GcdEntries
  import opened GcdConversion
  import opened GcdSpec
  import opened GcdPlacement

  /** Nobody owns the address, and it is of the type asked for. */
  predicate IsFree(q: Request, r: SpaceRecord) {
    r.ImageHandle == 0 && if q.kind.AllocateMemory? then r.GcdMemoryType == q.memoryType else r.GcdIoType == q.ioType
  }

  /** There is room at `b`: aligned, in the space, not above `max`, and free. */
  ghost predicate Room(es: seq<MapEntry>, limit: nat, q: Request, max: int, b: nat) {
    && b % Pow2(q.alignment) == 0 && b + q.length <= limit && b + q.length - 1 <= max
    && forall x :: b <= x < b + q.length ==> IsFree(q, RecordAt(es, x))
  }

  /** The top-down search considers the place: base + length of the entry it ends in is at most `max`. */
  ghost predicate TopRoom(es: seq<MapEntry>, limit: nat, q: Request, max: int, b: nat) {
    && Room(es, limit, q, max, b)
    && exists k :: 0 <= k < |es| && es[k].BaseAddress <= b + q.length - 1 <= es[k].EndAddress
                   && es[k].BaseAddress + q.length <= max
  }

  lemma FreeIsUsable(q: Request, r: SpaceRecord)
    ensures Usable(q, r) <==> IsFree(q, r)
  {
  }

  lemma RoomFits(es: seq<MapEntry>, limit: nat, q: Request, max: nat)
    ensures forall b: nat :: Fits(es, limit, q, max, b) <==> Room(es, limit, q, max, b)
    ensures forall b: nat :: FitsTopDown(es, limit, q, max, b) <==> TopRoom(es, limit, q, max, b)
  {
    hide RecordAt, Usable, IsFree;
    forall r ensures Usable(q, r) <==> IsFree(q, r) { FreeIsUsable(q, r); }
    forall b: nat ensures Fits(es, limit, q, max, b) <==> Room(es, limit, q, max, b) {
      if Room(es, limit, q, max, b) { assert FreeRange(es, q, b, b + q.length); }
    }
    forall b: nat ensures FitsTopDown(es, limit, q, max, b) <==> TopRoom(es, limit, q, max, b) {
      if TopRoom(es, limit, q, max, b) { assert Considered(es, q, max, b); }
    }
  }

  /** If there is room anywhere, there is a lowest place, and a highest considered one. */
  lemma {:induction false} Lowest(es: seq<MapEntry>, limit: nat, q: Request, max: int, b: nat) returns (low: nat)
    requires Room(es, limit, q, max, b)
    ensures Room(es, limit, q, max, low) && forall b': nat :: Room(es, limit, q, max, b') ==> low <= b'
    decreases b
  {
    hide Room;
    low := b;
    if b': nat :| b' < b && Room(es, limit, q, max, b') { low := Lowest(es, limit, q, max, b'); }
  }

  lemma {:induction false} Highest(es: seq<MapEntry>, limit: nat, q: Request, max: int, b: nat) returns (high: nat)
    requires TopRoom(es, limit, q, max, b)
    ensures TopRoom(es, limit, q, max, high) && forall b': nat :: TopRoom(es, limit, q, max, b') ==> b' <= high
    decreases limit - b
  {
    hide TopRoom;
    InSpace(es, limit, q, max, b);
    high := b;
    if b': nat :| b < b' && TopRoom(es, limit, q, max, b') {
      InSpace(es, limit, q, max, b');
      high := Highest(es, limit, q, max, b');
    }
  }

  lemma InSpace(es: seq<MapEntry>, limit: nat, q: Request, max: int, b: nat)
    requires TopRoom(es, limit, q, max, b)
    ensures b <= limit
  {
  }

  /** The parameters CoreAllocateSpace goes on with. */
  predicate Sound(mode: Mode, q: Request, hasBase: bool, imageHandle: nat) {
    && !mode.UnknownMode? && 0 <= q.memoryType < 6 && 0 <= q.ioType < 3 && hasBase && imageHandle != 0
    && q.alignment < 64 && q.length > 0
  }

  /** All others are refused: an alignment of 2^64 or more is not found, anything else is invalid. */
  lemma ParameterAnswer(es: seq<MapEntry>, es': seq<MapEntry>, limit: nat, mode: Mode, q: Request, hasBase: bool,
                        baseIn: nat, imageHandle: nat, deviceHandle: nat, granted: bool, status: Status, base: nat)
    requires 0 < limit
    requires AllocateOutcome(es, es', limit, mode, q, hasBase, baseIn, imageHandle, deviceHandle, granted, status, base)
    requires !Sound(mode, q, hasBase, imageHandle)
    ensures es' == es
    ensures status == if q.alignment >= 64 && Sound(mode, q.(alignment := 0, length := 1), hasBase, imageHandle)
                      then EFI_NOT_FOUND else EFI_INVALID_PARAMETER
  {
    hide PlacementOutcome, WrappedPlacement, Placed, Ranged;
  }

  lemma SoundPlaced(es: seq<MapEntry>, es': seq<MapEntry>, limit: nat, mode: Mode, q: Request, baseIn: nat,
                    imageHandle: nat, deviceHandle: nat, granted: bool, status: Status, base: nat)
    requires 0 < limit && Sound(mode, q, true, imageHandle)
    requires AllocateOutcome(es, es', limit, mode, q, true, baseIn, imageHandle, deviceHandle, granted, status, base)
    ensures Ranged(mode, q, baseIn) ==>
              PlacementOutcome(es, es', limit, mode, q, baseIn, imageHandle, deviceHandle, granted, status, base)
    ensures !Ranged(mode, q, baseIn) ==> WrappedPlacement(es, limit, mode, q, baseIn, granted, status, base)
  {
    hide PlacementOutcome, WrappedPlacement, Placed, Ranged;
  }

  /** The searches upwards take the lowest place there is room for: up to the address given, or up to the
      end of the space. */
  lemma BottomUpAnswer(es: seq<MapEntry>, es': seq<MapEntry>, limit: nat, mode: Mode, q: Request, baseIn: nat,
                       imageHandle: nat, deviceHandle: nat, granted: bool, status: Status, base: nat)
    requires 0 < limit && Sound(mode, q, true, imageHandle) && q.length <= 0x8000_0000_0000_0000
    requires mode.AnySearchBottomUp? || mode.MaxAddressSearchBottomUp?
    requires AllocateOutcome(es, es', limit, mode, q, true, baseIn, imageHandle, deviceHandle, granted, status, base)
    ensures var max := if mode.MaxAddressSearchBottomUp? then baseIn else limit - 1;
            if forall b: nat :: !Room(es, limit, q, max, b) then status == EFI_NOT_FOUND
            else if !granted then status == EFI_OUT_OF_RESOURCES
            else status == EFI_SUCCESS && Room(es, limit, q, max, base)
                 && forall b: nat :: Room(es, limit, q, max, b) ==> base <= b
  {
    hide Fits, FitsTopDown, Room, AllocateOutcome, Updates, Pow2;
    var max: nat := if mode.MaxAddressSearchBottomUp? then baseIn else limit - 1;
    SoundPlaced(es, es', limit, mode, q, baseIn, imageHandle, deviceHandle, granted, status, base);
    RoomFits(es, limit, q, max);
    if b: nat :| Room(es, limit, q, max, b) {
      var low := Lowest(es, limit, q, max, b);
      assert Chosen(es, limit, mode, q, baseIn, low);
    }
  }

  /** The searches downwards take the highest place they consider: up to the address given, or up to the
      end of the space. */
  lemma TopDownAnswer(es: seq<MapEntry>, es': seq<MapEntry>, limit: nat, mode: Mode, q: Request, baseIn: nat,
                      imageHandle: nat, deviceHandle: nat, granted: bool, status: Status, base: nat)
    requires 0 < limit && Sound(mode, q, true, imageHandle)
    requires mode.AnySearchTopDown? || mode.MaxAddressSearchTopDown?
    requires AllocateOutcome(es, es', limit, mode, q, true, baseIn, imageHandle, deviceHandle, granted, status, base)
    ensures var max := if mode.MaxAddressSearchTopDown? then baseIn else limit - 1;
            if forall b: nat :: !TopRoom(es, limit, q, max, b) then status == EFI_NOT_FOUND
            else if !granted then status == EFI_OUT_OF_RESOURCES
            else status == EFI_SUCCESS && TopRoom(es, limit, q, max, base)
                 && forall b: nat :: TopRoom(es, limit, q, max, b) ==> b <= base
  {
    hide Fits, FitsTopDown, TopRoom, Room, AllocateOutcome, Updates, Pow2;
    var max: nat := if mode.MaxAddressSearchTopDown? then baseIn else limit - 1;
    SoundPlaced(es, es', limit, mode, q, baseIn, imageHandle, deviceHandle, granted, status, base);
    RoomFits(es, limit, q, max);
    if b: nat :| TopRoom(es, limit, q, max, b) {
      var high := Highest(es, limit, q, max, b);
      assert Chosen(es, limit, mode, q, baseIn, high);
    }
  }

  /** The maximum of a caller is obeyed in both directions. */
  lemma MaximumObeyed(es: seq<MapEntry>, es': seq<MapEntry>, limit: nat, mode: Mode, q: Request, baseIn: nat,
                      imageHandle: nat, deviceHandle: nat, granted: bool, base: nat)
    requires 0 < limit && (mode.MaxAddressSearchBottomUp? || mode.MaxAddressSearchTopDown?)
    requires mode.MaxAddressSearchBottomUp? ==> q.length <= 0x8000_0000_0000_0000
    requires AllocateOutcome(es, es', limit, mode, q, true, baseIn, imageHandle, deviceHandle, granted,
                             EFI_SUCCESS, base)
    ensures base + q.length - 1 <= baseIn && base + q.length <= limit && base % Pow2(q.alignment) == 0
  {
    hide AllocateOutcome, Pow2;
    if !Sound(mode, q, true, imageHandle) {
      ParameterAnswer(es, es', limit, mode, q, true, baseIn, imageHandle, deviceHandle, granted, EFI_SUCCESS, base);
    }
    if mode.MaxAddressSearchBottomUp? {
      BottomUpAnswer(es, es', limit, mode, q, baseIn, imageHandle, deviceHandle, granted, EFI_SUCCESS, base);
    } else {
      TopDownAnswer(es, es', limit, mode, q, baseIn, imageHandle, deviceHandle, granted, EFI_SUCCESS, base);
    }
  }

  /** At an address given there is room or there is not; a range that passes 2^64 is taken where one free
      entry holds both its ends. */
  lemma AtAddressAnswer(es: seq<MapEntry>, es': seq<MapEntry>, limit: nat, q: Request, baseIn: nat,
                        imageHandle: nat, deviceHandle: nat, granted: bool, status: Status, base: nat)
    requires 0 < limit && Sound(AtAddress, q, true, imageHandle)
    requires baseIn < 0x1_0000_0000_0000_0000 && q.length < 0x1_0000_0000_0000_0000
    requires AllocateOutcome(es, es', limit, AtAddress, q, true, baseIn, imageHandle, deviceHandle, granted,
                             status, base)
    ensures var end := baseIn + q.length - 1;
            var taken := if end < 0x1_0000_0000_0000_0000 then Room(es, limit, q, limit - 1, baseIn)
                         else baseIn % Pow2(q.alignment) == 0 && HeldFree(es, q, baseIn, end - 0x1_0000_0000_0000_0000);
            if !taken then status == EFI_NOT_FOUND
            else if !granted then status == EFI_OUT_OF_RESOURCES
            else status == EFI_SUCCESS && base == baseIn
  {
    hide Fits, Room, AllocateOutcome, Updates, Pow2, HeldFree, Accepted;
    SoundPlaced(es, es', limit, AtAddress, q, baseIn, imageHandle, deviceHandle, granted, status, base);
    if baseIn + q.length <= 0x1_0000_0000_0000_0000 {
      RoomFits(es, limit, q, limit - 1);
      assert Chosen(es, limit, AtAddress, q, baseIn, baseIn) <==> Room(es, limit, q, limit - 1, baseIn);
    } else {
      AcceptedIs(es, q, baseIn);
      assert WrappedChoice(es, limit, AtAddress, q, baseIn, baseIn) <==>
        baseIn % Pow2(q.alignment) == 0 && Accepted(es, q, baseIn);
    }
  }

  /** One free entry holds both addresses. */
  ghost predicate HeldFree(es: seq<MapEntry>, q: Request, first: int, last: int) {
    exists k :: 0 <= k < |es| && Holds(es[k], first) && Holds(es[k], last) && IsFree(q, es[k].Space)
  }

  lemma AcceptedIs(es: seq<MapEntry>, q: Request, b: nat)
    requires q.length > 0 && b < 0x1_0000_0000_0000_0000 && q.length < 0x1_0000_0000_0000_0000
    requires b + q.length > 0x1_0000_0000_0000_0000
    ensures Accepted(es, q, b) <==> HeldFree(es, q, b, b + q.length - 1 - 0x1_0000_0000_0000_0000)
  {
    hide Usable, IsFree;
    forall r ensures Usable(q, r) <==> IsFree(q, r) { FreeIsUsable(q, r); }
    assert LastAddress(b, q.length) == b + q.length - 1 - 0x1_0000_0000_0000_0000;
  }

  /** For more than 2^63 bytes the search upwards goes by entries and takes the first one that is accepted:
      `max` is the address given, or the end of the space. */
  lemma LongAnswer(es: seq<MapEntry>, es': seq<MapEntry>, limit: nat, mode: Mode, q: Request, baseIn: nat,
                   imageHandle: nat, deviceHandle: nat, granted: bool, status: Status, base: nat)
    requires 0 < limit && Sound(mode, q, true, imageHandle) && q.length > 0x8000_0000_0000_0000
    requires mode.AnySearchBottomUp? || mode.MaxAddressSearchBottomUp?
    requires AllocateOutcome(es, es', limit, mode, q, true, baseIn, imageHandle, deviceHandle, granted, status, base)
    ensures var max: nat := if mode.MaxAddressSearchBottomUp? then baseIn else limit - 1;
            if forall b: nat :: !LongChoice(es, q, max, b) then status == EFI_NOT_FOUND
            else if !granted then status == EFI_OUT_OF_RESOURCES
            else status == EFI_SUCCESS && LongChoice(es, q, max, base)
  {
    hide LongChoice, AllocateOutcome, Pow2;
    var max: nat := if mode.MaxAddressSearchBottomUp? then baseIn else limit - 1;
    SoundPlaced(es, es', limit, mode, q, baseIn, imageHandle, deviceHandle, granted, status, base);
    if b: nat :| LongChoice(es, q, max, b) { assert WrappedChoice(es, limit, mode, q, baseIn, b); }
  }

  /** What an allocation that succeeds records: the handles given in its range, and nothing else. */
  lemma Recorded(es: seq<MapEntry>, es': seq<MapEntry>, limit: nat, mode: Mode, q: Request, baseIn: nat,
                 imageHandle: nat, deviceHandle: nat, granted: bool, base: nat)
    requires 0 < limit && Sound(mode, q, true, imageHandle)
    requires mode.AnySearchBottomUp? || mode.MaxAddressSearchBottomUp? ==> q.length <= 0x8000_0000_0000_0000
    requires mode.AtAddress? ==> baseIn + q.length <= 0x1_0000_0000_0000_0000
    requires AllocateOutcome(es, es', limit, mode, q, true, baseIn, imageHandle, deviceHandle, granted,
                             EFI_SUCCESS, base)
    ensures forall x :: base <= x < base + q.length && x < limit ==>
              var r, r' := RecordAt(es, x), RecordAt(es', x);
              && r'.ImageHandle == imageHandle && r'.DeviceHandle == deviceHandle
              && r'.Capabilities == r.Capabilities && r'.Attributes == r.Attributes
              && r'.GcdMemoryType == r.GcdMemoryType && r'.GcdIoType == r.GcdIoType
    ensures forall x :: 0 <= x < limit && !(base <= x < base + q.length) ==> RecordAt(es', x) == RecordAt(es, x)
  {
    hide Chosen, AllocateOutcome, MapInvariant, RecordAt, CarriedAt, Pow2;
    SoundPlaced(es, es', limit, mode, q, baseIn, imageHandle, deviceHandle, granted, EFI_SUCCESS, base);
  }
}
