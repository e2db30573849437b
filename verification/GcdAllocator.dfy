/** CoreAllocateSpace: the searches over the ring, and the allocation of what they find. */
module GcdAllocator {
  import opened Arithmetic
  import opened Efi
  import opened LinkedList
  import opened GcdEntries
  import opened GcdConversion
  import opened GcdSpec
  import opened GcdMap
  import opened GcdPlacement

  lemma CheckIsUsable(q: Request, r: SpaceRecord)
    ensures CheckEntry(q, r) == if Usable(q, r) then EFI_SUCCESS else EFI_NOT_FOUND
  {
  }

  /** The loop over the entries `i` to `j` that a candidate range touches, up to the first unusable one. */
  method FirstUnusable(m: Map, q: Request, startLink: Node, endLink: Node, ghost i: nat, ghost j: nat)
    returns (status: Status, subLink: Node, ghost n: nat)
    requires m.Linked() && i <= j < |m.Contents| && m.Links[i + 1] == startLink && m.Links[j + 1] == endLink
    ensures status == EFI_SUCCESS || status == EFI_NOT_FOUND
    ensures status == EFI_SUCCESS ==> forall k :: i <= k <= j ==> Usable(q, m.Contents[k].Space)
    ensures status == EFI_NOT_FOUND ==> i <= n <= j && !Usable(q, m.Contents[n].Space) && subLink == m.Links[n + 1]
  {
    hide Map.Linked, CheckEntry, Usable;
    m.LinkedSizes();
    subLink, n := startLink, i;
    while subLink != endLink.ForwardLink
      invariant i <= n <= j + 1 && subLink == m.Links[Succ(n, |m.Links|)]
      invariant forall k :: i <= k < n ==> Usable(q, m.Contents[k].Space)
      decreases j + 1 - n
    {
      assert n <= j by { m.Forward(j + 1); }
      m.EntryIs(n + 1, m.Contents[n]);
      CheckIsUsable(q, m.Contents[n].Space);
      status := CheckEntry(q, subLink.Payload.Space);
      if status != EFI_SUCCESS {
        return;
      }
      m.Forward(n + 1);
      subLink, n := subLink.ForwardLink, n + 1;
    }
    assert n == j + 1 by { m.Forward(j + 1); }
    status := EFI_SUCCESS;
  }

  /** What a search reports about a range it found: all its entries are usable. */
  ghost predicate FoundAt(m: Map, q: Request, base: nat, startLink: MaybeNode, endLink: MaybeNode, i: nat, j: nat)
    requires q.length > 0
    reads m
  {
    && Spans(m.Contents, base, LastAddress(base, q.length), i, j) && j + 1 < |m.Links|
    && startLink == m.Links[i + 1] && endLink == m.Links[j + 1]
    && forall k :: i <= k <= j ==> Usable(q, m.Contents[k].Space)
  }

  /** EfiGcdAllocateAddress: the range given, if it is aligned, in the space and free. */
  method FindAtAddress(m: Map, q: Request, base: nat)
    returns (found: bool, startLink: MaybeNode, endLink: MaybeNode, ghost i: nat, ghost j: nat)
    requires m.Linked() && MapInvariant(m.Contents, m.Limit)
    requires 0 < q.length < UINT64_RANGE && base < UINT64_RANGE
    ensures found ==> FoundAt(m, q, base, startLink, endLink, i, j)
    ensures base + q.length <= UINT64_RANGE ==> (found <==> Fits(m.Contents, m.Limit, q, m.Limit - 1, base))
    ensures base + q.length > UINT64_RANGE ==>
              (found <==> base % Pow2(q.alignment) == 0 && Accepted(m.Contents, q, base))
  {
    hide Map.Linked, Tiles, Canonical, Signed, HandlesPaired, Usable, FreeRange, Accepted;
    found, startLink, endLink, i, j := false, null, null, 0, 0;
    if base % Pow2(q.alignment) != 0 {
      return;
    }
    var status;
    status, startLink, endLink, i, j := m.SearchMapEntry(base, q.length);
    if status != EFI_SUCCESS {
      AtAddressOutside(m.Contents, m.Limit, q, base);
      return;
    }
    ghost var n;
    var subLink;
    status, subLink, n := FirstUnusable(m, q, startLink, endLink, i, j);
    found := status == EFI_SUCCESS;
    AtAddressDecided(m.Contents, m.Limit, q, base, i, j, found, n);
    if base + q.length > UINT64_RANGE { WrappedDecided(m.Contents, m.Limit, q, base, i, j, found, n); }
  }

  lemma AtAddressOutside(es: seq<MapEntry>, limit: nat, q: Request, base: nat)
    requires Tiles(es, 0, limit) && 0 < limit <= SPACE_MAX && q.length > 0
    requires forall i, j :: !Spans(es, base, LastAddress(base, q.length), i, j)
    ensures base + q.length <= UINT64_RANGE ==> !Fits(es, limit, q, limit - 1, base)
    ensures !Accepted(es, q, base)
  {
    if base + q.length <= limit {
      var i, j := SpansInside(es, limit, base, LastAddress(base, q.length));
    }
  }

  lemma AtAddressDecided(es: seq<MapEntry>, limit: nat, q: Request, base: nat, i: nat, j: nat, found: bool, n: nat)
    requires Tiles(es, 0, limit) && 0 < limit <= SPACE_MAX && q.length > 0 && base % Pow2(q.alignment) == 0
    requires Spans(es, base, LastAddress(base, q.length), i, j)
    requires found ==> forall k :: i <= k <= j ==> Usable(q, es[k].Space)
    requires !found ==> i <= n <= j && !Usable(q, es[n].Space)
    ensures base + q.length <= UINT64_RANGE ==> (found <==> Fits(es, limit, q, limit - 1, base))
  {
    hide Tiles, Usable, FreeRange;
    if base + q.length <= UINT64_RANGE {
      var last := LastAddress(base, q.length);
      SpansWithin(es, limit, base, last, i, j);
      if found {
        FreeEntries(es, limit, q, base, last, i, j);
      } else {
        TilesEntry(es, 0, limit, n);
        if i < n { TilesOrdered(es, 0, limit, i, n); }
        if n < j { TilesOrdered(es, 0, limit, n, j); }
        if FreeRange(es, q, base, base + q.length) {
          var from := if base <= es[n].BaseAddress then es[n].BaseAddress else base;
          FreeEntry(es, limit, q, n, from, base, base + q.length);
        }
      }
    }
  }

  lemma WrappedDecided(es: seq<MapEntry>, limit: nat, q: Request, base: nat, i: nat, j: nat, found: bool, n: nat)
    requires Tiles(es, 0, limit) && q.length > 0 && base < UINT64_RANGE && q.length < UINT64_RANGE
    requires base + q.length > UINT64_RANGE && Spans(es, base, LastAddress(base, q.length), i, j)
    requires found ==> forall k :: i <= k <= j ==> Usable(q, es[k].Space)
    requires !found ==> i <= n <= j && !Usable(q, es[n].Space)
    ensures i == j && (found <==> Accepted(es, q, base)) && (!found <==> Refused(es, q, base))
  {
    hide Tiles, Usable;
    SpansWithin(es, limit, base, LastAddress(base, q.length), i, j);
    if Accepted(es, q, base) { AcceptedNotRefused(es, limit, q, base); }
  }

  /** The bottom-up searches. */
  method FindBottomUp(m: Map, q: Request, max: nat)
    returns (found: bool, base: nat, startLink: MaybeNode, endLink: MaybeNode, ghost i: nat, ghost j: nat)
    requires m.Linked() && MapInvariant(m.Contents, m.Limit)
    requires 0 < q.length < UINT64_RANGE && q.alignment < 64
    ensures base < UINT64_RANGE && (found ==> FoundAt(m, q, base, startLink, endLink, i, j))
    ensures q.length <= SPACE_MAX && found ==>
              Fits(m.Contents, m.Limit, q, max, base) && NoneBelow(m.Contents, m.Limit, q, max, base)
    ensures q.length <= SPACE_MAX && !found ==> forall b: nat :: !Fits(m.Contents, m.Limit, q, max, b)
    ensures q.length > SPACE_MAX && found ==> LongChoice(m.Contents, q, max, base)
    ensures q.length > SPACE_MAX && !found ==> forall b: nat :: !LongChoice(m.Contents, q, max, b)
  {
    hide Map.Linked, Tiles, Canonical, Signed, HandlesPaired, Usable, FreeRange, NoneBelow, Fits, CheckEntry, RoundUp,
         RoundDown, FoundAt, LongChoice, AllPassedOver;
    ghost var es, limit := m.Contents, m.Limit;
    found, base, startLink, endLink, i, j := false, 0, null, null, 0, 0;
    m.LinkedSizes();
    m.AtHead(0);
    m.Forward(0);
    var link := m.Head.ForwardLink;
    ghost var k := 0;
    BottomUpStart(es, limit, q, max);
    while link != m.Head
      invariant 0 <= k <= |es| && link == m.Links[Succ(k, |m.Links|)]
      invariant !found && base < UINT64_RANGE
      invariant q.length <= SPACE_MAX ==> NoneBelow(es, limit, q, max, Start(es, k, limit))
      invariant q.length > SPACE_MAX ==> AllPassedOver(es, q, max, k)
      decreases |es| - k
    {
      assert k < |es| by { m.AtHead(0); }
      m.EntryIs(k + 1, es[k]);
      var entry := link.Payload;
      m.Forward(k + 1);
      link := link.ForwardLink;
      CheckIsUsable(q, entry.Space);
      if CheckEntry(q, entry.Space) != EFI_SUCCESS {
        if q.length <= SPACE_MAX { BottomUpSkip(es, limit, q, max, k); } else { LongSkip(es, q, max, k); }
        k := k + 1;
        continue;
      }
      base := AlignBase(entry.BaseAddress, q.alignment, es, limit, k);
      if q.length <= SPACE_MAX { BottomUpAlign(es, limit, q, max, es[k].BaseAddress); }
      if LastAddress(base, q.length) > max {
        if q.length <= SPACE_MAX {
          BottomUpNowhere(es, limit, q, max, base);
        } else {
          LongTooHigh(es, limit, q, max, k);
        }
        return;
      }
      var status;
      status, startLink, endLink, i, j := m.SearchMapEntry(base, q.length);
      if status != EFI_SUCCESS {
        BottomUpOutside(es, limit, q, max, base);
        if q.length > SPACE_MAX { LongUnspanned(es, limit, q, max, k); }
        return;
      }
      ghost var n;
      status, link, n := FirstUnusable(m, q, startLink, endLink, i, j);
      if status == EFI_SUCCESS {
        found := true;
        FoundIs(m, q, base, startLink, endLink, i, j);
        BottomUpFound(es, limit, q, max, base, i, j);
        if q.length > SPACE_MAX { LongFound(es, limit, q, max, k, base, i, j); }
        return;
      }
      BottomUpBlocked(es, limit, q, max, k, base, i, j, n);
      if q.length > SPACE_MAX { LongBlocked(es, limit, q, max, k, base, i, j, n); }
      k := n;
    }
    m.AtHead(Succ(k, |m.Links|));
    if q.length <= SPACE_MAX {
      BottomUpNowhere(es, limit, q, max, limit);
    } else {
      LongNowhere(es, limit, q, max, |es|);
    }
  }

  lemma LongSkip(es: seq<MapEntry>, q: Request, max: nat, k: nat)
    requires q.length > 0 && k < |es| && AllPassedOver(es, q, max, k) && !Usable(q, es[k].Space)
    ensures AllPassedOver(es, q, max, k + 1)
  {
    hide Usable;
  }

  lemma LongTooHigh(es: seq<MapEntry>, limit: nat, q: Request, max: nat, k: nat)
    requires Tiles(es, 0, limit) && q.length > 0 && k < |es| && AllPassedOver(es, q, max, k)
    requires Usable(q, es[k].Space) && LastAddress(FirstAligned(es[k], q), q.length) > max
    ensures forall b: nat :: !LongChoice(es, q, max, b)
  {
    hide Tiles, Usable, AllPassedOver, FirstAligned, LastAddress, LongChoice, Accepted, Refused;
    LongNowhere(es, limit, q, max, k);
  }

  lemma LongUnspanned(es: seq<MapEntry>, limit: nat, q: Request, max: nat, k: nat)
    requires Tiles(es, 0, limit) && q.length > 0 && k < |es| && AllPassedOver(es, q, max, k) && Usable(q, es[k].Space)
    requires forall i, j :: !Spans(es, FirstAligned(es[k], q), LastAddress(FirstAligned(es[k], q), q.length), i, j)
    ensures forall b: nat :: !LongChoice(es, q, max, b)
  {
    hide Tiles, Usable, AllPassedOver, FirstAligned, LastAddress, LongChoice, Spans;
    LongNowhere(es, limit, q, max, k);
  }

  lemma LongFound(es: seq<MapEntry>, limit: nat, q: Request, max: nat, k: nat, base: nat, i: nat, j: nat)
    requires MapInvariant(es, limit) && SPACE_MAX < q.length < UINT64_RANGE && base < UINT64_RANGE
    requires k < |es| && AllPassedOver(es, q, max, k) && Usable(q, es[k].Space) && base == FirstAligned(es[k], q)
    requires LastAddress(base, q.length) <= max && Spans(es, base, LastAddress(base, q.length), i, j)
    requires forall m :: i <= m <= j ==> Usable(q, es[m].Space)
    ensures LongChoice(es, q, max, base)
  {
    hide Tiles, Canonical, Signed, HandlesPaired, Usable, AllPassedOver, FirstAligned;
    LongSpans(es, limit, base, q.length, i, j);
    assert LongChoiceAt(es, q, max, base, k);
  }

  lemma LongBlocked(es: seq<MapEntry>, limit: nat, q: Request, max: nat, k: nat, base: nat, i: nat, j: nat, n: nat)
    requires MapInvariant(es, limit) && SPACE_MAX < q.length < UINT64_RANGE && base < UINT64_RANGE
    requires k < n < |es| && AllPassedOver(es, q, max, k) && base == FirstAligned(es[k], q)
    requires LastAddress(base, q.length) <= max && Spans(es, base, LastAddress(base, q.length), i, j)
    requires i <= n <= j && !Usable(q, es[n].Space)
    ensures AllPassedOver(es, q, max, n)
  {
    hide Tiles, Canonical, Signed, HandlesPaired, Usable, AllPassedOver, FirstAligned, LastAddress;
    LongSpans(es, limit, base, q.length, i, j);
    LongJump(es, limit, q, max, k, n);
  }

  /** (Entry->BaseAddress + AlignmentMask) & ~AlignmentMask in 64 bits, for entry `k` of a map. */
  method AlignBase(address: nat, alignment: nat, ghost es: seq<MapEntry>, ghost limit: nat,
                   ghost k: nat) returns (base: nat)
    requires MapInvariant(es, limit) && k < |es| && es[k].BaseAddress == address && alignment < 64
    ensures base == RoundUp(address, Pow2(alignment)) && address <= base <= SPACE_MAX && base % Pow2(alignment) == 0
  {
    hide Tiles, Canonical, Signed, HandlesPaired, RoundUp;
    TilesEntry(es, 0, limit, k);
    AlignedInRange(address, alignment);
    var alignmentMask := Pow2(alignment) - 1;
    base := RoundDown((address + alignmentMask) % UINT64_RANGE, alignmentMask + 1);
    RoundUpAsMask(address, Pow2(alignment));
    RoundUpIs(address, Pow2(alignment));
  }

  lemma RoundUpAsMask(x: nat, p: nat)
    requires p > 0
    ensures RoundUp(x, p) == RoundDown(x + (p - 1), p)
  {
  }

  lemma FoundIs(m: Map, q: Request, base: nat, startLink: MaybeNode, endLink: MaybeNode, i: nat, j: nat)
    requires q.length > 0 && Spans(m.Contents, base, LastAddress(base, q.length), i, j) && j + 1 < |m.Links|
    requires startLink == m.Links[i + 1] && endLink == m.Links[j + 1]
    requires forall k :: i <= k <= j ==> Usable(q, m.Contents[k].Space)
    ensures FoundAt(m, q, base, startLink, endLink, i, j)
  {
  }

  lemma BottomUpStart(es: seq<MapEntry>, limit: nat, q: Request, max: nat)
    requires MapInvariant(es, limit)
    ensures NoneBelow(es, limit, q, max, Start(es, 0, limit))
    ensures q.length > 0 ==> AllPassedOver(es, q, max, 0)
  {
    TilesEntry(es, 0, limit, 0);
  }

  lemma BottomUpOutside(es: seq<MapEntry>, limit: nat, q: Request, max: nat, base: nat)
    requires MapInvariant(es, limit) && q.length > 0 && base <= SPACE_MAX
    requires forall i, j :: !Spans(es, base, LastAddress(base, q.length), i, j)
    ensures q.length <= SPACE_MAX && NoneBelow(es, limit, q, max, base) ==> forall b: nat :: !Fits(es, limit, q, max, b)
  {
    hide Tiles, Canonical, Signed, HandlesPaired, NoneBelow, Fits;
    if q.length <= SPACE_MAX && NoneBelow(es, limit, q, max, base) {
      if base + q.length <= limit {
        var i, j := SpansInside(es, limit, base, LastAddress(base, q.length));
      } else {
        BottomUpNowhere(es, limit, q, max, base);
      }
    }
  }

  lemma BottomUpFound(es: seq<MapEntry>, limit: nat, q: Request, max: nat, base: nat, i: nat, j: nat)
    requires MapInvariant(es, limit) && q.length > 0 && base <= SPACE_MAX && base % Pow2(q.alignment) == 0
    requires Spans(es, base, LastAddress(base, q.length), i, j) && LastAddress(base, q.length) <= max
    requires forall k :: i <= k <= j ==> Usable(q, es[k].Space)
    ensures q.length <= SPACE_MAX ==> Fits(es, limit, q, max, base)
  {
    hide Tiles, Canonical, Signed, HandlesPaired, Usable, FreeRange, Pow2;
    if q.length <= SPACE_MAX {
      var last := base + q.length - 1;
      assert LastAddress(base, q.length) == last;
      FreeEntries(es, limit, q, base, last, i, j);
      SpansWithin(es, limit, base, last, i, j);
    }
  }

  /** The search moves on to the entry in the way, which is further up. */
  lemma BottomUpBlocked(es: seq<MapEntry>, limit: nat, q: Request, max: nat, k: nat, base: nat, i: nat, j: nat, n: nat)
    requires MapInvariant(es, limit) && q.length > 0 && k < |es| && es[k].BaseAddress <= base <= SPACE_MAX
    requires Spans(es, base, LastAddress(base, q.length), i, j) && i <= n <= j
    requires Usable(q, es[k].Space) && !Usable(q, es[n].Space)
    ensures k < n
    ensures q.length <= SPACE_MAX && NoneBelow(es, limit, q, max, base) ==>
              NoneBelow(es, limit, q, max, es[n].BaseAddress)
  {
    hide Tiles, Canonical, Signed, HandlesPaired, Usable, NoneBelow;
    if i < k { TilesOrdered(es, 0, limit, i, k); }
    if q.length <= SPACE_MAX && NoneBelow(es, limit, q, max, base) {
      BottomUpJump(es, limit, q, max, base, i, j, n);
    }
  }

  /** The top-down searches.  They find the highest of the ranges they consider, for any length. */
  method FindTopDown(m: Map, q: Request, max: nat)
    returns (found: bool, base: nat, startLink: MaybeNode, endLink: MaybeNode, ghost i: nat, ghost j: nat)
    requires m.Linked() && MapInvariant(m.Contents, m.Limit)
    requires 0 < q.length < UINT64_RANGE && q.alignment < 64
    ensures base < UINT64_RANGE && (found ==> FoundAt(m, q, base, startLink, endLink, i, j))
    ensures found ==> FitsTopDown(m.Contents, m.Limit, q, max, base)
    ensures found ==> forall b: nat :: FitsTopDown(m.Contents, m.Limit, q, max, b) ==> b <= base
    ensures !found ==> forall b: nat :: !FitsTopDown(m.Contents, m.Limit, q, max, b)
  {
    hide Map.Linked, Tiles, Canonical, Signed, HandlesPaired, Usable, FitsTopDown, NoneAbove, CheckEntry, RoundDown,
         FoundAt, TopDownBase;
    ghost var es, limit := m.Contents, m.Limit;
    found, base, startLink, endLink, i, j := false, 0, null, null, 0, 0;
    m.LinkedSizes();
    m.AtHead(0);
    m.Backward(0);
    var link := m.Head.BackLink;
    ghost var n := |es|;
    NoneAboveLimit(es, limit, q, max);
    while link != m.Head
      invariant 0 <= n <= |es| && link == m.Links[n]
      invariant !found && base < UINT64_RANGE
      invariant NoneAbove(es, limit, q, max, Start(es, n, limit))
      decreases n
    {
      assert n > 0 by { m.AtHead(0); }
      m.EntryIs(n, es[n - 1]);
      var entry := link.Payload;
      m.Backward(n);
      link := link.BackLink;
      CheckIsUsable(q, entry.Space);
      if CheckEntry(q, entry.Space) != EFI_SUCCESS {
        TopDownSkip(es, limit, q, max, n - 1);
        n := n - 1;
        continue;
      }
      if (entry.BaseAddress + q.length) % UINT64_RANGE > max {
        TopDownTooHigh(es, limit, q, max, n - 1);
        n := n - 1;
        continue;
      }
      if q.length > entry.EndAddress + 1 {
        TopDownTooLong(es, limit, q, max, n - 1);
        return;
      }
      NoWrapTopDown(es, limit, q, max, n - 1);
      base := if entry.EndAddress > max then max else entry.EndAddress;
      base := RoundDown(base + 1 - q.length, Pow2(q.alignment));
      TopDownBaseIs(es, limit, q, max, n - 1, base);
      var status;
      status, startLink, endLink, i, j := m.SearchMapEntry(base, q.length);
      if status != EFI_SUCCESS {
        UnspannedOutside(es, limit, base, LastAddress(base, q.length));
        assert false;
        return;
      }
      ghost var u;
      status, link, u := FirstUnusable(m, q, startLink, endLink, i, j);
      if status == EFI_SUCCESS {
        found := true;
        FoundIs(m, q, base, startLink, endLink, i, j);
        TopDownBest(es, limit, q, max, n - 1, base, i, j);
        return;
      }
      TopDownBlocked(es, limit, q, max, n - 1, base, i, j, u);
      n := u + 1;
    }
    m.AtHead(n);
    TopDownNowhere(es, limit, q, max);
  }

  lemma TopDownTooHigh(es: seq<MapEntry>, limit: nat, q: Request, max: nat, k: nat)
    requires MapInvariant(es, limit) && k < |es| && 0 < q.length < UINT64_RANGE
    requires NoneAbove(es, limit, q, max, Start(es, k + 1, limit))
    requires (es[k].BaseAddress + q.length) % UINT64_RANGE > max
    ensures NoneAbove(es, limit, q, max, es[k].BaseAddress)
  {
    hide Tiles, Canonical, Signed, HandlesPaired, NoneAbove;
    TilesEntry(es, 0, limit, k);
    TopDownSkip(es, limit, q, max, k);
  }

  /** A length that reaches past the start of the space from the end of the entry fits nowhere below. */
  lemma TopDownTooLong(es: seq<MapEntry>, limit: nat, q: Request, max: nat, k: nat)
    requires MapInvariant(es, limit) && k < |es|
    requires NoneAbove(es, limit, q, max, Start(es, k + 1, limit)) && q.length > es[k].EndAddress + 1
    ensures forall b: nat :: !FitsTopDown(es, limit, q, max, b)
  {
    hide Tiles, Canonical, Signed, HandlesPaired, FitsTopDown;
    TilesEntry(es, 0, limit, k);
  }

  /** Once the length is known to reach no further down than address 0, nothing has wrapped around. */
  lemma NoWrapTopDown(es: seq<MapEntry>, limit: nat, q: Request, max: nat, k: nat)
    requires MapInvariant(es, limit) && k < |es|
    requires q.length <= es[k].EndAddress + 1 && (es[k].BaseAddress + q.length) % UINT64_RANGE <= max
    ensures es[k].BaseAddress + q.length <= max && es[k].EndAddress < SPACE_MAX
  {
    hide Tiles, Canonical, Signed, HandlesPaired;
    TilesEntry(es, 0, limit, k);
  }

  lemma TopDownBaseIs(es: seq<MapEntry>, limit: nat, q: Request, max: nat, k: nat, base: nat)
    requires MapInvariant(es, limit) && k < |es| && q.length > 0
    requires q.length <= es[k].EndAddress + 1 && es[k].BaseAddress + q.length <= max
    requires base == RoundDown((if es[k].EndAddress > max then max else es[k].EndAddress) + 1 - q.length,
                               Pow2(q.alignment))
    ensures base == TopDownBase(es[k], q, max)
    ensures base + q.length - 1 <= es[k].EndAddress < limit && LastAddress(base, q.length) == base + q.length - 1
  {
    hide Tiles, Canonical, Signed, HandlesPaired;
    TilesEntry(es, 0, limit, k);
    RoundDownIs((if es[k].EndAddress > max then max else es[k].EndAddress) + 1 - q.length, Pow2(q.alignment));
  }

  /** A range no two entries span does not lie in the space. */
  lemma UnspannedOutside(es: seq<MapEntry>, limit: nat, base: nat, end: nat)
    requires Tiles(es, 0, limit) && base <= end && forall i, j :: !Spans(es, base, end, i, j)
    ensures end >= limit
  {
    if end < limit {
      var i, j := SpansInside(es, limit, base, end);
    }
  }

  lemma TopDownBest(es: seq<MapEntry>, limit: nat, q: Request, max: nat, k: nat, base: nat, i: nat, j: nat)
    requires MapInvariant(es, limit) && k < |es| && q.length > 0
    requires NoneAbove(es, limit, q, max, Start(es, k + 1, limit))
    requires q.length <= es[k].EndAddress + 1 && es[k].BaseAddress + q.length <= max
    requires base == TopDownBase(es[k], q, max) && LastAddress(base, q.length) == base + q.length - 1
    requires Spans(es, base, LastAddress(base, q.length), i, j)
    requires forall m :: i <= m <= j ==> Usable(q, es[m].Space)
    ensures FitsTopDown(es, limit, q, max, base)
    ensures forall b: nat :: FitsTopDown(es, limit, q, max, b) ==> b <= base
  {
    hide Tiles, Canonical, Signed, HandlesPaired, Usable, FitsTopDown, NoneAbove, TopDownBase;
    TopDownFound(es, limit, q, max, k, base, i, j);
    forall b: nat | FitsTopDown(es, limit, q, max, b) ensures b <= base {
      TopDownCandidate(es, limit, q, max, k, b);
    }
  }

  /** The search moves on to the entry in the way, which is further down. */
  lemma TopDownBlocked(es: seq<MapEntry>, limit: nat, q: Request, max: nat, k: nat, base: nat, i: nat, j: nat, u: nat)
    requires MapInvariant(es, limit) && k < |es| && q.length > 0
    requires NoneAbove(es, limit, q, max, Start(es, k + 1, limit))
    requires q.length <= es[k].EndAddress + 1 && es[k].BaseAddress + q.length <= max
    requires base == TopDownBase(es[k], q, max) && base + q.length - 1 <= es[k].EndAddress
    requires LastAddress(base, q.length) == base + q.length - 1
    requires Spans(es, base, LastAddress(base, q.length), i, j) && i <= u <= j
    requires Usable(q, es[k].Space) && !Usable(q, es[u].Space)
    ensures u < k && NoneAbove(es, limit, q, max, Start(es, u + 1, limit))
  {
    hide Tiles, Canonical, Signed, HandlesPaired, Usable, TopDownBase;
    TilesEntry(es, 0, limit, k);
    TilesEntry(es, 0, limit, u);
    if k < j { TilesOrdered(es, 0, limit, k, j); }
    TopDownJump(es, limit, q, max, k, base, i, j, u);
  }

  lemma TopDownNowhere(es: seq<MapEntry>, limit: nat, q: Request, max: nat)
    requires MapInvariant(es, limit) && q.length > 0 && NoneAbove(es, limit, q, max, Start(es, 0, limit))
    ensures forall b: nat :: !FitsTopDown(es, limit, q, max, b)
  {
    hide FitsTopDown;
    TilesEntry(es, 0, limit, 0);
  }

  /** The search of the given mode, and its result in terms of the mode's choice. */
  method FindSpace(m: Map, mode: Mode, q: Request, baseIn: nat)
    returns (found: bool, base: nat, startLink: MaybeNode, endLink: MaybeNode, ghost i: nat, ghost j: nat)
    requires m.Linked() && MapInvariant(m.Contents, m.Limit)
    requires 0 < q.length < UINT64_RANGE && q.alignment < 64 && baseIn < UINT64_RANGE && !mode.UnknownMode?
    ensures base < UINT64_RANGE && (found ==> FoundAt(m, q, base, startLink, endLink, i, j))
    ensures Ranged(mode, q, baseIn) && found ==> Chosen(m.Contents, m.Limit, mode, q, baseIn, base)
    ensures Ranged(mode, q, baseIn) && !found ==> forall b: nat :: !Chosen(m.Contents, m.Limit, mode, q, baseIn, b)
    ensures !Ranged(mode, q, baseIn) && found ==> WrappedChoice(m.Contents, m.Limit, mode, q, baseIn, base)
    ensures !Ranged(mode, q, baseIn) && !found ==>
              forall b: nat :: !WrappedChoice(m.Contents, m.Limit, mode, q, baseIn, b)
  {
    hide Map.Linked, Tiles, Canonical, Signed, HandlesPaired, Usable, Fits, FitsTopDown, FoundAt;
    if mode.AtAddress? {
      base := baseIn;
      found, startLink, endLink, i, j := FindAtAddress(m, q, base);
      return;
    }
    var max := baseIn;
    if !mode.MaxAddressSearchBottomUp? && !mode.MaxAddressSearchTopDown? {
      max := LastEntryEnd(m);
    }
    if mode.MaxAddressSearchTopDown? || mode.AnySearchTopDown? {
      found, base, startLink, endLink, i, j := FindTopDown(m, q, max);
    } else {
      found, base, startLink, endLink, i, j := FindBottomUp(m, q, max);
    }
  }

  /** The end of the last entry, which is the end of the space. */
  method LastEntryEnd(m: Map) returns (end: nat)
    requires m.Linked() && MapInvariant(m.Contents, m.Limit)
    ensures end == m.Limit - 1
  {
    hide Map.Linked, Canonical, Signed, HandlesPaired;
    m.LinkedSizes();
    m.AtHead(0);
    m.Backward(0);
    m.EntryIs(|m.Contents|, m.Contents[|m.Contents| - 1]);
    end := m.Head.BackLink.Payload.EndAddress;
  }

  /** CoreAllocateSpace.  `baseIn` is what BaseAddress points to, if it is not NULL, and `base` what it
      points to afterwards; `topOk` and `bottomOk` are the outcomes of the pool allocations. */
  method AllocateSpace(m: Map, mode: Mode, q: Request, baseIn: Option<nat>, imageHandle: nat, deviceHandle: nat,
                       topOk: bool, bottomOk: bool)
    returns (status: Status, base: nat)
    requires m.Valid() && MapInvariant(m.Contents, m.Limit)
    requires q.length < UINT64_RANGE && (baseIn.Some? ==> baseIn.value < UINT64_RANGE)
    modifies m, m.Repr
    ensures m.Valid() && m.Limit == old(m.Limit) && fresh(m.Repr - old(m.Repr))
    ensures AllocateOutcome(old(m.Contents), m.Contents, m.Limit, mode, q, baseIn.Some?,
                            if baseIn.Some? then baseIn.value else 0,
                            imageHandle, deviceHandle, topOk && bottomOk, status, base)
    ensures status != EFI_SUCCESS ==> m.Links == old(m.Links)
  {
    hide Map.Linked, Tiles, Canonical, Signed, HandlesPaired, Usable, Placed, Ranged, Chosen, PlacementOutcome;
    base := if baseIn.Some? then baseIn.value else 0;
    if mode.UnknownMode? { return EFI_INVALID_PARAMETER, base; }
    if !(0 <= q.memoryType < MEMORY_TYPE_MAXIMUM) { return EFI_INVALID_PARAMETER, base; }
    if !(0 <= q.ioType < IO_TYPE_MAXIMUM) { return EFI_INVALID_PARAMETER, base; }
    if baseIn.None? { return EFI_INVALID_PARAMETER, base; }
    if imageHandle == 0 { return EFI_INVALID_PARAMETER, base; }
    if q.alignment >= 64 { return EFI_NOT_FOUND, base; }
    if q.length == 0 { return EFI_INVALID_PARAMETER, base; }
    status, base := AllocateChecked(m, mode, q, baseIn.value, imageHandle, deviceHandle, topOk, bottomOk);
  }

  /** CoreAllocateSpace on valid parameters: the part under the lock. */
  method AllocateChecked(m: Map, mode: Mode, q: Request, baseIn: nat, imageHandle: nat, deviceHandle: nat,
                         topOk: bool, bottomOk: bool)
    returns (status: Status, base: nat)
    requires m.Valid() && MapInvariant(m.Contents, m.Limit)
    requires ParameterStatus(mode, q, true, imageHandle) == EFI_SUCCESS
    requires 0 < q.length < UINT64_RANGE && baseIn < UINT64_RANGE
    modifies m, m.Repr
    ensures m.Valid() && m.Limit == old(m.Limit) && fresh(m.Repr - old(m.Repr))
    ensures AllocateOutcome(old(m.Contents), m.Contents, m.Limit, mode, q, true, baseIn,
                            imageHandle, deviceHandle, topOk && bottomOk, status, base)
    ensures status != EFI_SUCCESS ==> m.Links == old(m.Links)
  {
    hide Map.Linked, Map.PoolIs, Tiles, Canonical, Signed, HandlesPaired, Usable, AllocateOutcome, Ranged, Chosen,
         After;
    ghost var es := m.Contents;
    m.AcquireLock();
    var found, startLink, endLink;
    ghost var i, j;
    found, base, startLink, endLink, i, j := FindSpace(m, mode, q, baseIn);
    if !found {
      OutcomeNotFound(es, m.Limit, mode, q, baseIn, imageHandle, deviceHandle, topOk && bottomOk, base);
      m.ReleaseLock();
      return EFI_NOT_FOUND, base;
    }
    var c := Allocate(imageHandle, deviceHandle);
    status := m.AllocateAndApply(c, base, q.length, startLink, endLink, topOk, bottomOk, Absent, i, j);
    OutcomeFound(es, m.Contents, m.Limit, mode, q, baseIn, imageHandle, deviceHandle, topOk && bottomOk, status, base);
    m.ReleaseLock();
  }
}
