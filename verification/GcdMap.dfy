/** The GCD map itself: entries in the ring of LinkedList.c, split, updated, merged and freed in
    place by the functions of Gcd.c. */
module GcdMap {
  import opened Arithmetic
  import opened Efi
  import opened LinkedList
  import opened GcdEntries
  import opened GcdConversion
  import opened GcdSpec

  type Node = ListEntry<MapEntry>
  type MaybeNode = ListEntry?<MapEntry>

  const ZERO_ENTRY := MapEntry(0, 0, 0, NOTHING)

  /** The nodes of a ring, head excluded, carry the entries of a list. */
  ghost predicate Carries(links: seq<Node>, contents: seq<MapEntry>)
    reads links`Payload
  {
    && |links| == |contents| + 1
    && forall i {:trigger links[i].Payload} :: 1 <= i < |links| ==> links[i].Payload == contents[i - 1]
  }

  lemma CarriesInsert(links: seq<Node>, contents: seq<MapEntry>, k: nat, n: Node)
    requires Carries(links, contents) && 1 <= k <= |links|
    ensures Carries(InsertAt(links, k, n), InsertAt(contents, k - 1, n.Payload))
  {
  }

  lemma CarriesRemove(links: seq<Node>, contents: seq<MapEntry>, k: nat)
    requires Carries(links, contents) && 1 <= k < |links|
    ensures Carries(RemoveAt(links, k), RemoveAt(contents, k - 1))
  {
  }

  lemma MergeNone(p: seq<MapEntry>, q: seq<MapEntry>)
    ensures MergeFirst(p, q, 0) == p
  {
  }

  lemma MergeNext(p: seq<MapEntry>, q: seq<MapEntry>, t: nat)
    requires t < |q|
    ensures MergeFirst(p, q, t + 1) == AppendMerged(MergeFirst(p, q, t), q[t])
  {
  }

  lemma AppendAssociates<T>(p: seq<T>, q: seq<T>, r: seq<T>)
    ensures p + (q + r) == p + q + r
  {
  }

  lemma SpliceBelow<T>(p: seq<T>, e: T, r: seq<T>, e': T, b: T)
    ensures InsertAt((p + [e] + r)[|p| := e'], |p|, b) == (p + [b]) + [e'] + r
  {
  }

  lemma SpliceAbove<T>(p: seq<T>, e: T, r: seq<T>, e': T, a: T)
    ensures InsertAt((p + [e] + r)[|p| := e'], |p| + 1, a) == p + [e'] + ([a] + r)
  {
  }

  /** Merging `e` with the entry before it leaves what AppendMerged says. */
  lemma SpliceMergeBack(p: seq<MapEntry>, e: MapEntry, r: seq<MapEntry>)
    requires p != [] && p[|p| - 1].Space == e.Space
    ensures RemoveAt((p + [e] + r)[|p| := e.(BaseAddress := p[|p| - 1].BaseAddress)], |p| - 1) == AppendMerged(p, e) + r
    ensures |AppendMerged(p, e)| == |p|
  {
  }

  /** Merging `e` with the entry after it, too. */
  lemma SpliceMergeForward(p: seq<MapEntry>, e: MapEntry, r: seq<MapEntry>)
    requires r != [] && e.Space == r[0].Space && e.Signature == r[0].Signature
    ensures RemoveAt((p + [e] + r)[|p| := e.(EndAddress := r[0].EndAddress)], |p| + 1) ==
              AppendMerged(p + [e], r[0]) + r[1..]
  {
  }

  class Map {
    const Head: Node
    var Locked: bool
    /** The ring, from the head on. */
    ghost var Links: seq<Node>
    /** The entries, in order: entry `i` is the payload of link `i + 1`. */
    ghost var Contents: seq<MapEntry>
    /** The pool blocks that are allocated and not yet freed. */
    ghost var Pool: set<Node>
    /** The objects the map is made of. */
    ghost var Repr: set<Node>
    /** The size of the space the map describes. */
    ghost var Limit: nat

    ghost predicate Linked()
      reads this`Links, this`Contents, this`Repr, Repr
    {
      && (forall i :: 0 <= i < |Links| ==> Links[i] in Repr)
      && Ring(Links) && Links[0] == Head
      && |Links| == |Contents| + 1 && Carries(Links, Contents)
      && Signed(Contents)
    }

    /** The live pool blocks are the nodes of the ring, head excluded, and `spare`. */
    ghost predicate PoolIs(spare: set<Node>)
      reads this`Pool, this`Links
    {
      && (forall n :: n in Pool ==> (n in Links && n != Head) || n in spare)
      && (forall n :: n in Links && n != Head ==> n in Pool)
      && spare <= Pool && Head !in Pool
    }

    /** Every pool block is in the list, and everything in the list is a live pool block. */
    ghost predicate Valid()
      reads this, Repr
    {
      Linked() && PoolIs({}) && !Locked
    }

    /** INITIALIZE_LIST_HEAD_VARIABLE: an empty list. */
    constructor ()
      ensures Linked() && PoolIs({}) && !Locked && Links == [Head] && Contents == [] && fresh(Repr)
    {
      var head := new ListEntry(ZERO_ENTRY);
      Head := head;
      Locked := false;
      new;
      var _ := InitializeListHead(head);
      Links, Contents, Pool, Repr := [head], [], {}, {head};
    }

    /** CoreInitializeGcdServices, for one of the two spaces: one entry that covers the space. */
    method Initialize(sizeOfSpace: nat, template: SpaceRecord)
      requires Valid() && Contents == [] && sizeOfSpace < 64
      modifies this, Repr
      ensures Valid() && fresh(Repr - old(Repr))
      ensures Limit == Pow2(sizeOfSpace)
      ensures Contents == [MapEntry(GCD_MAP_SIGNATURE, 0, Limit - 1, template)]
    {
      var entry := new ListEntry(MapEntry(GCD_MAP_SIGNATURE, 0, 0, template));
      Pool, Repr, Limit := Pool + {entry}, Repr + {entry}, Pow2(sizeOfSpace);
      entry.Payload := entry.Payload.(EndAddress := Pow2(sizeOfSpace) - 1);
      JoinAfter(Head, entry, 0, {entry});
      assert Links == [Head, entry];
    }

    /** Writes the record of the entry at `link`. */
    method SetEntry(link: Node, e: MapEntry, ghost k: nat)
      requires Linked() && 1 <= k < |Links| && Links[k] == link && e.Signature == GCD_MAP_SIGNATURE
      modifies this`Contents, link`Payload
      ensures Linked() && link.Payload == e && Contents == old(Contents)[k - 1 := e]
    {
      link.Payload := e;
      Contents := Contents[k - 1 := e];
    }

    /** InsertHeadList of a record into the list, after `link`. */
    method JoinAfter(link: Node, n: Node, ghost k: nat, ghost spare: set<Node>)
      requires n in spare && PoolIs(spare)
      requires Linked() && k < |Links| && Links[k] == link
      requires n !in Links && n in Repr && n.Payload.Signature == GCD_MAP_SIGNATURE
      modifies this`Links, this`Contents, Repr`ForwardLink, Repr`BackLink
      ensures Linked()
      ensures Links == InsertAt(old(Links), k + 1, n) && Contents == InsertAt(old(Contents), k, n.Payload)
      ensures PoolIs(spare - {n}) && n in Links
    {
      hide Ring, Distinct, Carries;
      MembersAfterInsert(Links, k + 1, n);
      var _ := InsertHeadList(link, n, Links, k);
      CarriesInsert(Links, Contents, k + 1, n);
      Links, Contents := InsertAt(Links, k + 1, n), InsertAt(Contents, k, n.Payload);
    }

    /** InsertTailList of a record into the list, before `link`. */
    method JoinBefore(link: Node, n: Node, ghost k: nat, ghost spare: set<Node>)
      requires n in spare && PoolIs(spare)
      requires Linked() && 1 <= k < |Links| && Links[k] == link
      requires n !in Links && n in Repr && n.Payload.Signature == GCD_MAP_SIGNATURE
      modifies this`Links, this`Contents, Repr`ForwardLink, Repr`BackLink
      ensures Linked()
      ensures Links == InsertAt(old(Links), k, n) && Contents == InsertAt(old(Contents), k - 1, n.Payload)
      ensures PoolIs(spare - {n}) && n in Links
    {
      hide Ring, Distinct, Carries;
      MembersAfterInsert(Links, k, n);
      var _ := InsertTailList(link, n, Links, k);
      CarriesInsert(Links, Contents, k, n);
      Links, Contents := InsertAt(Links, k, n), InsertAt(Contents, k - 1, n.Payload);
    }

    /** The first half of CoreInsertGcdMapEntry: what `link` holds below `base` becomes an entry. */
    method InsertBelow(link: Node, base: nat, bottom: Node, ghost k: nat, ghost spare: set<Node>,
                       ghost p: seq<MapEntry>, ghost e: MapEntry, ghost r: seq<MapEntry>)
      requires Linked() && 1 <= k < |Links| && Links[k] == link && Contents == p + [e] + r && |p| == k - 1
      requires bottom !in Links && bottom in Repr && bottom in spare && PoolIs(spare)
      requires e.BaseAddress < base && bottom.Payload.Signature == 0
      modifies this`Links, this`Contents, Repr`ForwardLink, Repr`BackLink, link`Payload, bottom`Payload
      ensures Linked() && PoolIs(spare - {bottom}) && bottom.Payload.Signature == GCD_MAP_SIGNATURE
      ensures Links == InsertAt(old(Links), k, bottom) && link.Payload == e.(BaseAddress := base)
      ensures Contents == (p + [e.(EndAddress := base - 1)]) + [e.(BaseAddress := base)] + r
    {
      assert Links[k].Payload == Contents[k - 1] == e;
      hide Ring, Distinct, PoolIs;
      bottom.Payload := link.Payload;
      SetEntry(link, link.Payload.(BaseAddress := base), k);
      bottom.Payload := bottom.Payload.(EndAddress := base - 1);
      JoinBefore(link, bottom, k, spare);
      SpliceBelow(p, e, r, e.(BaseAddress := base), e.(EndAddress := base - 1));
    }

    /** The second half of CoreInsertGcdMapEntry: what `link` holds above `end` becomes an entry. */
    method InsertAbove(link: Node, end: nat, top: Node, ghost k: nat, ghost spare: set<Node>,
                       ghost p: seq<MapEntry>, ghost e: MapEntry, ghost r: seq<MapEntry>)
      requires Linked() && 1 <= k < |Links| && Links[k] == link && Contents == p + [e] + r && |p| == k - 1
      requires top !in Links && top in Repr && top in spare && PoolIs(spare)
      requires end < e.EndAddress && top.Payload.Signature == 0
      modifies this`Links, this`Contents, Repr`ForwardLink, Repr`BackLink, link`Payload, top`Payload
      ensures Linked() && PoolIs(spare - {top}) && top.Payload.Signature == GCD_MAP_SIGNATURE
      ensures Links == InsertAt(old(Links), k + 1, top) && link.Payload == e.(EndAddress := end)
      ensures Contents == p + [e.(EndAddress := end)] + ([e.(BaseAddress := end + 1)] + r)
    {
      assert Links[k].Payload == Contents[k - 1] == e;
      hide Ring, Distinct, PoolIs;
      top.Payload := link.Payload;
      top.Payload := top.Payload.(BaseAddress := end + 1);
      SetEntry(link, link.Payload.(EndAddress := end), k);
      JoinAfter(link, top, k, spare);
      SpliceAbove(p, e, r, e.(EndAddress := end), e.(BaseAddress := end + 1));
    }

    /** InsertBelow, where there is something below. */
    method SplitBelow(link: Node, base: nat, bottom: Node, ghost k: nat, ghost spare: set<Node>,
                      ghost p: seq<MapEntry>, ghost e: MapEntry, ghost r: seq<MapEntry>)
      requires Linked() && 1 <= k < |Links| && Links[k] == link && Contents == p + [e] + r && |p| == k - 1
      requires bottom in Repr && PoolIs(spare)
      requires base > e.BaseAddress ==> bottom !in Links && bottom in spare && bottom.Payload.Signature == 0
      modifies this`Links, this`Contents, Repr`ForwardLink, Repr`BackLink, link`Payload, bottom`Payload
      ensures Linked() && PoolIs(if base > e.BaseAddress then spare - {bottom} else spare)
      ensures Links == if base > e.BaseAddress then InsertAt(old(Links), k, bottom) else old(Links)
      ensures Contents ==
                (p + Below(e, base)) + [e.(BaseAddress := if base > e.BaseAddress then base else e.BaseAddress)] + r
      ensures bottom.Payload.Signature == if base > e.BaseAddress then GCD_MAP_SIGNATURE
                else old(bottom.Payload.Signature)
      ensures link.Payload.Signature == old(link.Payload.Signature) == GCD_MAP_SIGNATURE
    {
      assert Links[k].Payload == Contents[k - 1] == e;
      hide Ring, Distinct, PoolIs, Carries, Signed;
      if base > link.Payload.BaseAddress {
        InsertBelow(link, base, bottom, k, spare, p, e, r);
      } else {
        assert p + Below(e, base) == p;
      }
    }

    /** InsertAbove, where there is something above. */
    method SplitAbove(link: Node, end: nat, top: Node, ghost k: nat, ghost spare: set<Node>,
                      ghost p: seq<MapEntry>, ghost e: MapEntry, ghost r: seq<MapEntry>)
      requires Linked() && 1 <= k < |Links| && Links[k] == link && Contents == p + [e] + r && |p| == k - 1
      requires top in Repr && PoolIs(spare)
      requires end < e.EndAddress ==> top !in Links && top in spare && top.Payload.Signature == 0
      modifies this`Links, this`Contents, Repr`ForwardLink, Repr`BackLink, link`Payload, top`Payload
      ensures Linked() && PoolIs(if end < e.EndAddress then spare - {top} else spare)
      ensures Links == if end < e.EndAddress then InsertAt(old(Links), k + 1, top) else old(Links)
      ensures Contents == p + [e.(EndAddress := if end < e.EndAddress then end else e.EndAddress)] + (Above(e, end) + r)
      ensures top.Payload.Signature == if end < e.EndAddress then GCD_MAP_SIGNATURE else old(top.Payload.Signature)
      ensures link.Payload.Signature == old(link.Payload.Signature) == GCD_MAP_SIGNATURE
    {
      assert Links[k].Payload == Contents[k - 1] == e;
      hide Ring, Distinct, PoolIs;
      if end < link.Payload.EndAddress {
        InsertAbove(link, end, top, k, spare, p, e, r);
      } else {
        assert Above(e, end) + r == r;
      }
    }

    /** CoreInsertGcdMapEntry: splits off what `link` holds below and above the range.  `p`, `e`, `r`
        are the entries before, at and after `link`. */
    method InsertMapEntry(link: Node, base: nat, length: nat, top: Node, bottom: Node, ghost k: nat,
                          ghost p: seq<MapEntry>, ghost e: MapEntry, ghost r: seq<MapEntry>)
      requires Linked() && 1 <= k < |Links| && Links[k] == link && length > 0
      requires Contents == p + [e] + r && |p| == k - 1
      requires top != bottom && SparesKept(top, bottom)
      requires base > e.BaseAddress ==> bottom.Payload.Signature == 0
      requires LastAddress(base, length) < e.EndAddress ==> top.Payload.Signature == 0
      modifies this`Links, this`Contents, Repr`ForwardLink, Repr`BackLink, link`Payload, top`Payload, bottom`Payload
      ensures Linked() && SparesKept(top, bottom)
      ensures var end := LastAddress(base, length);
              && Contents == (p + Below(e, base)) + [Core(e, base, end, e.Space)] + (Above(e, end) + r)
              && Links == Inserted(old(Links), k, base > e.BaseAddress, bottom, end < e.EndAddress, top)
      ensures bottom.Payload.Signature == if base > e.BaseAddress then GCD_MAP_SIGNATURE
                else old(bottom.Payload.Signature)
      ensures top.Payload.Signature == if LastAddress(base, length) < e.EndAddress then GCD_MAP_SIGNATURE
                else old(top.Payload.Signature)
    {
      hide Ring, Distinct, Carries, PoolIs, Signed, InsertAt, LastAddress;
      ghost var end := LastAddress(base, length);
      ghost var e' := e.(BaseAddress := if base > e.BaseAddress then base else e.BaseAddress);
      ghost var spare := Unused(top, bottom);
      ghost var spare' := if base > e.BaseAddress then spare - {bottom} else spare;
      ghost var k' := k + |Below(e, base)|;
      if base > e.BaseAddress {
        MembersAfterInsert(Links, k, bottom);
        MovedUp(Links, k, bottom);
      }
      SplitBelow(link, base, bottom, k, spare, p, e, r);
      if end < e.EndAddress { MembersAfterInsert(Links, k' + 1, top); }
      SplitAbove(link, LastAddress(base, length), top, k', spare', p + Below(e, base), e', r);
      assert Unused(top, bottom) == if end < e.EndAddress then spare' - {top} else spare';
    }

    /** CoreFreePool of an entry: the block must be live, and no longer is. */
    method FreePool(n: Node)
      requires n in Pool
      modifies this`Pool
      ensures Pool == old(Pool) - {n}
    {
      Pool := Pool - {n};
    }

    /** RemoveEntryList and CoreFreePool of the entry at position `k`. */
    method Unlink(n: Node, ghost k: nat)
      requires Linked() && PoolIs({}) && 1 <= k < |Links| && Links[k] == n
      modifies this`Links, this`Contents, this`Pool, Repr`ForwardLink, Repr`BackLink
      ensures Linked() && PoolIs({})
      ensures Links == RemoveAt(old(Links), k) && Contents == RemoveAt(old(Contents), k - 1)
    {
      hide Ring, Distinct, Carries;
      RingDistinct(Links);
      CarriesRemove(Links, Contents, k);
      MembersAfterRemove(Links, k);
      var _ := RemoveEntryList(n, Links, k);
      Links, Contents := RemoveAt(Links, k), RemoveAt(Contents, k - 1);
      FreePool(n);
    }

    /** CoreMergeGcdMapEntry: merges `link` with the entry before it, or after it, when they agree on
        everything but their addresses.  `p`, `e`, `r` are the entries before, at and after `link`. */
    method MergeMapEntry(link: Node, forward: bool, ghost k: nat, ghost p: seq<MapEntry>, ghost e: MapEntry,
                         ghost r: seq<MapEntry>)
      returns (status: Status)
      requires Linked() && PoolIs({}) && 1 <= k < |Links| && Links[k] == link
      requires Contents == p + [e] + r && |p| == k - 1
      modifies this`Links, this`Contents, this`Pool, Repr
      ensures Linked() && PoolIs({})
      ensures !forward ==> Contents == AppendMerged(p, e) + r
      ensures !forward ==> forall m :: k <= m < old(|Links|) ==> Links[m - k + |AppendMerged(p, e)|] == old(Links[m])
      ensures forward ==> Contents == if r == [] then p + [e] else AppendMerged(p + [e], r[0]) + r[1..]
      ensures !forward ==> status == if p == [] || p[|p| - 1].Space == e.Space then EFI_SUCCESS else EFI_UNSUPPORTED
      ensures forward ==> status == if r == [] || e.Space == r[0].Space then EFI_SUCCESS else EFI_UNSUPPORTED
    {
      var adjacent := if forward then link.ForwardLink else link.BackLink;
      assert adjacent == Links[if forward then Succ(k, |Links|) else Pred(k, |Links|)];
      if adjacent == Head {
        return EFI_SUCCESS;
      }
      ghost var a := if forward then k + 1 else k - 1;
      assert Links[a].Payload == Contents[a - 1] && Links[k].Payload == e;
      var entry, other := link.Payload.Space, adjacent.Payload.Space;
      if entry.Capabilities != other.Capabilities { return EFI_UNSUPPORTED; }
      if entry.Attributes != other.Attributes { return EFI_UNSUPPORTED; }
      if entry.GcdMemoryType != other.GcdMemoryType { return EFI_UNSUPPORTED; }
      if entry.GcdIoType != other.GcdIoType { return EFI_UNSUPPORTED; }
      if entry.ImageHandle != other.ImageHandle { return EFI_UNSUPPORTED; }
      if entry.DeviceHandle != other.DeviceHandle { return EFI_UNSUPPORTED; }
      if forward {
        AbsorbNext(link, adjacent, k, p, e, r);
      } else {
        AbsorbPrevious(link, adjacent, k, p, e, r);
      }
      return EFI_SUCCESS;
    }

    /** The forward merge of two equal neighbours. */
    method AbsorbNext(link: Node, adjacent: Node, ghost k: nat, ghost p: seq<MapEntry>, ghost e: MapEntry,
                      ghost r: seq<MapEntry>)
      requires Linked() && PoolIs({}) && 1 <= k && k + 1 < |Links| && Links[k] == link && Links[k + 1] == adjacent
      requires Contents == p + [e] + r && |p| == k - 1 && r != [] && e.Space == r[0].Space
      modifies this`Links, this`Contents, this`Pool, Repr
      ensures Linked() && PoolIs({}) && Contents == AppendMerged(p + [e], r[0]) + r[1..]
    {
      assert Links[k].Payload == Contents[k - 1] && Links[k + 1].Payload == Contents[k];
      SpliceMergeForward(p, e, r);
      SetEntry(link, link.Payload.(EndAddress := adjacent.Payload.EndAddress), k);
      Unlink(adjacent, k + 1);
    }

    /** The backward merge of two equal neighbours. */
    method AbsorbPrevious(link: Node, adjacent: Node, ghost k: nat, ghost p: seq<MapEntry>, ghost e: MapEntry,
                          ghost r: seq<MapEntry>)
      requires Linked() && PoolIs({}) && 2 <= k < |Links| && Links[k] == link && Links[k - 1] == adjacent
      requires Contents == p + [e] + r && |p| == k - 1 && e.Space == p[k - 2].Space
      modifies this`Links, this`Contents, this`Pool, Repr
      ensures Linked() && PoolIs({}) && Contents == AppendMerged(p, e) + r
      ensures Links == RemoveAt(old(Links), k - 1)
    {
      assert Links[k].Payload == Contents[k - 1] && Links[k - 1].Payload == Contents[k - 2];
      SpliceMergeBack(p, e, r);
      SetEntry(link, link.Payload.(BaseAddress := adjacent.Payload.BaseAddress), k);
      Unlink(adjacent, k - 1);
    }

    /** CoreSearchGcdMapEntry: the entries that hold the first and the last address of a range, found
        exactly when there are two such entries in this order. */
    method SearchMapEntry(base: nat, length: nat)
      returns (status: Status, startLink: MaybeNode, endLink: MaybeNode, ghost i: nat, ghost j: nat)
      requires Linked() && Tiles(Contents, 0, Limit)
      ensures length == 0 ==> status == EFI_INVALID_PARAMETER
      ensures length > 0 ==> status == EFI_SUCCESS || status == EFI_NOT_FOUND
      ensures status == EFI_SUCCESS ==> length > 0 && Spans(Contents, base, LastAddress(base, length), i, j)
      ensures status == EFI_SUCCESS ==> startLink != null && endLink != null && j + 1 < |Links|
      ensures status == EFI_SUCCESS ==> startLink == Links[i + 1] && endLink == Links[j + 1]
      ensures status == EFI_NOT_FOUND ==> forall m, n :: !Spans(Contents, base, LastAddress(base, length), m, n)
    {
      startLink, endLink, i, j := null, null, 0, 0;
      if length == 0 {
        return EFI_INVALID_PARAMETER, startLink, endLink, i, j;
      }
      ghost var k := 0;
      var link := Head.ForwardLink;
      assert Links[0].ForwardLink == Links[Succ(0, |Links|)];
      while link != Head
        invariant 0 <= k <= |Contents| && link == Links[Succ(k, |Links|)]
        invariant startLink == null ==> forall m :: 0 <= m < k ==> !Holds(Contents[m], base)
        invariant startLink != null ==> i < k && startLink == Links[i + 1] && Holds(Contents[i], base)
        invariant startLink != null ==> forall m :: i <= m < k ==> !Holds(Contents[m], LastAddress(base, length))
        decreases |Contents| - k
      {
        var entry := link.Payload;
        assert entry == Contents[k] by { assert Links[k + 1].Payload == Contents[k]; }
        if base >= entry.BaseAddress && base <= entry.EndAddress {
          if startLink != null { TilesHoldOnce(Contents, 0, Limit, i, k, base); }
          startLink, i := link, k;
        }
        if startLink != null {
          if LastAddress(base, length) >= entry.BaseAddress && LastAddress(base, length) <= entry.EndAddress {
            return EFI_SUCCESS, startLink, link, i, k;
          }
        }
        assert Links[k + 1].ForwardLink == Links[Succ(k + 1, |Links|)];
        link := link.ForwardLink;
        k := k + 1;
      }
      assert k == |Contents| by { assert Links[Succ(k, |Links|)] == Links[0]; }
      forall m, n ensures !Spans(Contents, base, LastAddress(base, length), m, n) {
        if Spans(Contents, base, LastAddress(base, length), m, n) {
          TilesHoldOnce(Contents, 0, Limit, m, i, base);
        }
      }
      return EFI_NOT_FOUND, startLink, endLink, i, j;
    }

    /** CoreAllocateGcdMapEntry; `topOk` and `bottomOk` say whether the two pool allocations succeed. */
    method AllocateMapEntries(topOk: bool, bottomOk: bool) returns (status: Status, top: MaybeNode, bottom: MaybeNode)
      requires Linked() && PoolIs({})
      modifies this`Pool, this`Repr
      ensures Repr >= old(Repr) && fresh(Repr - old(Repr)) && Linked()
      ensures status == if topOk && bottomOk then EFI_SUCCESS else EFI_OUT_OF_RESOURCES
      ensures status != EFI_SUCCESS ==> PoolIs({})
      ensures status == EFI_SUCCESS ==>
                && top != null && bottom != null && top != bottom && fresh(top) && fresh(bottom)
                && top in Repr && bottom in Repr
                && top !in Links && bottom !in Links
                && top.Payload == ZERO_ENTRY && bottom.Payload == ZERO_ENTRY && PoolIs({top, bottom})
    {
      top, bottom := null, null;
      if !topOk {
        return EFI_OUT_OF_RESOURCES, top, bottom;
      }
      var first := new ListEntry(ZERO_ENTRY);
      top, Pool, Repr := first, Pool + {first}, Repr + {first};
      if !bottomOk {
        FreePool(top);
        return EFI_OUT_OF_RESOURCES, top, bottom;
      }
      var second := new ListEntry(ZERO_ENTRY);
      bottom, Pool, Repr := second, Pool + {second}, Repr + {second};
      return EFI_SUCCESS, top, bottom;
    }

    lemma Backward(k: nat)
      requires Linked() && k < |Links|
      ensures Links[k].BackLink == Links[Pred(k, |Links|)]
    {
    }

    lemma Forward(k: nat)
      requires Linked() && k < |Links|
      ensures Links[k].ForwardLink == Links[Succ(k, |Links|)]
      ensures forall m :: 0 <= m < |Links| && Links[m] == Links[Succ(k, |Links|)] ==> m == Succ(k, |Links|)
    {
    }

    /** One round of the loop of CoreCleanupGcdMapEntry; `p'` is `p` with `e` merged into it,
        and `last` is a position from `link` on. */
    method CleanupStep(link: Node, ghost p: seq<MapEntry>, ghost e: MapEntry, ghost r: seq<MapEntry>,
                       ghost p': seq<MapEntry>,
                       ghost last: nat)
      returns (next: Node)
      requires |p| < last < |Links|
      requires Linked() && PoolIs({}) && Contents == p + [e] + r && Links[|p| + 1] == link
      requires p' == AppendMerged(p, e)
      modifies this`Links, this`Contents, this`Pool, Repr
      ensures Linked() && PoolIs({}) && |Links| == |Contents| + 1
      ensures Contents == p' + r && |p'| > 0
      ensures next == Links[Succ(|p'|, |Links|)]
      ensures last - |p| - 1 + |p'| < |Links| && Links[last - |p| - 1 + |p'|] == old(Links[last])
    {
      var _ := MergeMapEntry(link, false, |p| + 1, p, e, r);
      assert Links[|p'|] == link;
      Forward(|p'|);
      next := link.ForwardLink;
    }

    /** The blocks that CoreCleanupGcdMapEntry finds unused. */
    ghost function Unused(top: Node, bottom: Node): set<Node>
      reads top, bottom
    {
      (if top.Payload.Signature == 0 then {top} else {}) + (if bottom.Payload.Signature == 0 then {bottom} else {})
    }

    method FreeUnused(top: Node, bottom: Node)
      requires top != bottom && PoolIs(Unused(top, bottom))
      requires top.Payload.Signature == 0 ==> top !in Links
      requires bottom.Payload.Signature == 0 ==> bottom !in Links
      modifies this`Pool
      ensures PoolIs({})
    {
      if top.Payload.Signature == 0 { FreePool(top); }
      if bottom.Payload.Signature == 0 { FreePool(bottom); }
    }

    /** CoreCleanupGcdMapEntry: frees the unused blocks and merges from `startLink` to `endLink`.
        `low`, `mid`, `high` are the entries before, from `startLink` to `endLink`, and after. */
    method CleanupMapEntries(top: Node, bottom: Node, startLink: Node, endLink: Node,
                             ghost low: seq<MapEntry>, ghost mid: seq<MapEntry>, ghost high: seq<MapEntry>)
      returns (status: Status)
      requires Linked() && top != bottom && PoolIs(Unused(top, bottom))
      requires top.Payload.Signature == 0 ==> top !in Links
      requires bottom.Payload.Signature == 0 ==> bottom !in Links
      requires mid != [] && Contents == low + mid + high
      requires Links[|low| + 1] == startLink && Links[|low| + |mid|] == endLink
      modifies this`Links, this`Contents, this`Pool, Repr
      ensures status == EFI_SUCCESS
      ensures Linked() && PoolIs({})
      ensures Contents == Cleaned(low, mid, high)
    {
      hide Linked, PoolIs, MergeFirst, AppendMerged, Cleaned;
      FreeUnused(top, bottom);
      ghost var rest := mid + high;
      AppendAssociates(low, mid, high);
      MergeRange(startLink, endLink, low, rest, |mid|);
      ghost var p := MergeFirst(low, rest, |mid|);
      CleanedSteps(low, mid, high);
      assert p[..|p| - 1] + [p[|p| - 1]] == p;
      var _ := MergeMapEntry(endLink, true, |p|, p[..|p| - 1], p[|p| - 1], high);
      status := EFI_SUCCESS;
    }

    /** The loop of CoreCleanupGcdMapEntry, over the first `n` entries of `rest`. */
    method MergeRange(startLink: Node, endLink: Node, ghost low: seq<MapEntry>, ghost rest: seq<MapEntry>, ghost n: nat)
      requires Linked() && PoolIs({})
      requires 0 < n <= |rest| && Contents == low + rest
      requires Links[|low| + 1] == startLink && Links[|low| + n] == endLink
      modifies this`Links, this`Contents, this`Pool, Repr
      ensures Linked() && PoolIs({})
      ensures Contents == MergeFirst(low, rest, n) + rest[n..]
      ensures 0 < |MergeFirst(low, rest, n)| < |Links| && Links[|MergeFirst(low, rest, n)|] == endLink
    {
      hide Linked, PoolIs, MergeFirst, AppendMerged;
      ghost var t, p := 0, low;
      MergeNone(low, rest);
      LinkedSizes();
      var link := startLink;
      while link != endLink.ForwardLink
        invariant Linked() && PoolIs({}) && |Links| == |Contents| + 1
        invariant 0 <= t <= n && p == MergeFirst(low, rest, t)
        invariant Contents == p + rest[t..]
        invariant 0 < |p| + n - t && endLink == Links[|p| + n - t]
        invariant link == Links[Succ(|p|, |Links|)]
        decreases n - t
      {
        assert t < n by { Forward(|p|); }
        assert p + rest[t..] == p + [rest[t]] + rest[t + 1..];
        ghost var p' := MergeFirst(low, rest, t + 1);
        MergeNext(low, rest, t);
        link := CleanupStep(link, p, rest[t], rest[t + 1..], p', |p| + n - t);
        p, t := p', t + 1;
      }
      assert t == n by { Forward(|p| + n - t); }
    }

    /** The blocks that are not in the list yet are live, and those that are not used are spare. */
    ghost predicate SparesKept(top: Node, bottom: Node)
      reads this`Links, this`Pool, this`Repr, top, bottom
    {
      && PoolIs(Unused(top, bottom)) && top in Repr && bottom in Repr
      && (top.Payload.Signature == 0 ==> top !in Links)
      && (bottom.Payload.Signature == 0 ==> bottom !in Links)
    }

    /** One round of the conversion loops: split `link`, update what is left of it, move on.
        `attributes` is the loop-carried parameter; `p`, `e`, `r` are the entries before, at and after
        `link`; `first` and `last` are positions before and from `link` on. */
    method ConvertStep(c: Change, link: Node, base: nat, length: nat, top: Node, bottom: Node, attributes: bv64,
                       ghost p: seq<MapEntry>, ghost e: MapEntry, ghost r: seq<MapEntry>, ghost first: nat,
                       ghost last: nat)
      returns (next: Node, attributes': bv64)
      requires Linked() && Contents == p + [e] + r && Links[|p| + 1] == link && length > 0
      requires top != bottom && SparesKept(top, bottom)
      requires base > e.BaseAddress ==> bottom.Payload.Signature == 0
      requires LastAddress(base, length) < e.EndAddress ==> top.Payload.Signature == 0
      requires first <= |p| < last < |Links|
      modifies this`Links, this`Contents, Repr
      ensures Linked() && SparesKept(top, bottom)
      ensures attributes' == NextCarry(c, e.Space, attributes)
      ensures var end := LastAddress(base, length);
              Contents == p + Below(e, base) + [Core(e, base, end, UpdateRecord(c, e.Space, attributes'))] +
                (Above(e, end) + r)
      ensures base > e.BaseAddress || bottom.Payload.Signature == old(bottom.Payload.Signature)
      ensures LastAddress(base, length) < e.EndAddress || top.Payload.Signature == old(top.Payload.Signature)
      ensures base > e.BaseAddress ==> bottom.Payload.Signature != 0
      ensures LastAddress(base, length) < e.EndAddress ==> top.Payload.Signature != 0
      ensures |Links| == |Contents| + 1 && Links[|p| + |Below(e, base)| + 1] == link
      ensures next == Links[Succ(|p| + |Below(e, base)| + 1, |Links|)]
      ensures Links[first] == old(Links[first])
      ensures var above := if last > |p| + 1 then |Above(e, LastAddress(base, length))| else 0;
              var last' := last + |Below(e, base)| + above;
              last' < |Links| && Links[last'] == old(Links[last])
    {
      hide Ring, Distinct, Carries, PoolIs, Signed, Inserted, NextCarry, UpdateRecord;
      ghost var end := LastAddress(base, length);
      ghost var k := |p| + |Below(e, base)| + 1;
      InsertedAt(Links, |p| + 1, base > e.BaseAddress, bottom, end < e.EndAddress, top, |p| + 1);
      InsertedAt(Links, |p| + 1, base > e.BaseAddress, bottom, end < e.EndAddress, top, first);
      InsertedAt(Links, |p| + 1, base > e.BaseAddress, bottom, end < e.EndAddress, top, last);
      InsertMapEntry(link, base, length, top, bottom, |p| + 1, p, e, r);
      ghost var core := Core(e, base, end, e.Space);
      EntryIs(k, core);
      attributes' := NextCarry(c, link.Payload.Space, attributes);
      SetEntry(link, link.Payload.(Space := UpdateRecord(c, link.Payload.Space, attributes')), k);
      Forward(k);
      next := link.ForwardLink;
    }

    /** The conversion loop at entry `k` of the old list `es`, `s` and `e` being the positions of its
        StartLink and EndLink. */
    ghost predicate Converting(c: Change, base: nat, end: nat, startLink: Node, endLink: Node, top: Node, bottom: Node,
                               es: seq<MapEntry>, i: nat, j: nat, k: nat, link: Node, attributes: bv64, s: nat, e: nat)
      reads this, Repr, top, bottom
    {
      && Linked() && SparesKept(top, bottom) && |Links| == |Contents| + 1 && top != bottom
      && i <= k <= j + 1 && i <= j < |es|
      && (forall m :: i < m <= j ==> base <= es[m].BaseAddress)
      && (forall m :: i <= m < j ==> es[m].EndAddress <= end)
      && (var p := Done(es, c, base, end, i, k);
         && Contents == p + Ahead(es, end, j, k)
         && attributes == CarryAfter(es, c, i, k)
         && link == Links[Succ(|p|, |Links|)]
         && e == |p| + 1 + j - k && 0 < e < |Links| && endLink == Links[e]
         && 0 < s < |Links| && startLink == Links[s]
         && (if k == i then s == |p| + 1 else s == |Low(es, base, i)| + 1 <= |p|))
      && (k == i ==> bottom.Payload.Signature == 0)
      && (k <= j ==> top.Payload.Signature == 0)
    }

    method ConvertRound(c: Change, base: nat, length: nat, startLink: Node, endLink: Node, top: Node, bottom: Node,
                        link: Node, attributes: bv64,
                        ghost es: seq<MapEntry>, ghost i: nat, ghost j: nat, ghost k: nat, ghost s: nat, ghost e: nat)
      returns (next: Node, attributes': bv64, ghost s': nat, ghost e': nat)
      requires length > 0 && k <= j
      requires Converting(c, base, LastAddress(base, length), startLink, endLink, top, bottom, es, i, j, k, link,
                          attributes, s, e)
      modifies this`Links, this`Contents, Repr
      ensures Converting(c, base, LastAddress(base, length), startLink, endLink, top, bottom, es, i, j, k + 1, next,
                         attributes', s', e')
    {
      hide Linked, SparesKept, Done, Ahead, Low, High, Cores, NextCarry, UpdateRecord, Below, Above;
      ghost var end := LastAddress(base, length);
      ghost var p := Done(es, c, base, end, i, k);
      DoneNext(es, c, base, end, i, j, k);
      AppendAssociates(p, [es[k]], es[k + 1..]);
      AppendAssociates(p + Below(es[k], base) + [Core(es[k], base, end, NewSpace(es, c, i, k))], Above(es[k], end),
        es[k + 1..]);
      next, attributes' := ConvertStep(c, link, base, length, top, bottom, attributes, p, es[k], es[k + 1..],
        if k == i then 0 else s, e);
      s' := if k == i then |p| + |Below(es[k], base)| + 1 else s;
      e' := e + |Below(es[k], base)| + if k < j then |Above(es[k], end)| else 0;
    }

    /** The conversion loop of CoreConvertSpace and CoreAllocateSpace, over the entries `i` to `j` of `es`. */
    method ConvertEntries(c: Change, base: nat, length: nat, startLink: Node, endLink: Node, top: Node, bottom: Node,
                          ghost es: seq<MapEntry>, ghost i: nat, ghost j: nat)
      requires Linked() && Contents == es && length > 0 && Spans(es, base, LastAddress(base, length), i, j)
      requires Links[i + 1] == startLink && Links[j + 1] == endLink
      requires forall k :: i < k <= j ==> base <= es[k].BaseAddress
      requires forall k :: i <= k < j ==> es[k].EndAddress <= LastAddress(base, length)
      requires top != bottom && SparesKept(top, bottom)
      requires top.Payload.Signature == 0 && bottom.Payload.Signature == 0
      modifies this`Links, this`Contents, Repr
      ensures Linked() && SparesKept(top, bottom)
      ensures Contents == Converted(es, c, base, LastAddress(base, length), i, j)
      ensures Links[|Low(es, base, i)| + 1] == startLink && Links[|Low(es, base, i)| + (j - i) + 1] == endLink
    {
      hide Converting, Linked, SparesKept, Low, High, Cores, Converted, Done, FirstCarry;
      ghost var end := LastAddress(base, length);
      var attributes := FirstCarry(c);
      var link := startLink;
      ghost var k: nat, s: nat, e: nat := i, i + 1, j + 1;
      ConvertingStarts(c, base, end, startLink, endLink, top, bottom, es, i, j);
      while link != endLink.ForwardLink
        invariant i <= k <= j + 1
        invariant Converting(c, base, end, startLink, endLink, top, bottom, es, i, j, k, link, attributes, s, e)
        decreases j + 1 - k
      {
        ConvertingGuard(c, base, end, startLink, endLink, top, bottom, es, i, j, k, link, attributes, s, e);
        link, attributes, s, e :=
          ConvertRound(c, base, length, startLink, endLink, top, bottom, link, attributes, es, i, j, k, s, e);
        ConvertingGuard(c, base, end, startLink, endLink, top, bottom, es, i, j, k + 1, link, attributes, s, e);
        k := k + 1;
      }
      ConvertingGuard(c, base, end, startLink, endLink, top, bottom, es, i, j, k, link, attributes, s, e);
      ConvertingEnds(c, base, end, startLink, endLink, top, bottom, es, i, j, link, attributes, s, e);
    }

    lemma ConvertingStarts(c: Change, base: nat, end: nat, startLink: Node, endLink: Node, top: Node, bottom: Node,
                           es: seq<MapEntry>, i: nat, j: nat)
      requires Linked() && Contents == es && Spans(es, base, end, i, j)
      requires Links[i + 1] == startLink && Links[j + 1] == endLink
      requires forall k :: i < k <= j ==> base <= es[k].BaseAddress
      requires forall k :: i <= k < j ==> es[k].EndAddress <= end
      requires top != bottom && SparesKept(top, bottom)
      requires top.Payload.Signature == 0 && bottom.Payload.Signature == 0
      ensures Converting(c, base, end, startLink, endLink, top, bottom, es, i, j, i, startLink,
                         FirstCarry(c), i + 1, j + 1)
    {
      hide Low, High, Cores, Below, Above;
      DoneFirst(es, c, base, end, i, j);
    }

    /** The loop goes on exactly while there are entries of the range ahead. */
    lemma ConvertingGuard(c: Change, base: nat, end: nat, startLink: Node, endLink: Node, top: Node, bottom: Node,
                          es: seq<MapEntry>, i: nat, j: nat, k: nat, link: Node, attributes: bv64, s: nat, e: nat)
      requires Converting(c, base, end, startLink, endLink, top, bottom, es, i, j, k, link, attributes, s, e)
      ensures i <= k <= j + 1 && endLink in Repr && (link != endLink.ForwardLink <==> k <= j)
    {
    }

    lemma ConvertingEnds(c: Change, base: nat, end: nat, startLink: Node, endLink: Node, top: Node, bottom: Node,
                         es: seq<MapEntry>, i: nat, j: nat, link: Node, attributes: bv64, s: nat, e: nat)
      requires Converting(c, base, end, startLink, endLink, top, bottom, es, i, j, j + 1, link, attributes, s, e)
      ensures Linked() && SparesKept(top, bottom)
      ensures i <= j < |es| && Contents == Converted(es, c, base, end, i, j)
      ensures |Low(es, base, i)| + (j - i) + 1 < |Links|
      ensures Links[|Low(es, base, i)| + 1] == startLink && Links[|Low(es, base, i)| + (j - i) + 1] == endLink
    {
    }

    /** CoreAcquireLock and CoreReleaseLock on the lock of the map. */
    method AcquireLock()
      requires !Locked
      modifies this`Locked
      ensures Locked
    {
      Locked := true;
    }

    method ReleaseLock()
      requires Locked
      modifies this`Locked
      ensures !Locked
    {
      Locked := false;
    }

    /** The verification loop of CoreConvertSpace over the entries `i` to `j`. */
    method CheckEntries(c: Change, base: nat, length: nat, startLink: Node, endLink: Node, ghost i: nat, ghost j: nat)
      returns (status: Status)
      requires Linked() && i <= j < |Contents| && Links[i + 1] == startLink && Links[j + 1] == endLink
      ensures status == EntriesStatus(Contents, c, base, length, i, j)
    {
      hide Linked, CheckRecord;
      LinkedSizes();
      var link := startLink;
      ghost var k := i;
      while link != endLink.ForwardLink
        invariant i <= k <= j + 1 && link == Links[Succ(k, |Links|)]
        invariant EntriesStatus(Contents, c, base, length, i, j) == EntriesStatus(Contents, c, base, length, k, j)
        decreases j + 1 - k
      {
        assert k <= j by { Forward(j + 1); }
        EntryIs(k + 1, Contents[k]);
        status := CheckRecord(c, link.Payload.Space, base, length);
        if status != EFI_SUCCESS {
          return;
        }
        Forward(k + 1);
        link, k := link.ForwardLink, k + 1;
      }
      assert k == j + 1 by { Forward(j + 1); }
      return EFI_SUCCESS;
    }

    /** The end of CoreConvertSpace and of CoreAllocateSpace: convert the entries `i` to `j`, clean up. */
    method ApplyChange(c: Change, base: nat, length: nat, startLink: Node, endLink: Node, top: Node, bottom: Node,
                       ghost i: nat, ghost j: nat)
      returns (status: Status)
      requires Linked() && Tiles(Contents, 0, Limit) && length > 0
      requires Spans(Contents, base, LastAddress(base, length), i, j)
      requires Links[i + 1] == startLink && Links[j + 1] == endLink
      requires top != bottom && SparesKept(top, bottom)
      requires top.Payload.Signature == 0 && bottom.Payload.Signature == 0
      modifies this`Links, this`Contents, this`Pool, Repr
      ensures status == EFI_SUCCESS
      ensures Linked() && PoolIs({})
      ensures Contents == After(old(Contents), c, base, LastAddress(base, length), i, j)
    {
      hide Linked, Tiles, Low, High, Cores, Cleaned, PoolIs;
      ghost var es, end := Contents, LastAddress(base, length);
      SpansWithin(es, Limit, base, end, i, j);
      ConvertEntries(c, base, length, startLink, endLink, top, bottom, es, i, j);
      status := CleanupMapEntries(top, bottom, startLink, endLink,
        Low(es, base, i), Cores(es, c, base, end, i, j + 1), High(es, end, j));
    }

    /** CoreConvertSpace.  `topOk` and `bottomOk` are the outcomes of the two pool allocations, `cpu`
        the CPU arch protocol. */
    method ConvertSpace(c: Change, base: nat, length: nat, topOk: bool, bottomOk: bool,
                        cpu: CpuArch) returns (status: Status)
      requires Valid() && MapInvariant(Contents, Limit)
      requires base < UINT64_RANGE && length < UINT64_RANGE && NamesOwner(c)
      modifies this`Links, this`Contents, this`Pool, this`Repr, this`Locked, Repr
      ensures Valid() && fresh(Repr - old(Repr))
      ensures ConvertOutcome(old(Contents), Contents, Limit, c, base, length, topOk && bottomOk, cpu, status)
      ensures status != EFI_SUCCESS ==> Links == old(Links)
    {
      hide Linked, Tiles, Canonical, Signed, HandlesPaired, ConvertOutcome, After, EntriesStatus, CheckRecord,
           CpuArchAttributes;
      if length == 0 {
        OutcomeEmpty(Contents, Limit, c, base, topOk && bottomOk, cpu);
        return EFI_INVALID_PARAMETER;
      }
      ghost var es := Contents;
      AcquireLock();
      var startLink, endLink;
      ghost var i, j;
      status, startLink, endLink, i, j := SearchMapEntry(base, length);
      if status != EFI_SUCCESS {
        OutcomeUnspanned(es, Limit, c, base, length, topOk && bottomOk, cpu);
        status := EFI_UNSUPPORTED;
      } else {
        status := CheckEntries(c, base, length, startLink, endLink, i, j);
        if status == EFI_SUCCESS {
          status := AllocateAndApply(c, base, length, startLink, endLink, topOk, bottomOk, cpu, i, j);
        }
        OutcomeSpanned(es, Contents, Limit, c, base, length, topOk && bottomOk, cpu, status, i, j);
      }
      ReleaseLock();
    }

    /** The part of CoreConvertSpace after the checks: work space, CPU, conversion. */
    method AllocateAndApply(c: Change, base: nat, length: nat, startLink: Node, endLink: Node,
                            topOk: bool, bottomOk: bool, cpu: CpuArch, ghost i: nat, ghost j: nat)
      returns (status: Status)
      requires Linked() && PoolIs({}) && Tiles(Contents, 0, Limit) && length > 0
      requires Spans(Contents, base, LastAddress(base, length), i, j)
      requires Links[i + 1] == startLink && Links[j + 1] == endLink
      modifies this`Links, this`Contents, this`Pool, this`Repr, Repr
      ensures Linked() && PoolIs({}) && Repr >= old(Repr) && fresh(Repr - old(Repr))
      ensures status == WorkStatus(c, base, length, topOk && bottomOk, cpu)
      ensures status != EFI_SUCCESS ==> Links == old(Links) && Contents == old(Contents)
      ensures status == EFI_SUCCESS ==> Contents == After(old(Contents), c, base, LastAddress(base, length), i, j)
    {
      hide Linked, Tiles, After, CpuArchAttributes;
      var top, bottom;
      status, top, bottom := AllocateMapEntries(topOk, bottomOk);
      if status != EFI_SUCCESS {
        return;
      }
      var cpuArchAttributes := 0;
      if c.SetAttributes? {
        cpuArchAttributes := CpuArchAttributes(c.attributes);
        if cpuArchAttributes != 0 {
          if cpu.Absent? {
            status := EFI_NOT_AVAILABLE_YET;
          } else {
            status := cpu.SetMemoryAttributes(base, length, cpuArchAttributes);
          }
          if status != EFI_SUCCESS {
            FreePool(top);
            FreePool(bottom);
            return;
          }
        }
      }
      status := ApplyChange(c, base, length, startLink, endLink, top, bottom, i, j);
    }

    /** As many blocks are live as the list has entries: none is lost and none is freed twice. */
    lemma LiveBlocks()
      requires Valid()
      ensures |Pool| == |Contents|
    {
      hide Carries, Signed;
      RingDistinct(Links);
      var nodes := Members(Links[1..]);
      HeadApart();
      MembersCount(Links[1..]);
      assert forall n :: n in Pool <==> n in nodes;
      assert Pool == nodes;
    }

    lemma HeadApart()
      requires Linked()
      ensures Distinct(Links[1..]) && |Links[1..]| == |Contents|
      ensures forall n :: n in Links[1..] <==> n in Links && n != Head
    {
    }

    lemma LinkedSizes()
      requires Linked()
      ensures |Links| == |Contents| + 1
    {
    }

    lemma AtHead(k: nat)
      requires Linked() && k < |Links|
      ensures Links[k] == Head <==> k == 0
    {
    }

    lemma EntryIs(k: nat, e: MapEntry)
      requires Linked() && 1 <= k < |Links| && Contents[k - 1] == e
      ensures Links[k].Payload == e && e.Signature == GCD_MAP_SIGNATURE
    {
    }
  }

  ghost function Members(s: seq<Node>): set<Node> {
    set n | n in s
  }

  lemma {:induction false} MembersCount(s: seq<Node>)
    requires Distinct(s)
    ensures |Members(s)| == |s|
  {
    if s != [] {
      var n := |s| - 1;
      MembersCount(s[..n]);
      assert s == s[..n] + [s[n]];
      assert Members(s) == Members(s[..n]) + {s[n]};
    } else {
      assert Members(s) == {};
    }
  }

  lemma RingDistinct(s: seq<Node>)
    requires Ring(s)
    ensures Distinct(s)
  {
  }

  lemma MembersAfterInsert(s: seq<Node>, k: nat, x: Node)
    requires k <= |s|
    ensures forall n :: n in InsertAt(s, k, x) <==> n in s || n == x
  {
    var t := InsertAt(s, k, x);
    assert t[k] == x;
    forall n | n in s ensures n in t {
      var i :| 0 <= i < |s| && s[i] == n;
      assert t[if i < k then i else i + 1] == n;
    }
  }

  lemma MovedUp(s: seq<Node>, k: nat, x: Node)
    requires k < |s|
    ensures |InsertAt(s, k, x)| == |s| + 1 && InsertAt(s, k, x)[k + 1] == s[k]
  {
  }

  lemma MembersAfterRemove(s: seq<Node>, k: nat)
    requires Distinct(s) && k < |s|
    ensures forall n :: n in RemoveAt(s, k) <==> n in s && n != s[k]
  {
    var t := RemoveAt(s, k);
    forall n | n in s && n != s[k] ensures n in t {
      var i :| 0 <= i < |s| && s[i] == n;
      assert t[if i < k then i else i - 1] == n;
    }
  }

  /** The ring with `b` before position `k` and `a` after it, where they are wanted. */
  ghost function Inserted(s: seq<Node>, k: nat, below: bool, b: Node, above: bool, a: Node): seq<Node>
    requires k < |s|
  {
    var t := if below then InsertAt(s, k, b) else s;
    if above then InsertAt(t, if below then k + 2 else k + 1, a) else t
  }

  lemma InsertedAt(s: seq<Node>, k: nat, below: bool, b: Node, above: bool, a: Node, m: nat)
    requires k < |s| && m < |s|
    ensures var t := Inserted(s, k, below, b, above, a);
            var n := m + (if below && k <= m then 1 else 0) + (if above && k < m then 1 else 0);
            n < |t| && t[n] == s[m]
  {
  }
}
