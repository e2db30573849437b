/** The circular doubly-linked list of LinkedList.c.

    A list is a ring of nodes: the head is a node like any other, so a ring is described by the
    sequence of all its nodes in forward order, starting anywhere.  Nodes are updated in place;
    the sequence and the position of a node in it are ghost. */
module LinkedList {

  /** A list node together with the record it is embedded in (the record that `CR` recovers
      from a link). */
  class ListEntry<T> {
    var ForwardLink: ListEntry?<T>
    var BackLink: ListEntry?<T>
    var Payload: T

    constructor (payload: T)
      ensures Payload == payload && ForwardLink == null && BackLink == null
    {
      Payload := payload;
      ForwardLink := null;
      BackLink := null;
    }
  }

  ghost predicate Distinct<T>(s: seq<ListEntry<T>>) {
    forall i, j :: 0 <= i < j < |s| ==> s[i] != s[j]
  }

  /** The position after, and before, position `i` in a ring of `n` nodes. */
  ghost function Succ(i: nat, n: nat): (k: nat)
    requires i < n
  {
    if i + 1 == n then 0 else i + 1
  }

  ghost function Pred(i: nat, n: nat): (k: nat)
    requires i < n
  {
    if i == 0 then n - 1 else i - 1
  }

  /** `s` lists a whole ring: each node's forward link is its successor, cyclically, and its back
      link is its predecessor, so the two links are mutually inverse. */
  ghost predicate Ring<T>(s: seq<ListEntry<T>>)
    reads s`ForwardLink, s`BackLink
  {
    && |s| > 0
    && Distinct(s)
    && (forall i {:trigger s[i].ForwardLink} :: 0 <= i < |s| ==> s[i].ForwardLink == s[Succ(i, |s|)])
    && (forall i {:trigger s[i].BackLink} :: 0 <= i < |s| ==> s[i].BackLink == s[Pred(i, |s|)])
  }

  ghost function InsertAt<T>(s: seq<T>, k: nat, x: T): seq<T>
    requires k <= |s|
  {
    seq(|s| + 1, i requires 0 <= i <= |s| => if i < k then s[i] else if i == k then x else s[i - 1])
  }

  ghost function RemoveAt<T>(s: seq<T>, k: nat): seq<T>
    requires k < |s|
  {
    seq(|s| - 1, i requires 0 <= i < |s| - 1 => if i < k then s[i] else s[i + 1])
  }

  ghost function Rotate<T>(s: seq<T>, k: nat): seq<T>
    requires k <= |s|
  {
    s[k..] + s[..k]
  }

  /** Where the ring starts is a matter of presentation. */
  lemma RingRotate<T>(s: seq<ListEntry<T>>, k: nat)
    requires Ring(s) && k < |s|
    ensures Ring(Rotate(s, k))
  {
    var t := Rotate(s, k);
    forall i | 0 <= i < |t|
      ensures t[i].ForwardLink == t[Succ(i, |t|)] && t[i].BackLink == t[Pred(i, |t|)]
    {
      var at := if i < |s| - k then k + i else i - (|s| - k);
      assert t[i] == s[at];
    }
  }

  /** LinkedList.c, InitializeListHead. */
  method InitializeListHead<T>(listHead: ListEntry<T>) returns (r: ListEntry<T>)
    modifies listHead`ForwardLink, listHead`BackLink
    ensures r == listHead && Ring([listHead])
  {
    listHead.ForwardLink := listHead;
    listHead.BackLink := listHead;
    r := listHead;
  }

  lemma DistinctInsert<T>(s: seq<ListEntry<T>>, k: nat, x: ListEntry<T>)
    requires Distinct(s) && k <= |s| && x !in s
    ensures Distinct(InsertAt(s, k, x))
  {
  }

  lemma DistinctRemove<T>(s: seq<ListEntry<T>>, k: nat)
    requires Distinct(s) && k < |s|
    ensures Distinct(RemoveAt(s, k))
  {
  }

  /** `s` is a ring but for `entry`, which sits between the nodes at positions `k` and `Succ(k)`. */
  lemma Joined<T>(s: seq<ListEntry<T>>, k: nat, entry: ListEntry<T>)
    requires Distinct(s) && k < |s| && entry !in s
    requires entry.ForwardLink == s[Succ(k, |s|)] && entry.BackLink == s[k]
    requires s[k].ForwardLink == entry && s[Succ(k, |s|)].BackLink == entry
    requires forall i {:trigger s[i].ForwardLink} :: 0 <= i < |s| && i != k ==> s[i].ForwardLink == s[Succ(i, |s|)]
    requires forall i {:trigger s[i].BackLink} :: 0 <= i < |s| && i != Succ(k, |s|) ==> s[i].BackLink == s[Pred(i, |s|)]
    ensures Ring(InsertAt(s, k + 1, entry))
  {
    var t := InsertAt(s, k + 1, entry);
    DistinctInsert(s, k + 1, entry);
    forall i | 0 <= i < |t|
      ensures t[i].ForwardLink == t[Succ(i, |t|)] && t[i].BackLink == t[Pred(i, |t|)]
    {
      if i != k + 1 {
        var at := if i < k + 1 then i else i - 1;
        assert t[i] == s[at];
      }
    }
  }

  /** `s` is a ring but for its node at `k`, whose neighbours are linked to each other. */
  lemma Parted<T>(s: seq<ListEntry<T>>, k: nat)
    requires Distinct(s) && k < |s| && |s| > 1
    requires s[Pred(k, |s|)].ForwardLink == s[Succ(k, |s|)] && s[Succ(k, |s|)].BackLink == s[Pred(k, |s|)]
    requires forall i {:trigger s[i].ForwardLink} :: 0 <= i < |s| && i != Pred(k, |s|) ==>
               s[i].ForwardLink == s[Succ(i, |s|)]
    requires forall i {:trigger s[i].BackLink} :: 0 <= i < |s| && i != Succ(k, |s|) ==> s[i].BackLink == s[Pred(i, |s|)]
    ensures Ring(RemoveAt(s, k))
  {
    hide Distinct;
    var t := RemoveAt(s, k);
    DistinctRemove(s, k);
    forall i | 0 <= i < |t|
      ensures t[i].ForwardLink == t[Succ(i, |t|)] && t[i].BackLink == t[Pred(i, |t|)]
    {
      PartedAt(s, k, i);
    }
  }

  /** The links of one node of such a ring. */
  lemma PartedAt<T>(s: seq<ListEntry<T>>, k: nat, i: nat)
    requires k < |s| && i < |s| - 1
    requires s[Pred(k, |s|)].ForwardLink == s[Succ(k, |s|)] && s[Succ(k, |s|)].BackLink == s[Pred(k, |s|)]
    requires forall i {:trigger s[i].ForwardLink} ::
               0 <= i < |s| && i != Pred(k, |s|) ==> s[i].ForwardLink == s[Succ(i, |s|)]
    requires forall i {:trigger s[i].BackLink} ::
               0 <= i < |s| && i != Succ(k, |s|) ==> s[i].BackLink == s[Pred(i, |s|)]
    ensures var t := RemoveAt(s, k);
            t[i].ForwardLink == t[Succ(i, |t|)] && t[i].BackLink == t[Pred(i, |t|)]
  {
    var at := if i < k then i else i + 1;
    assert RemoveAt(s, k)[i] == s[at];
  }

  /** LinkedList.c, InsertHeadList: `entry` becomes the successor of `listHead`. */
  method InsertHeadList<T>(listHead: ListEntry<T>, entry: ListEntry<T>, ghost s: seq<ListEntry<T>>, ghost k: nat)
    returns (r: ListEntry<T>)
    requires Ring(s) && k < |s| && s[k] == listHead && entry !in s
    modifies s`ForwardLink, s`BackLink, entry`ForwardLink, entry`BackLink
    ensures r == listHead && Ring(InsertAt(s, k + 1, entry))
  {
    assert s[k].ForwardLink == s[Succ(k, |s|)] && s[k].BackLink == s[Pred(k, |s|)];
    entry.ForwardLink := listHead.ForwardLink;
    entry.BackLink := listHead;
    entry.ForwardLink.BackLink := entry;
    listHead.ForwardLink := entry;
    r := listHead;
    Joined(s, k, entry);
  }

  /** LinkedList.c, InsertTailList: `entry` becomes the predecessor of `listHead`. */
  method InsertTailList<T>(listHead: ListEntry<T>, entry: ListEntry<T>, ghost s: seq<ListEntry<T>>, ghost k: nat)
    returns (r: ListEntry<T>)
    requires Ring(s) && k < |s| && s[k] == listHead && entry !in s
    modifies s`ForwardLink, s`BackLink, entry`ForwardLink, entry`BackLink
    ensures r == listHead && Ring(InsertAt(s, k, entry))
  {
    assert s[k].ForwardLink == s[Succ(k, |s|)] && s[k].BackLink == s[Pred(k, |s|)];
    entry.ForwardLink := listHead;
    entry.BackLink := listHead.BackLink;
    entry.BackLink.ForwardLink := entry;
    listHead.BackLink := entry;
    r := listHead;
    assert Succ(Pred(k, |s|), |s|) == k;
    Joined(s, Pred(k, |s|), entry);
    if k == 0 {
      RingRotate(InsertAt(s, |s|, entry), |s|);
      assert Rotate(InsertAt(s, |s|, entry), |s|) == InsertAt(s, 0, entry);
    }
  }

  /** LinkedList.c, RemoveEntryList: unlinks `entry`; its successor is returned. */
  method RemoveEntryList<T>(entry: ListEntry<T>, ghost s: seq<ListEntry<T>>, ghost k: nat)
    returns (r: ListEntry<T>)
    requires Ring(s) && k < |s| && s[k] == entry && |s| > 1
    modifies s`ForwardLink, s`BackLink
    ensures Ring(RemoveAt(s, k))
    ensures r == s[Succ(k, |s|)]
    ensures entry.ForwardLink == old(entry.ForwardLink) && entry.BackLink == old(entry.BackLink)
  {
    assert s[k].ForwardLink == s[Succ(k, |s|)] && s[k].BackLink == s[Pred(k, |s|)];
    entry.ForwardLink.BackLink := entry.BackLink;
    entry.BackLink.ForwardLink := entry.ForwardLink;
    r := entry.ForwardLink;
    Parted(s, k);
  }

  /** LinkedList.c, IsNodeInList: the do-while walk finds exactly the members of the ring. */
  method IsNodeInList<T>(first: ListEntry<T>, second: ListEntry<T>, ghost s: seq<ListEntry<T>>)
    returns (found: bool)
    requires Ring(s) && s[0] == first
    ensures found <==> second in s
  {
    var ptr := first.ForwardLink;
    ghost var k := if |s| == 1 then 0 else 1;
    if ptr == second {
      return true;
    }
    while ptr != first
      invariant 0 <= k < |s| && ptr == s[k]
      invariant second !in s[1..k + 1]
      invariant k == 0 ==> second !in s
      decreases if k == 0 then 0 else |s| - k
    {
      ptr := ptr.ForwardLink;
      if ptr == second {
        return true;
      }
      ghost var next := if k + 1 == |s| then 0 else k + 1;
      if next == 0 {
        assert s == [s[0]] + s[1..k + 1];
      } else {
        assert s[1..next + 1] == s[1..k + 1] + [s[next]];
      }
      k := next;
    }
    return false;
  }

  /** Rotating a ring to start at `i`, exchanging, and rotating back is exchanging in place. */
  lemma ExchangeInRotation<T>(s: seq<T>, i: nat, j: nat)
    requires i < |s| && j < |s| && i != j
    ensures var d := if j > i then j - i else |s| - i + j;
            && 0 < d < |s| && Rotate(s, i)[0] == s[i] && Rotate(s, i)[d] == s[j]
            && Rotate(Rotate(s, i)[0 := s[j]][d := s[i]], if i == 0 then 0 else |s| - i) == s[i := s[j]][j := s[i]]
  {
  }

  /** LinkedList.c, SwapListEntries: the two nodes trade places and no other node moves, whether
      or not they are neighbours.  `s` is the ring and `i`, `j` the positions of the two nodes. */
  method SwapListEntries<T>(first: ListEntry<T>, second: ListEntry<T>,
                            ghost s: seq<ListEntry<T>>, ghost i: nat, ghost j: nat)
    returns (r: ListEntry<T>)
    requires Ring(s) && i < |s| && j < |s| && s[i] == first && s[j] == second
    modifies s`ForwardLink, s`BackLink
    ensures r == second
    ensures Ring(s[i := second][j := first])
  {
    if first == second {
      assert s[i := second][j := first] == s;
      return second;
    }
    ghost var t := Rotate(s, i);
    ghost var d := if j > i then j - i else |s| - i + j;
    RingRotate(s, i);
    ExchangeInRotation<ListEntry<T>>(s, i, j);
    r := SwapFirst(first, second, t, d);
    ghost var exchanged: seq<ListEntry<T>> := t[0 := second][d := first];
    RingRotate(exchanged, if i == 0 then 0 else |s| - i);
  }

  /** The sequences SwapFirst goes through, in its three cases: `first` follows `second`,
      `second` follows `first`, and the two are apart. */
  lemma FirstAfterSecond<T>(t: seq<T>, d: nat)
    requires 0 < d == |t| - 1
    ensures Rotate(InsertAt(RemoveAt(t, 0), d - 1, t[0]), d) == t[0 := t[d]][d := t[0]]
  {
  }

  lemma SecondAfterFirst<T>(t: seq<T>)
    requires 1 < |t|
    ensures InsertAt(RemoveAt(t, 0), 1, t[0]) == t[0 := t[1]][1 := t[0]]
  {
  }

  lemma Apart<T>(t: seq<T>, d: nat)
    requires 1 < d < |t|
    ensures var v := InsertAt(RemoveAt(t, 0), d, t[0]);
            v[0] == t[1] && v[d - 1] == t[d] && InsertAt(RemoveAt(v, d - 1), 0, t[d]) == t[0 := t[d]][d := t[0]]
  {
  }

  /** SwapListEntries on a ring listed from the first of the two nodes. */
  method SwapFirst<T>(first: ListEntry<T>, second: ListEntry<T>, ghost t: seq<ListEntry<T>>, ghost d: nat)
    returns (r: ListEntry<T>)
    requires Ring(t) && 0 < d < |t| && t[0] == first && t[d] == second
    modifies t`ForwardLink, t`BackLink
    ensures r == second
    ensures Ring(t[0 := second][d := first])
  {
    ghost var u := RemoveAt(t, 0);
    var ptr := RemoveEntryList(first, t, 0);
    if ptr.BackLink == second {
      assert d == |t| - 1 by { assert u[0].BackLink == u[Pred(0, |u|)]; }
      r := InsertTailList(second, first, u, d - 1);
      FirstAfterSecond<ListEntry<T>>(t, d);
      RingRotate(InsertAt(u, d - 1, first), d);
    } else {
      r := InsertAfterThenMove(first, second, ptr, t, d);
    }
  }

  /** SwapListEntries once `first` is out of the ring and does not follow `second`. */
  method InsertAfterThenMove<T>(first: ListEntry<T>, second: ListEntry<T>, ptr: ListEntry<T>,
                                ghost t: seq<ListEntry<T>>, ghost d: nat)
    returns (r: ListEntry<T>)
    requires 0 < d < |t| && Distinct(t) && t[0] == first && t[d] == second && ptr == t[1]
    requires Ring(RemoveAt(t, 0))
    modifies t`ForwardLink, t`BackLink
    ensures r == second
    ensures Ring(t[0 := second][d := first])
  {
    ghost var u := RemoveAt(t, 0);
    var after := InsertHeadList(second, first, u, d - 1);
    if ptr == after {
      SecondAfterFirst<ListEntry<T>>(t);
      return ptr;
    }
    Apart<ListEntry<T>>(t, d);
    ghost var v := InsertAt(u, d, first);
    ghost var w := RemoveAt(v, d - 1);
    var _ := RemoveEntryList(second, v, d - 1);
    var _ := InsertTailList(ptr, second, w, 0);
    return second;
  }
}
