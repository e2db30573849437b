/** The entries of a GCD map as values (Gcd.h, EFI_GCD_MAP_ENTRY), the address-to-record function
    an entry list stands for, and the canonical form of a list. */
module GcdEntries {

  /** the largest space CoreInitializeGcdServices can set up: 1 shifted left by at most 63 */
  const SPACE_MAX: nat := 0x8000_0000_0000_0000

  /** 'g', 'c', 'd', 'm' packed by SIGNATURE_32 */
  const GCD_MAP_SIGNATURE: nat := 0x6d646367

  /** What the map records about an address.  Handles are numbers, 0 standing for NULL. */
  datatype SpaceRecord = SpaceRecord(
    Capabilities: bv64,
    Attributes: bv64,
    GcdMemoryType: int,
    GcdIoType: int,
    ImageHandle: nat,
    DeviceHandle: nat)

  /** A record together with the closed address interval it holds for. */
  datatype MapEntry = MapEntry(Signature: nat, BaseAddress: nat, EndAddress: nat, Space: SpaceRecord)

  ghost predicate Holds(e: MapEntry, x: int) {
    e.BaseAddress <= x <= e.EndAddress
  }

  /** The entries tile [lo, hi): sorted, gap-free, non-overlapping and none of them empty. */
  ghost predicate Tiles(es: seq<MapEntry>, lo: int, hi: int) {
    if es == [] then lo == hi
    else
      var last := es[|es| - 1];
      && last.BaseAddress <= last.EndAddress && last.EndAddress + 1 == hi
      && Tiles(es[..|es| - 1], lo, last.BaseAddress)
  }

  /** What a list records about an address: the record of the last entry starting at or below it,
      which in a tiling is the entry that holds it (RecordIs). */
  ghost function RecordAt(es: seq<MapEntry>, x: int): SpaceRecord {
    if es == [] then NOTHING
    else if es[|es| - 1].BaseAddress <= x then es[|es| - 1].Space
    else RecordAt(es[..|es| - 1], x)
  }

  const NOTHING := SpaceRecord(0, 0, 0, 0, 0, 0)

  /** Both lists record the same about every address in [lo, hi). */
  ghost predicate SameRecords(a: seq<MapEntry>, b: seq<MapEntry>, lo: int, hi: int) {
    forall x :: lo <= x < hi ==> RecordAt(a, x) == RecordAt(b, x)
  }

  /** No two neighbours agree on everything the merge step compares. */
  ghost predicate Canonical(es: seq<MapEntry>) {
    forall i, j :: 0 <= i < j < |es| && j == i + 1 ==> es[i].Space != es[j].Space
  }

  ghost predicate Signed(es: seq<MapEntry>) {
    forall i :: 0 <= i < |es| ==> es[i].Signature == GCD_MAP_SIGNATURE
  }

  /** An unowned address has no device either. */
  ghost predicate HandlesPaired(es: seq<MapEntry>) {
    forall i :: 0 <= i < |es| && es[i].Space.ImageHandle == 0 ==> es[i].Space.DeviceHandle == 0
  }

  /** The invariant of a GCD map over the space [0, limit). */
  ghost predicate MapInvariant(es: seq<MapEntry>, limit: nat) {
    && 0 < limit <= SPACE_MAX
    && Tiles(es, 0, limit)
    && Canonical(es)
    && Signed(es)
    && HandlesPaired(es)
  }

  // ---------- tilings ----------

  /** Where the `k`-th entry of a tiling ending at `hi` starts. */
  ghost function Start(es: seq<MapEntry>, k: nat, hi: int): int
    requires k <= |es|
  {
    if k < |es| then es[k].BaseAddress else hi
  }

  lemma {:induction false} TilesSplit(es: seq<MapEntry>, lo: int, hi: int, k: nat)
    requires Tiles(es, lo, hi) && k <= |es|
    ensures Tiles(es[..k], lo, Start(es, k, hi)) && Tiles(es[k..], Start(es, k, hi), hi)
  {
    var n := |es|;
    if k == n {
      assert es[..n] == es;
    } else {
      TilesSplit(es[..n - 1], lo, es[n - 1].BaseAddress, k);
      assert es[..n - 1][..k] == es[..k] && es[k..][..n - 1 - k] == es[..n - 1][k..];
    }
  }

  lemma {:induction false} TilesConcat(a: seq<MapEntry>, b: seq<MapEntry>, lo: int, mid: int, hi: int)
    requires Tiles(a, lo, mid) && Tiles(b, mid, hi)
    ensures Tiles(a + b, lo, hi)
    decreases |b|
  {
    if b == [] {
      assert a + b == a;
    } else {
      TilesConcat(a, b[..|b| - 1], lo, mid, b[|b| - 1].BaseAddress);
      assert (a + b)[..|a + b| - 1] == a + b[..|b| - 1];
    }
  }

  /** Every entry of a tiling is a non-empty interval inside it that ends where the next one starts. */
  lemma {:induction false} TilesEntry(es: seq<MapEntry>, lo: int, hi: int, i: nat)
    requires Tiles(es, lo, hi) && i < |es|
    ensures lo <= es[i].BaseAddress <= es[i].EndAddress < hi
    ensures es[i].EndAddress + 1 == Start(es, i + 1, hi)
    ensures i == 0 ==> es[i].BaseAddress == lo
  {
    var n := |es|;
    if i < n - 1 {
      TilesEntry(es[..n - 1], lo, es[n - 1].BaseAddress, i);
    } else {
      TilesNotBackwards(es[..n - 1], lo, es[n - 1].BaseAddress);
    }
  }

  lemma {:induction false} TilesNotBackwards(es: seq<MapEntry>, lo: int, hi: int)
    requires Tiles(es, lo, hi)
    ensures lo <= hi
  {
    if es != [] { TilesNotBackwards(es[..|es| - 1], lo, es[|es| - 1].BaseAddress); }
  }

  lemma TilesOrdered(es: seq<MapEntry>, lo: int, hi: int, i: nat, j: nat)
    requires Tiles(es, lo, hi) && i < j < |es|
    ensures es[i].EndAddress < es[j].BaseAddress
  {
    TilesSplit(es, lo, hi, j);
    TilesEntry(es[..j], lo, es[j].BaseAddress, i);
  }

  lemma TilesHoldOnce(es: seq<MapEntry>, lo: int, hi: int, i: nat, j: nat, x: int)
    requires Tiles(es, lo, hi) && i < |es| && j < |es| && Holds(es[i], x) && Holds(es[j], x)
    ensures i == j
  {
    if i < j { TilesOrdered(es, lo, hi, i, j); }
    if j < i { TilesOrdered(es, lo, hi, j, i); }
  }

  /** Each address of the tiled interval is held by an entry. */
  lemma {:induction false} EntryAt(es: seq<MapEntry>, lo: int, hi: int, x: int) returns (k: nat)
    requires Tiles(es, lo, hi) && lo <= x < hi
    ensures k < |es| && Holds(es[k], x)
  {
    k := |es| - 1;
    if x < es[k].BaseAddress {
      k := EntryAt(es[..k], lo, es[k].BaseAddress, x);
    }
  }

  lemma {:induction false} RecordIs(es: seq<MapEntry>, lo: int, hi: int, k: nat, x: int)
    requires Tiles(es, lo, hi) && k < |es| && Holds(es[k], x)
    ensures lo <= x < hi && RecordAt(es, x) == es[k].Space
  {
    TilesEntry(es, lo, hi, k);
    var n := |es| - 1;
    if k < n {
      TilesOrdered(es, lo, hi, k, n);
      RecordIs(es[..n], lo, es[n].BaseAddress, k, x);
    }
  }

  lemma {:induction false} RecordConcat(a: seq<MapEntry>, b: seq<MapEntry>, mid: int, hi: int, x: int)
    requires Tiles(b, mid, hi)
    ensures RecordAt(a + b, x) == if x < mid || b == [] then RecordAt(a, x) else RecordAt(b, x)
    decreases |b|
  {
    if b == [] {
      assert a + b == a;
    } else {
      var n := |b| - 1;
      assert (a + b)[..|a + b| - 1] == a + b[..n];
      RecordConcat(a, b[..n], mid, b[n].BaseAddress, x);
      TilesNotBackwards(b[..n], mid, b[n].BaseAddress);
    }
  }

  /** A stretch of a tiling can be exchanged for another one that records the same. */
  lemma Exchange(p: seq<MapEntry>, a: seq<MapEntry>, b: seq<MapEntry>, r: seq<MapEntry>, lo: int, l: int, m: int,
                 hi: int)
    requires Tiles(p, lo, l) && Tiles(a, l, m) && Tiles(b, l, m) && Tiles(r, m, hi) && SameRecords(a, b, l, m)
    ensures Tiles(p + a + r, lo, hi) && Tiles(p + b + r, lo, hi) && SameRecords(p + a + r, p + b + r, lo, hi)
  {
    TilesConcat(p, a, lo, l, m);
    TilesConcat(p + a, r, lo, m, hi);
    TilesConcat(p, b, lo, l, m);
    TilesConcat(p + b, r, lo, m, hi);
    TilesNotBackwards(r, m, hi);
    forall x | lo <= x < hi ensures RecordAt(p + a + r, x) == RecordAt(p + b + r, x) {
      RecordConcat(p + a, r, m, hi, x);
      RecordConcat(p + b, r, m, hi, x);
      RecordConcat(p, a, l, m, x);
      RecordConcat(p, b, l, m, x);
    }
  }

  // ---------- the canonical form is unique ----------

  /** Starting their entries `i` at the same address, two canonical tilings of the same function
      also end them at the same address. */
  lemma SameEnd(a: seq<MapEntry>, b: seq<MapEntry>, lo: int, hi: int, i: nat)
    requires Tiles(a, lo, hi) && Tiles(b, lo, hi) && Canonical(a) && SameRecords(a, b, lo, hi)
    requires i < |a| && i < |b| && a[i].BaseAddress == b[i].BaseAddress
    ensures a[i].Space == b[i].Space && a[i].EndAddress >= b[i].EndAddress
  {
    TilesEntry(a, lo, hi, i);
    TilesEntry(b, lo, hi, i);
    RecordIs(a, lo, hi, i, a[i].BaseAddress);
    RecordIs(b, lo, hi, i, a[i].BaseAddress);
    if a[i].EndAddress < b[i].EndAddress {
      var y := a[i].EndAddress + 1;
      assert a[i].Space != a[i + 1].Space;
      TilesEntry(a, lo, hi, i + 1);
      RecordIs(b, lo, hi, i, y);
      RecordIs(a, lo, hi, i + 1, y);
    }
  }

  lemma {:induction false} SamePrefix(a: seq<MapEntry>, b: seq<MapEntry>, lo: int, hi: int, n: nat)
    requires Tiles(a, lo, hi) && Tiles(b, lo, hi) && Canonical(a) && Canonical(b)
    requires SameRecords(a, b, lo, hi) && Signed(a) && Signed(b)
    requires n <= |a| && n <= |b|
    ensures a[..n] == b[..n]
  {
    if n > 0 {
      SamePrefix(a, b, lo, hi, n - 1);
      TilesEntry(a, lo, hi, 0);
      TilesEntry(b, lo, hi, 0);
      if n > 1 {
        assert a[n - 2] == a[..n - 1][n - 2] == b[..n - 1][n - 2] == b[n - 2];
        TilesEntry(a, lo, hi, n - 2);
        TilesEntry(b, lo, hi, n - 2);
      }
      SameEnd(a, b, lo, hi, n - 1);
      SameEnd(b, a, lo, hi, n - 1);
      assert a[..n] == a[..n - 1] + [a[n - 1]] && b[..n] == b[..n - 1] + [b[n - 1]];
    }
  }

  /** Two canonical lists for the same address-to-record function are the same list: a canonical
      list is the coarsest partition its function has. */
  lemma CanonicalUnique(a: seq<MapEntry>, b: seq<MapEntry>, lo: int, hi: int)
    requires Tiles(a, lo, hi) && Tiles(b, lo, hi) && Canonical(a) && Canonical(b)
    requires SameRecords(a, b, lo, hi) && Signed(a) && Signed(b)
    ensures a == b
  {
    var n := if |a| <= |b| then |a| else |b|;
    SamePrefix(a, b, lo, hi, n);
    TilesSplit(a, lo, hi, n);
    TilesSplit(b, lo, hi, n);
    if n < |a| { TilesEntry(a, lo, hi, n); TilesEndUnique(a[..n], lo, a[n].BaseAddress, hi); }
    if n < |b| { TilesEntry(b, lo, hi, n); TilesEndUnique(a[..n], lo, b[n].BaseAddress, hi); }
    assert a[..|a|] == a && b[..|b|] == b;
  }

  lemma TilesEndUnique(es: seq<MapEntry>, lo: int, hi: int, hi': int)
    requires Tiles(es, lo, hi) && Tiles(es, lo, hi')
    ensures hi == hi'
  {
  }

  // ---------- lengths ----------

  ghost function TotalLength(es: seq<MapEntry>): int {
    if es == [] then 0
    else TotalLength(es[..|es| - 1]) + (es[|es| - 1].EndAddress - es[|es| - 1].BaseAddress + 1)
  }

  /** The lengths a map reports always add up to the size of the space. */
  lemma {:induction false} LengthsAddUp(es: seq<MapEntry>, lo: int, hi: int)
    requires Tiles(es, lo, hi)
    ensures TotalLength(es) == hi - lo
  {
    if es != [] {
      LengthsAddUp(es[..|es| - 1], lo, es[|es| - 1].BaseAddress);
    }
  }
}
