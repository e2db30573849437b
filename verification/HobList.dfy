/** HobLibHost.c: the append-only list of hand-off blocks in a 64 KB buffer.  Addresses in the buffer are
    offsets; only the field EfiEndOfHobList holds a whole address. */
module HobList {
  import opened Efi

  const SIZE_64KB: nat := 0x1_0000
  /** sizeof (EFI_HOB_GENERIC_HEADER): type and length, 16 bits each, and 32 reserved bits */
  const HEADER_SIZE: nat := 8
  /** the part of the header a walk reads: type and length */
  const WALKED_SIZE: nat := 4
  /** sizeof (EFI_HOB_HANDOFF_INFO_TABLE), and where EfiEndOfHobList is in it */
  const HANDOFF_SIZE: nat := 56
  const END_FIELD: nat := 48

  const HOB_TYPE_HANDOFF: nat := 1
  const HOB_TYPE_GUID_EXTENSION: nat := 4
  const HOB_TYPE_END_OF_HOB_LIST: nat := 0xFFFF

  const HANDOFF_TABLE_VERSION: nat := 9
  const BOOT_WITH_FULL_CONFIGURATION: nat := 0
  const GUID_SIZE: nat := 16

  /** No pool is so high up that the end of the buffer and one more block wrap around. */
  const TOP_SIZE: nat := 2 * SIZE_64KB + HEADER_SIZE

  datatype Hob = Hob(Type: nat, Length: nat)

  // ---------- fields ----------

  function Get16(b: seq<Byte>, o: nat): nat
    requires o + 2 <= |b|
  {
    b[o] + 0x100 * (b[o + 1] as int)
  }

  function Get32(b: seq<Byte>, o: nat): nat
    requires o + 4 <= |b|
  {
    Get16(b, o) + 0x1_0000 * Get16(b, o + 2)
  }

  function Get64(b: seq<Byte>, o: nat): nat
    requires o + 8 <= |b|
  {
    Get32(b, o) + UINT32_RANGE * Get32(b, o + 4)
  }

  /** `b` and `c` are the same outside [from, to). */
  ghost predicate SameOutside(b: seq<Byte>, c: seq<Byte>, from: nat, to: nat) {
    |b| == |c| && forall o :: 0 <= o < |b| && !(from <= o < to) ==> b[o] == c[o]
  }

  /** The lowest `n` bytes of a number, the lowest first. */
  ghost function LittleEndian(v: nat, n: nat): (b: seq<Byte>)
    ensures |b| == n
  {
    if n == 0 then [] else [v % 0x100] + LittleEndian(v / 0x100, n - 1)
  }

  lemma TwoBytes(v: nat)
    requires v < 0x1_0000
    ensures LittleEndian(v, 2) == [v % 0x100, v / 0x100]
  {
    assert LittleEndian(v, 2) == [v % 0x100] + ([v / 0x100 % 0x100] + LittleEndian(v / 0x100 / 0x100, 0));
  }

  /** Written in two halves. */
  lemma FourBytes(v: nat)
    ensures LittleEndian(v, 4) == LittleEndian(v % 0x1_0000, 2) + LittleEndian(v / 0x1_0000, 2)
  {
    hide LittleEndian;
    BytesNext(v, 3);
    BytesNext(v / 0x100, 2);
    BytesNext(v % 0x1_0000, 1);
    BytesNext(v % 0x1_0000 / 0x100, 0);
    assert v / 0x100 / 0x100 == v / 0x1_0000 && v % 0x1_0000 % 0x100 == v % 0x100;
    assert v % 0x1_0000 / 0x100 % 0x100 == v / 0x100 % 0x100;
  }

  lemma BytesNext(v: nat, n: nat)
    ensures LittleEndian(v, n + 1) == [v % 0x100] + LittleEndian(v / 0x100, n)
    ensures LittleEndian(v, 0) == []
  {
  }

  lemma EightBytes(v: nat)
    ensures LittleEndian(v, 8) == LittleEndian(v % UINT32_RANGE, 4) + LittleEndian(v / UINT32_RANGE, 4)
  {
    hide LittleEndian;
    FourMore(v, 4);
    FourLow(v);
    FourUp(v);
  }

  lemma FourUp(v: nat)
    ensures v / 0x100 / 0x100 / 0x100 / 0x100 == v / UINT32_RANGE
  {
    assert v / 0x100 / 0x100 == v / 0x1_0000;
    assert v / 0x1_0000 / 0x100 == v / 0x100_0000;
  }

  lemma FourLow(v: nat)
    ensures LittleEndian(v % UINT32_RANGE, 4)
            == [v % 0x100, v / 0x100 % 0x100, v / 0x100 / 0x100 % 0x100, v / 0x100 / 0x100 / 0x100 % 0x100]
  {
    hide LittleEndian;
    var w, x, y := v / 0x100, v / 0x100 / 0x100, v / 0x100 / 0x100 / 0x100;
    LowOfFour(v);
    LowOfThree(w);
    LowOfTwo(x);
    BytesNext(v % UINT32_RANGE, 3);
    BytesNext(w % 0x100_0000, 2);
    BytesNext(x % 0x1_0000, 1);
    BytesNext(y % 0x100, 0);
  }

  lemma LowOfFour(v: nat)
    ensures v % UINT32_RANGE % 0x100 == v % 0x100 && v % UINT32_RANGE / 0x100 == v / 0x100 % 0x100_0000
  {
    var q, w := v / UINT32_RANGE, v % UINT32_RANGE;
    assert v == 0x100 * (0x100_0000 * q + w / 0x100) + w % 0x100;
    assert v / 0x100 == 0x100_0000 * q + w / 0x100 && w / 0x100 < 0x100_0000;
  }

  lemma LowOfThree(v: nat)
    ensures v % 0x100_0000 % 0x100 == v % 0x100 && v % 0x100_0000 / 0x100 == v / 0x100 % 0x1_0000
  {
  }

  lemma LowOfTwo(v: nat)
    ensures v % 0x1_0000 % 0x100 == v % 0x100 && v % 0x1_0000 / 0x100 == v / 0x100 % 0x100
  {
  }

  lemma FourMore(v: nat, n: nat)
    ensures LittleEndian(v, n + 4)
            == [v % 0x100, v / 0x100 % 0x100, v / 0x100 / 0x100 % 0x100, v / 0x100 / 0x100 / 0x100 % 0x100]
               + LittleEndian(v / 0x100 / 0x100 / 0x100 / 0x100, n)
    ensures LittleEndian(v, 0) == []
  {
    hide LittleEndian;
    BytesNext(v, n + 3);
    BytesNext(v / 0x100, n + 2);
    BytesNext(v / 0x100 / 0x100, n + 1);
    BytesNext(v / 0x100 / 0x100 / 0x100, n);
  }

  /** `b` and `c` are the same but for the field EfiEndOfHobList and the two headers at `at` and `marker`. */
  ghost predicate SameBut(b: seq<Byte>, c: seq<Byte>, at: nat, marker: nat) {
    && |b| == |c|
    && forall o :: 0 <= o < |b| ==> 48 <= o < 56 || at <= o < at + 8 || marker <= o < marker + 8 || c[o] == b[o]
  }

  method Put16(a: array<Byte>, o: nat, v: nat)
    requires o + 2 <= a.Length && v < 0x1_0000
    modifies a
    ensures Get16(a[..], o) == v && SameOutside(old(a[..]), a[..], o, o + 2)
    ensures a[o..o + 2] == LittleEndian(v, 2)
  {
    a[o], a[o + 1] := v % 0x100, v / 0x100;
    TwoBytes(v);
  }

  method Put32(a: array<Byte>, o: nat, v: nat)
    requires o + 4 <= a.Length && v < UINT32_RANGE
    modifies a
    ensures Get32(a[..], o) == v && SameOutside(old(a[..]), a[..], o, o + 4)
    ensures a[o..o + 4] == LittleEndian(v, 4)
  {
    Put16(a, o, v % 0x1_0000);
    ghost var b := a[..];
    Put16(a, o + 2, v / 0x1_0000);
    SliceKept(b, a[..], o + 2, o + 4, o, o + 2);
    SlicesJoin(a[..], o, o + 2, o + 4);
    FourBytes(v);
  }

  method Put64(a: array<Byte>, o: nat, v: nat)
    requires o + 8 <= a.Length && v < UINT64_RANGE
    modifies a
    ensures Get64(a[..], o) == v && SameOutside(old(a[..]), a[..], o, o + 8)
    ensures a[o..o + 8] == LittleEndian(v, 8)
  {
    Put32(a, o, v % UINT32_RANGE);
    ghost var b := a[..];
    Put32(a, o + 4, v / UINT32_RANGE);
    Same32(b, a[..], o + 4, o + 8, o);
    SliceKept(b, a[..], o + 4, o + 8, o, o + 4);
    SlicesJoin(a[..], o, o + 4, o + 8);
    EightBytes(v);
  }

  /** Bytes outside of what is written stay. */
  lemma SliceKept(b: seq<Byte>, c: seq<Byte>, from: nat, to: nat, m: nat, n: nat)
    requires SameOutside(b, c, from, to) && m <= n <= |b| && (n <= from || to <= m)
    ensures c[m..n] == b[m..n]
  {
  }

  lemma SlicesJoin(b: seq<Byte>, l: nat, m: nat, n: nat)
    requires l <= m <= n <= |b|
    ensures b[l..n] == b[l..m] + b[m..n]
  {
  }

  // ---------- blocks one after the other ----------

  /** Where block `k` starts; for k == |hobs|, where the list ends. */
  ghost function Offset(hobs: seq<Hob>, k: nat): nat
    requires k <= |hobs|
  {
    if k == 0 then 0 else Offset(hobs, k - 1) + hobs[k - 1].Length
  }

  ghost function End(hobs: seq<Hob>): nat {
    Offset(hobs, |hobs|)
  }

  ghost predicate HeaderAt(b: seq<Byte>, o: nat, h: Hob) {
    o + HEADER_SIZE <= |b| && Get16(b, o) == h.Type && Get16(b, o + 2) == h.Length
  }

  /** A block a walk by HobLength can meet: its length covers type and length, and it does not look like
      the end. */
  predicate IsProper(h: Hob) {
    h.Length >= WALKED_SIZE && h.Type != HOB_TYPE_END_OF_HOB_LIST
  }

  ghost predicate Proper(hobs: seq<Hob>) {
    forall k :: 0 <= k < |hobs| ==> IsProper(hobs[k])
  }

  /** `b` holds the blocks `hobs`, in this order, and then the end marker. */
  ghost predicate Laid(b: seq<Byte>, hobs: seq<Hob>) {
    && (forall k :: 0 <= k < |hobs| ==> HeaderAt(b, Offset(hobs, k), hobs[k]))
    && HeaderAt(b, End(hobs), Hob(HOB_TYPE_END_OF_HOB_LIST, HEADER_SIZE))
  }

  lemma {:induction false} OffsetsGrow(hobs: seq<Hob>, j: nat, k: nat)
    requires Proper(hobs) && j < k <= |hobs|
    ensures Offset(hobs, j) + hobs[j].Length <= Offset(hobs, k)
    decreases k
  {
    if j < k - 1 { OffsetsGrow(hobs, j, k - 1); }
  }

  lemma {:induction false} OffsetPrefix(hobs: seq<Hob>, h: Hob, k: nat)
    requires k <= |hobs|
    ensures Offset(hobs + [h], k) == Offset(hobs, k)
  {
    if k > 0 { OffsetPrefix(hobs, h, k - 1); }
  }

  lemma HeaderKept(b: seq<Byte>, c: seq<Byte>, o: nat, h: Hob)
    requires HeaderAt(b, o, h) && |c| == |b| && forall i :: o <= i < o + 4 ==> c[i] == b[i]
    ensures HeaderAt(c, o, h)
  {
  }

  lemma HeaderStays(b: seq<Byte>, c: seq<Byte>, from: nat, to: nat, o: nat, h: Hob)
    requires HeaderAt(b, o, h) && SameOutside(b, c, from, to) && to <= o
    ensures HeaderAt(c, o, h)
  {
    hide Get16;
    Same16(b, c, from, to, o);
    Same16(b, c, from, to, o + 2);
  }

  lemma LaidAt(b: seq<Byte>, hobs: seq<Hob>, k: nat)
    requires Laid(b, hobs) && k < |hobs|
    ensures HeaderAt(b, Offset(hobs, k), hobs[k])
  {
  }

  lemma LaidEnd(b: seq<Byte>, hobs: seq<Hob>)
    requires Laid(b, hobs)
    ensures HeaderAt(b, End(hobs), Hob(HOB_TYPE_END_OF_HOB_LIST, HEADER_SIZE)) && End(hobs) + HEADER_SIZE <= |b|
  {
  }

  /** Appending: the new header where the list ended, the marker behind it, nothing else below changed
      but the field in the first block. */
  lemma LaidAppend(b: seq<Byte>, c: seq<Byte>, hobs: seq<Hob>, h: Hob)
    requires Proper(hobs) && Laid(b, hobs) && |c| == |b| && hobs != [] && hobs[0].Length == HANDOFF_SIZE
    requires forall o :: 0 <= o < End(hobs) && !(END_FIELD <= o < END_FIELD + 8) ==> c[o] == b[o]
    requires HeaderAt(c, End(hobs), h) && HeaderAt(c, End(hobs) + h.Length, Hob(HOB_TYPE_END_OF_HOB_LIST, HEADER_SIZE))
    ensures Laid(c, hobs + [h]) && End(hobs + [h]) == End(hobs) + h.Length
  {
    hide HeaderAt, Laid, Offset, Proper;
    var hs, n := hobs + [h], |hobs|;
    AppendEnd(hobs, h);
    forall k | 0 <= k < n + 1 ensures HeaderAt(c, Offset(hs, k), hs[k]) {
      OffsetPrefix(hobs, h, if k < n then k else n);
      if k < n {
        LaidAt(b, hobs, k);
        BelowEnd(hobs, k);
        HeaderKept(b, c, Offset(hobs, k), hobs[k]);
      }
    }
    LaidFrom(c, hs);
  }

  /** A shorter block does not survive the end marker behind it, which covers type or length. */
  lemma TooShort(c: seq<Byte>, hobs: seq<Hob>, h: Hob)
    requires Get16At(c, End(hobs) + h.Length, HOB_TYPE_END_OF_HOB_LIST)
    requires Get16At(c, End(hobs) + h.Length + 2, HEADER_SIZE)
    requires h.Length < WALKED_SIZE && h.Type != HOB_TYPE_END_OF_HOB_LIST
    ensures !Laid(c, hobs + [h])
  {
    hide Laid, Offset;
    ShortHeader(c, End(hobs), h);
    OffsetPrefix(hobs, h, |hobs|);
    if Laid(c, hobs + [h]) {
      LaidAt(c, hobs + [h], |hobs|);
      assert false;
    }
  }

  lemma ShortHeader(c: seq<Byte>, o: nat, h: Hob)
    requires Get16At(c, o + h.Length, HOB_TYPE_END_OF_HOB_LIST) && Get16At(c, o + h.Length + 2, HEADER_SIZE)
    requires h.Length < WALKED_SIZE && h.Type != HOB_TYPE_END_OF_HOB_LIST
    ensures !HeaderAt(c, o, h)
  {
  }

  ghost predicate Get16At(b: seq<Byte>, o: nat, v: nat) {
    o + 2 <= |b| && Get16(b, o) == v
  }

  lemma LaidFrom(b: seq<Byte>, hobs: seq<Hob>)
    requires forall k :: 0 <= k < |hobs| ==> HeaderAt(b, Offset(hobs, k), hobs[k])
    requires HeaderAt(b, End(hobs), Hob(HOB_TYPE_END_OF_HOB_LIST, HEADER_SIZE))
    ensures Laid(b, hobs)
  {
  }

  lemma AppendEnd(hobs: seq<Hob>, h: Hob)
    ensures End(hobs + [h]) == End(hobs) + h.Length
  {
    OffsetPrefix(hobs, h, |hobs|);
  }

  /** Headers are below the end, and those after the first block above it. */
  lemma BelowEnd(hobs: seq<Hob>, k: nat)
    requires Proper(hobs) && k < |hobs|
    ensures Offset(hobs, k) + WALKED_SIZE <= Offset(hobs, k) + hobs[k].Length <= End(hobs)
    ensures Offset(hobs, k) == 0 || hobs[0].Length <= Offset(hobs, k)
  {
    OffsetsGrow(hobs, k, |hobs|);
    if k > 0 { OffsetsGrow(hobs, 0, k); }
  }

  /** Writing inside the body of a block leaves the list as it is. */
  lemma LaidBody(b: seq<Byte>, c: seq<Byte>, hobs: seq<Hob>, j: nat, from: nat, to: nat)
    requires Proper(hobs) && Laid(b, hobs) && j < |hobs| && SameOutside(b, c, from, to)
    requires Offset(hobs, j) + HEADER_SIZE <= from && to <= Offset(hobs, j) + hobs[j].Length
    ensures Laid(c, hobs)
  {
    hide HeaderAt, Laid, Offset;
    BelowEnd(hobs, j);
    forall k | 0 <= k < |hobs| ensures HeaderAt(c, Offset(hobs, k), hobs[k]) {
      if j < k { OffsetsGrow(hobs, j, k); }
      if k < j { OffsetsGrow(hobs, k, j); }
      LaidAt(b, hobs, k);
      HeaderInside(b, hobs, k);
      HeaderKept(b, c, Offset(hobs, k), hobs[k]);
    }
    LaidEnd(b, hobs);
    HeaderKept(b, c, End(hobs), Hob(HOB_TYPE_END_OF_HOB_LIST, HEADER_SIZE));
    LaidFrom(c, hobs);
  }

  lemma HeaderInside(b: seq<Byte>, hobs: seq<Hob>, k: nat)
    requires k < |hobs| && HeaderAt(b, Offset(hobs, k), hobs[k])
    ensures Offset(hobs, k) + HEADER_SIZE <= |b|
  {
  }

  lemma Same16(b: seq<Byte>, c: seq<Byte>, from: nat, to: nat, o: nat)
    requires SameOutside(b, c, from, to) && o + 2 <= |b| && (o + 2 <= from || to <= o)
    ensures Get16(b, o) == Get16(c, o)
  {
  }

  lemma Same32(b: seq<Byte>, c: seq<Byte>, from: nat, to: nat, o: nat)
    requires SameOutside(b, c, from, to) && o + 4 <= |b| && (o + 4 <= from || to <= o)
    ensures Get32(b, o) == Get32(c, o)
  {
  }

  lemma SameField(b: seq<Byte>, c: seq<Byte>, from: nat, to: nat)
    requires SameOutside(b, c, from, to) && END_FIELD + 8 <= from && |b| == SIZE_64KB
    ensures Get64(b, END_FIELD) == Get64(c, END_FIELD)
  {
  }

  /** The bytes of the hand-off block, written field by field. */
  lemma HandOff(b0: seq<Byte>, b1: seq<Byte>, b2: seq<Byte>, b3: seq<Byte>, b4: seq<Byte>, b5: seq<Byte>,
                b6: seq<Byte>, b7: seq<Byte>, base: nat)
    requires |b0| == 0x1_0000 && forall o :: 0 <= o < 0x1_0000 ==> b0[o] == 0
    requires SameOutside(b0, b1, 0, 2) && b1[0..2] == LittleEndian(1, 2)
    requires SameOutside(b1, b2, 2, 4) && b2[2..4] == LittleEndian(56, 2)
    requires SameOutside(b2, b3, 8, 12) && b3[8..12] == LittleEndian(9, 4)
    requires SameOutside(b3, b4, 12, 16) && b4[12..16] == LittleEndian(0, 4)
    requires SameOutside(b4, b5, 48, 56) && b5[48..56] == LittleEndian(base + 56, 8)
    requires Get64(b5, 48) == base + 56
    requires SameOutside(b5, b6, 56, 58) && b6[56..58] == LittleEndian(0xFFFF, 2)
    requires SameOutside(b6, b7, 58, 60) && b7[58..60] == LittleEndian(8, 2)
    ensures |b7| == 0x1_0000 && b7[0..16] == [1, 0, 56, 0, 0, 0, 0, 0, 9, 0, 0, 0, 0, 0, 0, 0]
    ensures b7[48..64] == LittleEndian(base + 56, 8) + [0xFF, 0xFF, 8, 0, 0, 0, 0, 0]
    ensures forall o :: 16 <= o < 48 || 64 <= o < 0x1_0000 ==> b7[o] == 0
    ensures Get64(b7, 48) == base + 56
    ensures Get16(b7, 0) == 1 && Get16(b7, 2) == 56 && Get16(b7, 56) == 0xFFFF && Get16(b7, 58) == 8
  {
    hide LittleEndian, Get64;
    FrontBytes(b0, b1, b2, b3, b4);
    TwoBytes(0xFFFF);
    TwoBytes(8);
    var b := LittleEndian(base + 56, 8);
    assert forall o :: 48 <= o < 56 ==> b5[o] == b[o - 48];
    SameField(b5, b6, 56, 58);
    SameField(b6, b7, 58, 60);
    forall o | 16 <= o < 48 || 60 <= o < 0x1_0000 ensures b7[o] == 0 { assert b6[o] == b5[o] == b4[o] == 0; }
    assert forall o :: 48 <= o < 56 ==> b7[o] == b5[o];
    assert b7[56..58] == b6[56..58];
    assert b7[56] == 0xFF && b7[57] == 0xFF && b7[58] == 8 && b7[59] == 0;
    assert forall o :: 0 <= o < 16 ==> b7[o] == b4[o];
  }

  lemma FrontBytes(b0: seq<Byte>, b1: seq<Byte>, b2: seq<Byte>, b3: seq<Byte>, b4: seq<Byte>)
    requires |b0| == 0x1_0000 && forall o :: 0 <= o < 0x1_0000 ==> b0[o] == 0
    requires SameOutside(b0, b1, 0, 2) && b1[0..2] == LittleEndian(1, 2)
    requires SameOutside(b1, b2, 2, 4) && b2[2..4] == LittleEndian(56, 2)
    requires SameOutside(b2, b3, 8, 12) && b3[8..12] == LittleEndian(9, 4)
    requires SameOutside(b3, b4, 12, 16) && b4[12..16] == LittleEndian(0, 4)
    ensures |b4| == 0x1_0000 && b4[0..16] == [1, 0, 56, 0, 0, 0, 0, 0, 9, 0, 0, 0, 0, 0, 0, 0]
    ensures forall o :: 16 <= o < 0x1_0000 ==> b4[o] == 0
  {
    hide LittleEndian;
    TwoBytes(1);
    TwoBytes(56);
    FourMore(9, 0);
    FourMore(0, 0);
    assert b1[0] == b1[0..2][0] == 1 && b1[1] == b1[0..2][1] == 0;
    assert b2[2] == b2[2..4][0] == 56 && b2[3] == b2[2..4][1] == 0;
    assert b3[8] == b3[8..12][0] == 9 && b3[9] == b3[8..12][1] == 0;
    assert b3[10] == b3[8..12][2] == 0 && b3[11] == b3[8..12][3] == 0;
    assert b4[12] == b4[12..16][0] == 0 && b4[13] == b4[12..16][1] == 0;
    assert b4[14] == b4[12..16][2] == 0 && b4[15] == b4[12..16][3] == 0;
  }

  lemma FirstBlock(b: seq<Byte>)
    requires |b| == SIZE_64KB && Get16(b, 0) == HOB_TYPE_HANDOFF && Get16(b, 2) == HANDOFF_SIZE
    requires Get16(b, HANDOFF_SIZE) == HOB_TYPE_END_OF_HOB_LIST && Get16(b, HANDOFF_SIZE + 2) == HEADER_SIZE
    ensures var hobs := [Hob(HOB_TYPE_HANDOFF, HANDOFF_SIZE)];
            Proper(hobs) && Laid(b, hobs) && End(hobs) == HANDOFF_SIZE
  {
  }

  lemma HeaderIs(b: seq<Byte>, o: nat, h: Hob)
    requires HeaderAt(b, o, h)
    ensures Get16At(b, o, h.Type) && Get16At(b, o + 2, h.Length)
  {
  }

  /** The marker again where it was. */
  lemma LaidAgain(b: seq<Byte>, c: seq<Byte>, hobs: seq<Hob>)
    requires Proper(hobs) && Laid(b, hobs) && |c| == |b| && hobs != [] && hobs[0].Length == HANDOFF_SIZE
    requires forall o :: 0 <= o < End(hobs) && !(END_FIELD <= o < END_FIELD + 8) ==> c[o] == b[o]
    requires HeaderAt(c, End(hobs), Hob(HOB_TYPE_END_OF_HOB_LIST, HEADER_SIZE))
    ensures Laid(c, hobs)
  {
    hide HeaderAt, Laid, Offset;
    forall k | 0 <= k < |hobs| ensures HeaderAt(c, Offset(hobs, k), hobs[k]) {
      LaidAt(b, hobs, k);
      BelowEnd(hobs, k);
      HeaderKept(b, c, Offset(hobs, k), hobs[k]);
    }
    LaidFrom(c, hobs);
  }

  /** An end type stays one under the marker. */
  lemma MarkerCovers(d: seq<Byte>, c: seq<Byte>, at: nat, length: nat)
    requires Get16At(d, at, HOB_TYPE_END_OF_HOB_LIST) && SameOutside(d, c, at + length, at + length + HEADER_SIZE)
    requires Get16At(c, at + length, HOB_TYPE_END_OF_HOB_LIST)
    ensures Get16At(c, at, HOB_TYPE_END_OF_HOB_LIST)
  {
    assert c[at + length] == 0xFF && c[at + length + 1] == 0xFF && d[at] == 0xFF && d[at + 1] == 0xFF;
  }

  /** What the marker behind a new block leaves of it: `b` is from before the block, `d` from after its
      header was written, `c` from after the marker was. */
  lemma Created(b: seq<Byte>, d: seq<Byte>, c: seq<Byte>, hobs: seq<Hob>, h: Hob)
    requires Proper(hobs) && Laid(b, hobs) && hobs != [] && hobs[0].Length == HANDOFF_SIZE
    requires SameBut(b, c, End(hobs), End(hobs) + h.Length)
    requires HeaderAt(d, End(hobs), h) && SameOutside(d, c, End(hobs) + h.Length, End(hobs) + h.Length + HEADER_SIZE)
    requires HeaderAt(c, End(hobs) + h.Length, Hob(HOB_TYPE_END_OF_HOB_LIST, HEADER_SIZE))
    ensures IsProper(h) ==> Proper(hobs + [h]) && Laid(c, hobs + [h]) && End(hobs + [h]) == End(hobs) + h.Length
    ensures h.Length == 0 ==> Laid(c, hobs)
    ensures h.Length < WALKED_SIZE && h.Type != HOB_TYPE_END_OF_HOB_LIST ==> !Laid(c, hobs + [h])
    ensures h.Type == HOB_TYPE_END_OF_HOB_LIST ==> Get16At(c, End(hobs), HOB_TYPE_END_OF_HOB_LIST)
  {
    hide Laid, Offset, HeaderAt, Get16At;
    HeaderIs(d, End(hobs), h);
    HeaderIs(c, End(hobs) + h.Length, Hob(HOB_TYPE_END_OF_HOB_LIST, HEADER_SIZE));
    if h.Length >= WALKED_SIZE {
      HeaderKept(d, c, End(hobs), h);
      HeaderIs(c, End(hobs), h);
      LaidAppend(b, c, hobs, h);
    } else if h.Type != HOB_TYPE_END_OF_HOB_LIST {
      TooShort(c, hobs, h);
    } else {
      MarkerCovers(d, c, End(hobs), h.Length);
    }
    if h.Length == 0 { LaidAgain(b, c, hobs); }
  }

  /** The eight bytes of a header: type, length and four bytes of zero. */
  ghost function HeaderBytes(hobType: nat, length: nat): (b: seq<Byte>)
    ensures |b| == 8
  {
    LittleEndian(hobType, 2) + LittleEndian(length, 2) + [0, 0, 0, 0]
  }

  lemma MarkerBytes()
    ensures HeaderBytes(0xFFFF, 8) == [0xFF, 0xFF, 8, 0, 0, 0, 0, 0]
  {
    TwoBytes(0xFFFF);
    TwoBytes(8);
  }

  method WriteHeader(a: array<Byte>, o: nat, hobType: nat, length: nat)
    requires o + HEADER_SIZE <= a.Length && hobType < 0x1_0000 && length < 0x1_0000
    modifies a
    ensures HeaderAt(a[..], o, Hob(hobType, length)) && SameOutside(old(a[..]), a[..], o, o + HEADER_SIZE)
    ensures a[o..o + 8] == HeaderBytes(hobType, length)
  {
    hide Get32, LittleEndian;
    Put16(a, o, hobType);
    ghost var b := a[..];
    Put16(a, o + 2, length);
    ghost var c := a[..];
    Put32(a, o + 4, 0);
    SliceKept(b, c, o + 2, o + 4, o, o + 2);
    SliceKept(c, a[..], o + 4, o + 8, o, o + 2);
    SliceKept(c, a[..], o + 4, o + 8, o + 2, o + 4);
    SlicesJoin(a[..], o, o + 2, o + 8);
    SlicesJoin(a[..], o + 2, o + 4, o + 8);
    FourZeros();
  }

  lemma FourZeros()
    ensures LittleEndian(0, 4) == [0, 0, 0, 0]
  {
    FourMore(0, 0);
  }

  /** The fields of the hand-off block that InitHobPointer sets, and the end marker. */
  method WriteHandOff(a: array<Byte>, base: nat)
    requires a.Length == 0x1_0000 && base + TOP_SIZE <= UINT64_RANGE && forall o :: 0 <= o < 0x1_0000 ==> a[o] == 0
    modifies a
    ensures a[0..16] == [1, 0, 56, 0, 0, 0, 0, 0, 9, 0, 0, 0, 0, 0, 0, 0]
    ensures a[48..64] == LittleEndian(base + 56, 8) + [0xFF, 0xFF, 8, 0, 0, 0, 0, 0]
    ensures forall o :: 16 <= o < 48 || 64 <= o < 0x1_0000 ==> a[o] == 0
    ensures Get64(a[..], 48) == base + 56 && Get16(a[..], 0) == 1 && Get16(a[..], 2) == 56
    ensures Get16(a[..], 56) == 0xFFFF && Get16(a[..], 58) == 8
  {
    hide Get16, Get32, Get64, SameOutside, LittleEndian;
    ghost var b0 := a[..];
    Put16(a, 0, HOB_TYPE_HANDOFF);
    ghost var b1 := a[..];
    Put16(a, 2, HANDOFF_SIZE);
    ghost var b2 := a[..];
    Put32(a, HEADER_SIZE, HANDOFF_TABLE_VERSION);
    ghost var b3 := a[..];
    Put32(a, HEADER_SIZE + 4, BOOT_WITH_FULL_CONFIGURATION);
    ghost var b4 := a[..];
    Put64(a, END_FIELD, base + HANDOFF_SIZE);
    ghost var b5 := a[..];
    Put16(a, HANDOFF_SIZE, HOB_TYPE_END_OF_HOB_LIST);
    ghost var b6 := a[..];
    Put16(a, HANDOFF_SIZE + 2, HEADER_SIZE);
    HandOff(b0, b1, b2, b3, b4, b5, b6, a[..], base);
  }

  class List {
    /** what gHobPointer points to, and its address */
    const Buffer: array<Byte>
    const Base: nat
    /** the blocks, the hand-off block first and then in order of creation */
    ghost var Hobs: seq<Hob>

    ghost predicate Valid()
      reads this, Buffer
    {
      && Buffer.Length == SIZE_64KB && Base + TOP_SIZE <= UINT64_RANGE
      && |Hobs| > 0 && Hobs[0] == Hob(HOB_TYPE_HANDOFF, HANDOFF_SIZE)
      && Proper(Hobs) && Laid(Buffer[..], Hobs)
      && Get64(Buffer[..], END_FIELD) == Base + End(Hobs)
    }

    /** InitHobPointer: the hand-off block and, in a zeroed buffer, the end marker behind it. */
    constructor (base: nat)
      requires base + TOP_SIZE <= UINT64_RANGE
      ensures Valid() && Hobs == [Hob(HOB_TYPE_HANDOFF, HANDOFF_SIZE)] && fresh(Buffer) && Base == base
      ensures Buffer[0..16] == [1, 0, 56, 0, 0, 0, 0, 0, 9, 0, 0, 0, 0, 0, 0, 0]
      ensures Buffer[48..64] == LittleEndian(base + 56, 8) + [0xFF, 0xFF, 8, 0, 0, 0, 0, 0]
      ensures forall o :: 16 <= o < 48 || 64 <= o < 0x1_0000 ==> Buffer[o] == 0
    {
      Buffer := new Byte[SIZE_64KB](_ => 0);
      Base := base;
      new;
      WriteHandOff(Buffer, Base);
      Hobs := [Hob(HOB_TYPE_HANDOFF, HANDOFF_SIZE)];
      FirstBlock(Buffer[..]);
    }

    /** InternalPeiCreateHob: a block goes where the list ended, if there is room for it and a new end
        marker; below it, only the field EfiEndOfHobList changes.  The list is longer by the block if and
        only if the marker leaves the block's type and length alone and the block is not of the end type;
        a block of no length is replaced by the marker. */
    method CreateHob(hobType: nat, length: nat) returns (hob: Option<nat>)
      requires Valid() && hobType < 0x1_0000 && length < 0x1_0000
      modifies this`Hobs, Buffer
      ensures hob.Some? <==> End(old(Hobs)) + 8 + length <= 0x1_0000
      ensures hob.None? ==> Valid() && Hobs == old(Hobs) && Buffer[..] == old(Buffer[..])
      ensures hob.Some? ==> hob.value == End(old(Hobs))
      ensures hob.Some? && length >= 4 && hobType != 0xFFFF ==>
                Valid() && Hobs == old(Hobs) + [Hob(hobType, length)]
      ensures hob.Some? && length == 0 ==> Valid() && Hobs == old(Hobs)
      ensures hob.Some? && length < 4 && hobType != 0xFFFF ==>
                !Laid(Buffer[..], old(Hobs) + [Hob(hobType, length)])
      ensures hob.Some? && hobType == 0xFFFF ==> Get16At(Buffer[..], End(old(Hobs)), 0xFFFF)
      ensures hob.Some? ==>
                var at, marker, kept := hob.value, hob.value + length, if length < 8 then length else 8;
                && Buffer[at..at + kept] == HeaderBytes(hobType, length)[..kept]
                && Buffer[marker..marker + 8] == [0xFF, 0xFF, 8, 0, 0, 0, 0, 0]
                && Buffer[48..56] == LittleEndian(Base + marker, 8) && SameBut(old(Buffer[..]), Buffer[..], at, marker)
    {
      hide Get16, Get32, Get64, Laid, HeaderAt, Offset, Get16At, HeaderBytes, LittleEndian, SameOutside, SameBut,
           Proper;
      ghost var b, h := Buffer[..], Hob(hobType, length);
      EndInside(b);
      var endOfHobList := Get64(Buffer[..], END_FIELD);
      if (endOfHobList + HEADER_SIZE + length) % UINT64_RANGE > (Base + SIZE_64KB) % UINT64_RANGE {
        return None;
      }
      var at := endOfHobList - Base;
      WriteHeader(Buffer, at, hobType, length);
      ghost var c := Buffer[..];
      Put64(Buffer, END_FIELD, Base + at + length);
      HeaderStays(c, Buffer[..], 48, 56, at, h);
      ghost var d := Buffer[..];
      WriteHeader(Buffer, at + length, HOB_TYPE_END_OF_HOB_LIST, HEADER_SIZE);
      SameField(d, Buffer[..], at + length, at + length + HEADER_SIZE);
      BytesWritten(b, c, d, Buffer[..], at, length, Base + at + length, hobType);
      Created(b, d, Buffer[..], Hobs, h);
      if IsProper(h) { Hobs := Hobs + [h]; }
      hob := Some(at);
    }

    lemma BytesWritten(b: seq<Byte>, c: seq<Byte>, d: seq<Byte>, e: seq<Byte>, at: nat, length: nat, end: nat,
                       hobType: nat)
      requires |b| == 0x1_0000 && 56 <= at && at + length + 8 <= 0x1_0000
      requires SameOutside(b, c, at, at + 8) && c[at..at + 8] == HeaderBytes(hobType, length)
      requires SameOutside(c, d, 48, 56) && d[48..56] == LittleEndian(end, 8)
      requires SameOutside(d, e, at + length, at + length + 8)
      requires e[at + length..at + length + 8] == HeaderBytes(0xFFFF, 8)
      ensures var marker, kept := at + length, if length < 8 then length else 8;
              && e[at..at + kept] == HeaderBytes(hobType, length)[..kept]
              && e[marker..marker + 8] == [0xFF, 0xFF, 8, 0, 0, 0, 0, 0]
              && e[48..56] == LittleEndian(end, 8)
      ensures SameBut(b, e, at, at + length)
    {
      hide HeaderBytes, LittleEndian;
      var kept := if length < 8 then length else 8;
      MarkerBytes();
      SliceKept(c, d, 48, 56, at, at + kept);
      SliceKept(d, e, at + length, at + length + 8, at, at + kept);
      SliceKept(d, e, at + length, at + length + 8, 48, 56);
      assert c[at..at + 8][..kept] == c[at..at + kept];
    }

    lemma EndInside(b: seq<Byte>)
      requires Valid() && b == Buffer[..]
      ensures HANDOFF_SIZE <= End(Hobs) && End(Hobs) + HEADER_SIZE <= SIZE_64KB
    {
      hide Get64, Laid, HeaderAt, Proper;
      LaidEnd(b, Hobs);
      BelowEnd(Hobs, 0);
    }

    /** What a builder does to the body of the block it created. */
    method FillBody(data: seq<Byte>, at: nat, ghost k: nat)
      requires Valid() && 1 <= k < |Hobs|
      requires Offset(Hobs, k) + HEADER_SIZE <= at && at + |data| <= Offset(Hobs, k) + Hobs[k].Length <= SIZE_64KB
      modifies Buffer
      ensures Valid() && Buffer[at..at + |data|] == data && SameOutside(old(Buffer[..]), Buffer[..], at, at + |data|)
    {
      hide Get64, Laid, HeaderAt, Offset, Proper;
      ghost var b := Buffer[..];
      BelowEnd(Hobs, k);
      FirstBelow(k);
      forall i | 0 <= i < |data| { Buffer[at + i] := data[i]; }
      LaidBody(b, Buffer[..], Hobs, k, at, at + |data|);
      SameField(b, Buffer[..], at, at + |data|);
    }

    lemma FirstBelow(k: nat)
      requires Valid() && 1 <= k < |Hobs|
      ensures HANDOFF_SIZE <= Offset(Hobs, k)
    {
      OffsetsGrow(Hobs, 0, k);
    }

    lemma HobHere(k: nat)
      requires Valid() && k <= |Hobs|
      ensures Offset(Hobs, k) + HEADER_SIZE <= SIZE_64KB
      ensures Get16(Buffer[..], Offset(Hobs, k)) == HOB_TYPE_END_OF_HOB_LIST <==> k == |Hobs|
      ensures k < |Hobs| ==>
                && Get16(Buffer[..], Offset(Hobs, k)) == Hobs[k].Type
                && Offset(Hobs, k) + Get16(Buffer[..], Offset(Hobs, k) + 2) == Offset(Hobs, k + 1)
    {
      hide Get16, Get64, Laid;
      if k < |Hobs| { LaidAt(Buffer[..], Hobs, k); } else { LaidEnd(Buffer[..], Hobs); }
    }

    /** Block `n` is the first one of the type at or after block `k`. */
    ghost predicate FirstOfType(k: nat, hobType: nat, n: nat)
      reads this
    {
      k <= n < |Hobs| && Hobs[n].Type == hobType && forall i :: k <= i < n ==> Hobs[i].Type != hobType
    }

    /** GetNextHob: the first block of the type at or after block `k`, and null if and only if there is
        none; the walk ends exactly at the end marker. */
    method GetNextHob(hobType: nat, start: nat, ghost k: nat) returns (hob: Option<nat>)
      requires Valid() && k <= |Hobs| && start == Offset(Hobs, k)
      ensures hob.Some? ==> exists n :: FirstOfType(k, hobType, n) && hob.value == Offset(Hobs, n)
      ensures hob.None? ==> forall i :: k <= i < |Hobs| ==> Hobs[i].Type != hobType
    {
      hide Get16, Get64, Laid;
      var raw := start;
      ghost var n := k;
      HobHere(n);
      while Get16(Buffer[..], raw) != HOB_TYPE_END_OF_HOB_LIST
        invariant k <= n <= |Hobs| && raw == Offset(Hobs, n) && raw + HEADER_SIZE <= SIZE_64KB
        invariant forall i :: k <= i < n ==> Hobs[i].Type != hobType
        decreases |Hobs| - n
      {
        HobHere(n);
        if Get16(Buffer[..], raw) == hobType {
          assert FirstOfType(k, hobType, n);
          return Some(raw);
        }
        HobHere(n + 1);
        raw, n := raw + Get16(Buffer[..], raw + 2), n + 1;
      }
      HobHere(n);
      hob := None;
    }

    /** The bytes compared with a name are in the buffer.  They are those of the next blocks, or behind the
        end of the list, if the block is too short for a name. */
    ghost predicate NameInside(k: nat)
      requires k < |Hobs|
      reads this
    {
      Offset(Hobs, k) + 24 <= 0x1_0000
    }

    /** A GUID extension block carries its name after the header. */
    ghost predicate Named(k: nat, guid: seq<Byte>)
      requires Buffer.Length == SIZE_64KB
      reads this, Buffer
    {
      && k < |Hobs| && Hobs[k].Type == 4 && Offset(Hobs, k) + 24 <= 0x1_0000
      && Buffer[Offset(Hobs, k) + 8..Offset(Hobs, k) + 24] == guid
    }

    /** Block `n` is the first one of that name at or after block `k`. */
    ghost predicate FirstOfName(k: nat, guid: seq<Byte>, n: nat)
      requires Buffer.Length == SIZE_64KB
      reads this, Buffer
    {
      k <= n && Named(n, guid) && forall i :: k <= i < n ==> !Named(i, guid)
    }

    lemma GuidHere(guid: seq<Byte>, n: nat, m: nat)
      requires Valid() && FirstOfType(n, HOB_TYPE_GUID_EXTENSION, m) && NameInside(m)
      ensures n <= m < |Hobs|
      ensures forall i :: n <= i < m ==> !Named(i, guid)
      ensures Named(m, guid) <==>
                Buffer[Offset(Hobs, m) + HEADER_SIZE..Offset(Hobs, m) + HEADER_SIZE + GUID_SIZE] == guid
    {
      hide Get16, Get64, Laid;
    }

    lemma FirstNamed(guid: seq<Byte>, k: nat, m: nat)
      requires Valid() && k <= m < |Hobs| && Named(m, guid) && forall i :: k <= i < m ==> !Named(i, guid)
      ensures FirstOfName(k, guid, m)
    {
      hide Named, Laid, Get64;
    }

    lemma NoneNamed(guid: seq<Byte>, n: nat)
      requires Valid() && forall i :: n <= i < |Hobs| ==> Hobs[i].Type != HOB_TYPE_GUID_EXTENSION
      ensures forall i :: n <= i < |Hobs| ==> !Named(i, guid)
    {
      hide Laid, Get64;
    }

    /** GetNextGuidHob: the first GUID extension block of that name at or after block `k`, and null if and
        only if there is none. */
    method GetNextGuidHob(guid: seq<Byte>, start: nat, ghost k: nat) returns (hob: Option<nat>)
      requires Valid() && k <= |Hobs| && start == Offset(Hobs, k) && |guid| == 16
      requires forall i :: 0 <= i < |Hobs| && Hobs[i].Type == 4 ==> NameInside(i)
      ensures hob.Some? ==> exists n :: FirstOfName(k, guid, n) && hob.value == Offset(Hobs, n)
      ensures hob.None? ==> forall i :: k <= i < |Hobs| ==> !Named(i, guid)
    {
      hide Get16, Get64, Laid, Named, FirstOfName, Offset, Proper;
      ghost var n := k;
      hob := GetNextHob(HOB_TYPE_GUID_EXTENSION, start, k);
      while hob.Some?
        invariant k <= n <= |Hobs| && forall i :: k <= i < n ==> !Named(i, guid)
        invariant hob.Some? ==> exists m :: FirstOfType(n, HOB_TYPE_GUID_EXTENSION, m) && hob.value == Offset(Hobs, m)
        invariant hob.None? ==> forall i :: n <= i < |Hobs| ==> Hobs[i].Type != HOB_TYPE_GUID_EXTENSION
        decreases |Hobs| - n, hob.Some?
      {
        ghost var m: nat :| FirstOfType(n, HOB_TYPE_GUID_EXTENSION, m) && hob.value == Offset(Hobs, m);
        GuidHere(guid, n, m);
        HobHere(m);
        var raw := hob.value;
        if Buffer[raw + HEADER_SIZE..raw + HEADER_SIZE + GUID_SIZE] == guid {
          FirstNamed(guid, k, m);
          return;
        }
        n := m + 1;
        hob := GetNextHob(HOB_TYPE_GUID_EXTENSION, raw + Get16(Buffer[..], raw + 2), n);
      }
      NoneNamed(guid, n);
    }
  }
}
