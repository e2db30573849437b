/** The texts of IPv6 addresses (sections 2.2 and 2.3 of RFC 4291) as the parser of SafeString.c takes them,
    and the addresses they stand for. */
module Ipv6Text {
  import opened Efi
  import opened SafeString

  /** The bytes of an address: ARRAY_SIZE (Address->Addr) */
  const ADDRESS_SIZE: nat := 16

  /** MAX_UINT8, which stands for an absent prefix length */
  const NO_PREFIX: nat := 255

  // ---------- groups ----------

  /** How many zeros a group begins with. */
  ghost function ZerosOf(g: seq<Char>): (z: nat)
    ensures z <= |g|
  {
    RunEnd(g, 0, Zero)
  }

  /** Zeros, an x, and hexadecimal digits, of which there may be none: what the group converter also takes. */
  ghost predicate Prefixed(g: seq<Char>) {
    && 0 < ZerosOf(g) < |g| && CharToUpper(g[ZerosOf(g)]) == UPPER_X
    && AllDigits(Hexadecimal, g[ZerosOf(g) + 1..])
  }

  /** One to four hexadecimal digits, as RFC 4291 has it, or at most four characters with a prefix. */
  ghost predicate IsGroup(g: seq<Char>) {
    1 <= |g| <= 4 && (AllDigits(Hexadecimal, g) || Prefixed(g))
  }

  ghost predicate AreGroups(gs: seq<seq<Char>>) {
    forall i :: 0 <= i < |gs| ==> IsGroup(gs[i])
  }

  /** The group is over at a character `c` behind it. */
  ghost predicate Ends(g: seq<Char>, c: Char) {
    !IsHexDigit(c) && (ZerosOf(g) == |g| ==> CharToUpper(c) != UPPER_X)
  }

  ghost function GroupValue(g: seq<Char>): nat {
    if AllDigits(Hexadecimal, g) then Value(Hexadecimal, g)
    else if Prefixed(g) then Value(Hexadecimal, g[ZerosOf(g) + 1..])
    else 0
  }

  // ---------- whole texts ----------

  /** One way to write an address: the groups before and after a "::", if there is one, and the digits
      of a prefix length, if there is one. */
  datatype Rendering = Rendering(head: seq<seq<Char>>, compressed: bool, tail: seq<seq<Char>>,
                                 prefix: Option<seq<Char>>)

  /** The digits of a prefix length up to 128. */
  ghost predicate IsPrefix(ds: seq<Char>) {
    ds != [] && AllDigits(Decimal, ds) && Value(Decimal, ds) <= 128
  }

  /** Eight groups, or fewer around a "::"; a prefix length up to 128. */
  ghost predicate WellFormed(r: Rendering) {
    && AreGroups(r.head) && AreGroups(r.tail)
    && (if r.compressed then |r.head| + |r.tail| <= 7 else |r.head| == 8 && r.tail == [])
    && (r.prefix.Some? ==> IsPrefix(r.prefix.value))
  }

  /** Groups `k` on, separated by colons, and then `t`. */
  ghost function Groups(gs: seq<seq<Char>>, k: nat, t: seq<Char>): seq<Char>
    decreases |gs| - k
  {
    if k >= |gs| then t
    else gs[k] + ((if k + 1 < |gs| then [COLON] else []) + Groups(gs, k + 1, t))
  }

  ghost function Ending(r: Rendering, rest: seq<Char>): seq<Char> {
    if r.prefix.Some? then [SLASH] + (r.prefix.value + rest) else rest
  }

  ghost function FromTail(r: Rendering, k: nat, rest: seq<Char>): seq<Char> {
    Groups(r.tail, k, Ending(r, rest))
  }

  ghost function FromHead(r: Rendering, k: nat, rest: seq<Char>): seq<Char> {
    Groups(r.head, k, if r.compressed then [COLON] + ([COLON] + FromTail(r, 0, rest)) else Ending(r, rest))
  }

  /** The text of a rendering, followed by `rest`. */
  ghost function Text(r: Rendering, rest: seq<Char>): seq<Char> {
    FromHead(r, 0, rest)
  }

  /** The last group before the prefix length, or nothing behind a final "::". */
  ghost function LastGroup(r: Rendering): seq<Char> {
    if r.compressed then (if r.tail != [] then r.tail[|r.tail| - 1] else [])
    else if r.head != [] then r.head[|r.head| - 1] else []
  }

  /** `rest` does not go on with the text: its first character ends the last group or the prefix length and
      does not separate it from more. */
  ghost predicate Follows(r: Rendering, rest: seq<Char>) {
    && rest != []
    && if r.prefix.Some? then !IsDecimalDigit(rest[0])
       else if r.compressed && r.tail == [] then !IsHexDigit(rest[0]) && rest[0] != SLASH
       else Ends(LastGroup(r), rest[0]) && rest[0] != SLASH && (r.compressed ==> rest[0] != COLON)
  }

  /** The string that starts at `at` reads as the rendering, which ends at `end`. */
  ghost predicate Parses(text: seq<Char>, at: nat, r: Rendering, end: nat) {
    && WellFormed(r) && at <= |text| && end <= |text|
    && Follows(r, text[end..]) && text[at..] == Text(r, text[end..])
  }

  /** The end of the string, for one, always follows. */
  lemma EndFollows(r: Rendering, rest: seq<Char>)
    requires rest != [] && rest[0] == NUL
    ensures Follows(r, rest)
  {
  }

  // ---------- the address of a text ----------

  /** High byte first. */
  function HighByte(v: nat): Byte {
    v % 0x1_0000 / 0x100
  }

  function LowByte(v: nat): Byte {
    v % 0x100
  }

  ghost function GroupBytes(gs: seq<seq<Char>>): (b: seq<Byte>)
    ensures |b| == 2 * |gs|
  {
    if gs == [] then []
    else GroupBytes(gs[..|gs| - 1]) + [HighByte(GroupValue(gs[|gs| - 1])), LowByte(GroupValue(gs[|gs| - 1]))]
  }

  ghost function Zeros(n: nat): seq<Byte> {
    seq(n, _ => 0)
  }

  /** The 16 bytes that a rendering stands for: a "::" is as many zero groups as are missing. */
  ghost function AddressOf(r: Rendering): (b: seq<Byte>)
    requires WellFormed(r)
    ensures |b| == ADDRESS_SIZE
  {
    GroupBytes(r.head) + Zeros(ADDRESS_SIZE - 2 * |r.head| - 2 * |r.tail|) + GroupBytes(r.tail)
  }

  ghost function PrefixOf(r: Rendering): nat
    requires WellFormed(r)
  {
    if r.prefix.Some? then Value(Decimal, r.prefix.value) else NO_PREFIX
  }

  lemma {:induction false} BytesJoin(gs: seq<seq<Char>>, hs: seq<seq<Char>>)
    ensures GroupBytes(gs + hs) == GroupBytes(gs) + GroupBytes(hs)
    decreases |hs|
  {
    hide GroupValue, HighByte, LowByte;
    if hs == [] {
      assert gs + hs == gs;
    } else {
      var n := |hs| - 1;
      assert (gs + hs)[..|gs + hs| - 1] == gs + hs[..n];
      BytesJoin(gs, hs[..n]);
    }
  }

  // ---------- every address has these texts ----------

  function GroupAt(address: seq<Byte>, i: nat): nat
    requires |address| == ADDRESS_SIZE && i < 8
  {
    0x100 * (address[2 * i] as int) + address[2 * i + 1]
  }

  /** Groups `i` up to `j` in hexadecimal, without leading zeros. */
  ghost function PrintGroups(address: seq<Byte>, i: nat, j: nat, upper: bool): (gs: seq<seq<Char>>)
    requires |address| == ADDRESS_SIZE && i <= j <= 8
    ensures |gs| == j - i
  {
    if i == j then [] else PrintGroups(address, i, j - 1, upper) + [Print(Hexadecimal, GroupAt(address, j - 1), upper)]
  }

  /** The usual texts of an address: all eight groups, or `n` groups from group `from` on left out. */
  ghost function Render(address: seq<Byte>, from: nat, n: nat, upper: bool, prefix: Option<nat>): Rendering
    requires |address| == ADDRESS_SIZE && from + n <= 8
  {
    var p := if prefix.Some? then Some(Print(Decimal, prefix.value, upper)) else None;
    if n == 0 then Rendering(PrintGroups(address, 0, 8, upper), false, [], p)
    else Rendering(PrintGroups(address, 0, from, upper), true, PrintGroups(address, from + n, 8, upper), p)
  }

  lemma PrintedGroup(v: nat, upper: bool)
    requires v < 0x1_0000
    ensures IsGroup(Print(Hexadecimal, v, upper)) && GroupValue(Print(Hexadecimal, v, upper)) == v
  {
    hide Value, HexCharToUintn, DigitChar, Print;
    PrintValue(Hexadecimal, v, upper);
    PrintLength(v, upper);
  }

  lemma {:induction false} PrintLength(v: nat, upper: bool)
    ensures v < 0x10 ==> |Print(Hexadecimal, v, upper)| == 1
    ensures v < 0x100 ==> |Print(Hexadecimal, v, upper)| <= 2
    ensures v < 0x1000 ==> |Print(Hexadecimal, v, upper)| <= 3
    ensures v < 0x1_0000 ==> |Print(Hexadecimal, v, upper)| <= 4
    decreases v
  {
    hide DigitChar;
    if v >= 0x10 { PrintLength(v / 0x10, upper); }
  }

  lemma GroupSplits(address: seq<Byte>, i: nat)
    requires |address| == ADDRESS_SIZE && i < 8
    ensures GroupAt(address, i) < 0x1_0000
    ensures HighByte(GroupAt(address, i)) == address[2 * i] && LowByte(GroupAt(address, i)) == address[2 * i + 1]
  {
  }

  lemma {:induction false} PrintedGroups(address: seq<Byte>, i: nat, j: nat, upper: bool)
    requires |address| == ADDRESS_SIZE && i <= j <= 8
    ensures AreGroups(PrintGroups(address, i, j, upper))
    ensures GroupBytes(PrintGroups(address, i, j, upper)) == address[2 * i..2 * j]
    decreases j
  {
    hide IsGroup, AreGroups, GroupBytes, Print, GroupValue, HighByte, LowByte, GroupAt;
    if i < j {
      var g := Print(Hexadecimal, GroupAt(address, j - 1), upper);
      PrintedGroups(address, i, j - 1, upper);
      GroupSplits(address, j - 1);
      PrintedGroup(GroupAt(address, j - 1), upper);
      OneMoreGroup(PrintGroups(address, i, j - 1, upper), g);
      TwoMoreBytes(address, i, j - 1);
    } else {
      NoGroups();
    }
  }

  lemma OneMoreGroup(gs: seq<seq<Char>>, g: seq<Char>)
    requires AreGroups(gs) && IsGroup(g)
    ensures AreGroups(gs + [g])
    ensures GroupBytes(gs + [g]) == GroupBytes(gs) + [HighByte(GroupValue(g)), LowByte(GroupValue(g))]
  {
  }

  lemma TwoMoreBytes(address: seq<Byte>, i: nat, k: nat)
    requires |address| == ADDRESS_SIZE && i <= k < 8
    ensures address[2 * i..2 * k] + [address[2 * k], address[2 * k + 1]] == address[2 * i..2 * (k + 1)]
  {
  }

  /** Printing an address, with "::" over any one run of zero groups and any prefix length, gives a
      rendering of it. */
  lemma RenderStandsFor(address: seq<Byte>, from: nat, n: nat, upper: bool, prefix: Option<nat>)
    requires |address| == ADDRESS_SIZE && from + n <= 8
    requires forall i :: 2 * from <= i < 2 * (from + n) ==> address[i] == 0
    requires prefix.Some? ==> prefix.value <= 128
    ensures WellFormed(Render(address, from, n, upper, prefix))
    ensures AddressOf(Render(address, from, n, upper, prefix)) == address
    ensures PrefixOf(Render(address, from, n, upper, prefix)) == if prefix.Some? then prefix.value else NO_PREFIX
  {
    hide AreGroups, Value, GroupBytes, PrintGroups, Print, AllDigits;
    if prefix.Some? { PrintValue(Decimal, prefix.value, upper); }
    NoGroups();
    if n == 0 {
      PrintedGroups(address, 0, 8, upper);
      assert address[0..16] == address;
    } else {
      PrintedGroups(address, 0, from, upper);
      PrintedGroups(address, from + n, 8, upper);
      assert address == address[..2 * from] + Zeros(2 * n) + address[2 * (from + n)..];
    }
  }

  /** Not every text that is taken is one of RFC 4291: "0x1::" is, as the address of "1::". */
  lemma TakesPrefixedGroup(text: seq<Char>)
    requires text == [0x30, 0x78, 0x31, 0x3A, 0x3A, 0]
    ensures IsGroup(text[..3]) && !AllDigits(Hexadecimal, text[..3])
    ensures Parses(text, 0, Rendering([text[..3]], true, [], None), 5)
    ensures AddressOf(Rendering([text[..3]], true, [], None)) == [0, 1] + Zeros(14)
  {
    var g, ds: seq<Char> := text[..3], [ZERO + 1];
    assert RunEnd(g, 1, Zero) == 1 && g[2..] == ds;
    assert Value(Hexadecimal, ds[..0]) == 0;
    assert !Is(Hexadecimal, g[1]);
    assert IsGroup(g) && GroupValue(g) == 1;
    var r := Rendering([g], true, [], None);
    assert Groups(r.tail, 0, [NUL]) == text[5..] == [NUL];
    assert FromHead(r, 0, [NUL]) == g + ([] + Groups(r.head, 1, [COLON] + ([COLON] + [NUL])));
    assert text == text[..3] + [COLON, COLON, NUL];
    assert GroupBytes(r.head[..0]) == [] && GroupBytes(r.head) == [0, 1];
    NoGroups();
  }

  lemma NoGroups()
    ensures AreGroups([]) && GroupBytes([]) == []
  {
  }
}
