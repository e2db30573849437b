/** What StrHexToUintnS makes of a group: it takes exactly the groups of Ipv6Text, and converts them to
    their values. */
module Ipv6Group {
  import opened Efi
  import opened SafeString
  import opened Ipv6Text

  // ---------- runs inside a slice ----------

  lemma {:induction false} RunEndFull(s: seq<Char>, at: nat, k: Class)
    requires at <= |s| && forall i :: at <= i < |s| ==> Is(k, s[i])
    ensures RunEnd(s, at, k) == |s|
    decreases |s| - at
  {
    if at < |s| { RunEndFull(s, at + 1, k); }
  }

  /** A run seen in a slice is the run in the text, up to the end of the slice. */
  lemma RunEndSlice(text: seq<Char>, p: nat, n: nat, k: Class)
    requires p + n <= |text|
    ensures RunEnd(text[p..p + n], 0, k) == if RunEnd(text, p, k) <= p + n then RunEnd(text, p, k) - p else n
  {
    hide Is;
    var g, e := text[p..p + n], RunEnd(text, p, k);
    RunIs(text, p, k);
    if e < p + n {
      RunEndIs(g, 0, k, e - p);
    } else {
      RunEndFull(g, 0, k);
    }
  }

  lemma DigitsAre(text: seq<Char>, p: nat, e: nat)
    requires p <= e <= |text|
    ensures AllDigits(Hexadecimal, text[p..e]) <==> forall i :: p <= i < e ==> IsHexDigit(text[i])
  {
    var g := text[p..e];
    if AllDigits(Hexadecimal, g) {
      forall i | p <= i < e ensures IsHexDigit(text[i]) { assert Is(Hexadecimal, g[i - p]); }
    }
  }

  lemma ZeroIsHex(c: Char)
    ensures Is(Zero, c) ==> IsHexDigit(c)
    ensures CharToUpper(c) == UPPER_X ==> !IsHexDigit(c) && c != NUL && c != ZERO
  {
  }

  lemma GroupStart(text: seq<Char>, p: nat)
    requires Terminated(text) && p < |text| && IsHexDigit(text[p])
    ensures p <= DecimalStart(text, p) == RunEnd(text, p, Zero) < |text|
    ensures forall i :: p <= i < DecimalStart(text, p) ==> text[i] == ZERO
    ensures text[DecimalStart(text, p)] != ZERO
  {
    HexIsNotX(text[p]);
    assert RunEnd(text, p, Blank) == p;
    RunIs(text, p, Zero);
    RunInside(text, p, Zero);
  }

  // ---------- values ----------

  lemma {:induction false} DigitsBelow(g: seq<Char>)
    requires AllDigits(Hexadecimal, g)
    ensures |g| == 0 ==> Value(Hexadecimal, g) < 1
    ensures |g| == 1 ==> Value(Hexadecimal, g) < 0x10
    ensures |g| == 2 ==> Value(Hexadecimal, g) < 0x100
    ensures |g| == 3 ==> Value(Hexadecimal, g) < 0x1000
    ensures |g| == 4 ==> Value(Hexadecimal, g) < 0x1_0000
  {
    hide HexCharToUintn;
    if g != [] { DigitsBelow(g[..|g| - 1]); }
  }

  lemma PrefixedIsNotPlain(g: seq<Char>)
    requires Prefixed(g)
    ensures !AllDigits(Hexadecimal, g)
  {
    hide Value;
    ZeroIsHex(g[ZerosOf(g)]);
    assert !Is(Hexadecimal, g[ZerosOf(g)]);
  }

  lemma GroupValueFits(g: seq<Char>)
    requires IsGroup(g)
    ensures GroupValue(g) < 0x1_0000
  {
    hide Value, AllDigits;
    if AllDigits(Hexadecimal, g) { DigitsBelow(g); } else { DigitsBelow(g[ZerosOf(g) + 1..]); }
  }

  // ---------- the converter takes every group ----------

  /** A group of digits. */
  lemma PlainConverted(text: seq<Char>, p: nat, g: seq<Char>, status: Status, data: nat, end: nat)
    requires Terminated(text) && p + |g| < |text| && text[p..p + |g|] == g && 1 <= |g| <= 4 && AllDigits(Hexadecimal, g)
    requires Ends(g, text[p + |g|]) && !TooLong(text, p)
    requires HexConverted(text, p, UINT64_RANGE - 1, NUL, status, data, end)
    ensures status == EFI_SUCCESS && data == Value(Hexadecimal, g) && end == p + |g|
  {
    hide Value, AllDigits, TooLong, DecimalStart, RunEnd, IsHexDigit, CharToUpper, Ends, Saturated;
    PlainStart(text, p, g);
    PlainRun(text, p, g);
    DigitsBelow(g);
    FitsExactly(text, DecimalStart(text, p), Hexadecimal, UINT64_RANGE - 1, status, data, end);
  }

  /** The digits that count have the value of the group. */
  lemma PlainRun(text: seq<Char>, p: nat, g: seq<Char>)
    requires Terminated(text) && p + |g| < |text| && text[p..p + |g|] == g && 1 <= |g| && AllDigits(Hexadecimal, g)
    requires Ends(g, text[p + |g|]) && DecimalStart(text, p) <= p + |g|
    ensures RunEnd(text, DecimalStart(text, p), Hexadecimal) == p + |g|
    ensures AllDigits(Hexadecimal, text[DecimalStart(text, p)..p + |g|])
    ensures Value(Hexadecimal, text[DecimalStart(text, p)..p + |g|]) == Value(Hexadecimal, g)
  {
    hide Value, AllDigits, DecimalStart, RunEnd, IsHexDigit, CharToUpper, Ends;
    var e := p + |g|;
    PlainRunEnd(text, p, g);
    GroupStart(text, p);
    ZerosSkipped(text, p, DecimalStart(text, p), e, Hexadecimal);
    RunEndFrom(text, p, Hexadecimal, DecimalStart(text, p));
  }

  lemma PlainRunEnd(text: seq<Char>, p: nat, g: seq<Char>)
    requires p + |g| < |text| && text[p..p + |g|] == g && 1 <= |g| && AllDigits(Hexadecimal, g)
    requires Ends(g, text[p + |g|])
    ensures RunEnd(text, p, Hexadecimal) == p + |g| && IsHexDigit(text[p])
  {
    hide Value, AllDigits, RunEnd, IsHexDigit, CharToUpper;
    DigitsAre(text, p, p + |g|);
    RunEndIs(text, p, Hexadecimal, p + |g|);
  }

  /** Where the digits that count start in a group of digits, there is no x. */
  lemma PlainStart(text: seq<Char>, p: nat, g: seq<Char>)
    requires Terminated(text) && p + |g| < |text| && text[p..p + |g|] == g && 1 <= |g| && AllDigits(Hexadecimal, g)
    requires Ends(g, text[p + |g|])
    ensures p <= DecimalStart(text, p) <= p + |g| && CharToUpper(text[DecimalStart(text, p)]) != UPPER_X
  {
    hide Value, AllDigits, DecimalStart, RunEnd;
    var e, s := p + |g|, DecimalStart(text, p);
    DigitsAre(text, p, e);
    GroupStart(text, p);
    ZeroIsHex(text[e]);
    RunEndAtMost(text, p, Zero, e);
    RunEndSlice(text, p, |g|, Zero);
    if s < e { HexIsNotX(text[s]); }
  }

  /** A group with a prefix. */
  lemma PrefixedConverted(text: seq<Char>, p: nat, g: seq<Char>, status: Status, data: nat, end: nat)
    requires Terminated(text) && p + |g| < |text| && text[p..p + |g|] == g && |g| <= 4 && Prefixed(g)
    requires Ends(g, text[p + |g|]) && !TooLong(text, p)
    requires HexConverted(text, p, UINT64_RANGE - 1, NUL, status, data, end)
    ensures status == EFI_SUCCESS && data == Value(Hexadecimal, g[ZerosOf(g) + 1..]) && end == p + |g|
  {
    hide Value, AllDigits, TooLong, DecimalStart, RunEnd;
    var e, z, s := p + |g|, ZerosOf(g), DecimalStart(text, p);
    PrefixedStart(text, p, g);
    assert text[s + 1..e] == g[z + 1..];
    DigitsAre(text, s + 1, e);
    RunEndIs(text, s + 1, Hexadecimal, e);
    DigitsBelow(g[z + 1..]);
  }

  lemma PrefixedStart(text: seq<Char>, p: nat, g: seq<Char>)
    requires Terminated(text) && p + |g| < |text| && text[p..p + |g|] == g && Prefixed(g)
    ensures DecimalStart(text, p) == p + ZerosOf(g) && CharToUpper(text[p + ZerosOf(g)]) == UPPER_X
    ensures CharBefore(text, p + ZerosOf(g), NUL) == ZERO
  {
    hide Value, AllDigits, DecimalStart, RunEnd;
    var z := ZerosOf(g);
    RunEndSlice(text, p, |g|, Zero);
    RunIs(g, 0, Zero);
    ZeroIsHex(g[0]);
    assert text[p] == g[0] && text[p + z] == g[z] && text[p + z - 1] == g[z - 1];
    GroupStart(text, p);
  }

  lemma GroupConverted(text: seq<Char>, p: nat, g: seq<Char>, status: Status, data: nat, end: nat)
    requires Terminated(text) && p + |g| < |text| && text[p..p + |g|] == g && IsGroup(g)
    requires Ends(g, text[p + |g|]) && !TooLong(text, p)
    requires HexConverted(text, p, UINT64_RANGE - 1, NUL, status, data, end)
    ensures status == EFI_SUCCESS && data == GroupValue(g) && end == p + |g|
  {
    hide Value, AllDigits, TooLong, HexConverted, Ends, Prefixed;
    if AllDigits(Hexadecimal, g) {
      PlainConverted(text, p, g, status, data, end);
    } else {
      PrefixedConverted(text, p, g, status, data, end);
    }
  }

  // ---------- and nothing else ----------

  /** From a digit on, what the converter took, if it is short enough, is a group that is over there. */
  lemma ConvertedGroup(text: seq<Char>, p: nat, data: nat, end: nat)
    requires Terminated(text) && p < |text| && IsHexDigit(text[p])
    requires HexConverted(text, p, UINT64_RANGE - 1, NUL, EFI_SUCCESS, data, end) && end - p <= 4
    ensures p < end < |text| && IsGroup(text[p..end])
    ensures data == GroupValue(text[p..end]) && Ends(text[p..end], text[end])
  {
    hide Value, AllDigits, TooLong, DecimalStart, RunEnd, Saturated;
    var s := DecimalStart(text, p);
    GroupStart(text, p);
    if CharToUpper(text[s]) != UPPER_X {
      TakenPlain(text, p, data, end);
    } else {
      HexIsNotX(text[p]);
      TakenPrefixed(text, p, data, end);
    }
  }

  lemma SuccessIs(text: seq<Char>, from: nat, k: Class, max: nat, data: nat, end: nat)
    requires Terminated(text) && from < |text| && (k.Decimal? || k.Hexadecimal?)
    requires Saturated(text, from, k, max, EFI_SUCCESS, data, end)
    ensures from <= end == RunEnd(text, from, k) < |text| && !Is(k, text[end])
    ensures AllDigits(k, text[from..end]) && data == Value(k, text[from..end])
  {
    hide Value;
    RunIs(text, from, k);
    RunInside(text, from, k);
  }

  lemma TakenPlain(text: seq<Char>, p: nat, data: nat, end: nat)
    requires Terminated(text) && p < |text| && IsHexDigit(text[p]) && end - p <= 4
    requires CharToUpper(text[DecimalStart(text, p)]) != UPPER_X
    requires Saturated(text, DecimalStart(text, p), Hexadecimal, UINT64_RANGE - 1, EFI_SUCCESS, data, end)
    ensures p < end < |text| && IsGroup(text[p..end])
    ensures data == GroupValue(text[p..end]) && Ends(text[p..end], text[end])
  {
    hide Value, AllDigits, DecimalStart, RunEnd, Saturated, Prefixed;
    var s := DecimalStart(text, p);
    GroupStart(text, p);
    SuccessIs(text, s, Hexadecimal, UINT64_RANGE - 1, data, end);
    DigitsAre(text, s, end);
    assert IsHexDigit(ZERO) by { ZeroIsHex(ZERO); }
    assert forall i :: p <= i < end ==> IsHexDigit(text[i]);
    DigitsAre(text, p, end);
    RunEndIs(text, p, Hexadecimal, end);
    ZerosSkipped(text, p, s, end, Hexadecimal);
    RunEndSlice(text, p, end - p, Zero);
  }

  lemma TakenPrefixed(text: seq<Char>, p: nat, data: nat, end: nat)
    requires Terminated(text) && p < |text| && IsHexDigit(text[p]) && end - p <= 4 && DecimalStart(text, p) > p
    requires CharToUpper(text[DecimalStart(text, p)]) == UPPER_X
    requires Saturated(text, DecimalStart(text, p) + 1, Hexadecimal, UINT64_RANGE - 1, EFI_SUCCESS, data, end)
    ensures p < end < |text| && IsGroup(text[p..end])
    ensures data == GroupValue(text[p..end]) && Ends(text[p..end], text[end])
  {
    hide Value, AllDigits, DecimalStart, RunEnd, Saturated;
    var s := DecimalStart(text, p);
    GroupStart(text, p);
    ZeroIsHex(text[s]);
    SuccessIs(text, s + 1, Hexadecimal, UINT64_RANGE - 1, data, end);
    var g := text[p..end];
    RunEndSlice(text, p, end - p, Zero);
    assert g[s - p] == text[s] && g[s - p + 1..] == text[s + 1..end];
    PrefixedIsNotPlain(g);
  }

  /** From a hexadecimal digit on, what the decimal converter took, if it took anything, is digits that are
      over there. */
  lemma ConvertedPrefix(text: seq<Char>, p: nat, data: nat, end: nat)
    requires Terminated(text) && p < |text| && IsHexDigit(text[p]) && data <= 128 && end != p
    requires Saturated(text, DecimalStart(text, p), Decimal, UINT64_RANGE - 1, EFI_SUCCESS, data, end)
    ensures p < end < |text| && IsPrefix(text[p..end])
    ensures data == Value(Decimal, text[p..end]) && !IsDecimalDigit(text[end])
  {
    hide Value, AllDigits, DecimalStart, RunEnd, Saturated;
    var s := DecimalStart(text, p);
    GroupStart(text, p);
    SuccessIs(text, s, Decimal, UINT64_RANGE - 1, data, end);
    DecimalRun(text, p, s, end);
    RunEndIs(text, p, Decimal, end);
    ZerosSkipped(text, p, s, end, Decimal);
  }

  lemma DecimalRun(text: seq<Char>, p: nat, s: nat, end: nat)
    requires p <= s <= end <= |text| && AllDigits(Decimal, text[s..end]) && forall i :: p <= i < s ==> text[i] == ZERO
    ensures forall i :: p <= i < end ==> IsDecimalDigit(text[i])
  {
    forall i | s <= i < end ensures IsDecimalDigit(text[i]) { assert Is(Decimal, text[s..end][i - s]); }
  }
}
