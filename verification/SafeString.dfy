/** SafeString.c: conversion of decimal and hexadecimal numerals that saturates instead of wrapping
    around.  A string is a sequence of character codes with a null at its end; a pointer into it is an
    index.  The Unicode and the ASCII forms differ in the width of a character only, so one model
    stands for both. */
module SafeString {
  import opened Arithmetic
  import opened Efi

  type Char = c: nat | c < 0x10000

  const NUL: Char := 0
  const TAB: Char := 9
  const SPACE: Char := 0x20
  const SLASH: Char := 0x2F
  const ZERO: Char := 0x30
  const NINE: Char := 0x39
  const COLON: Char := 0x3A
  const UPPER_A: Char := 0x41
  const UPPER_F: Char := 0x46
  const UPPER_X: Char := 0x58
  const LOWER_A: Char := 0x61
  const LOWER_F: Char := 0x66
  const LOWER_Z: Char := 0x7A

  const RSIZE_MAX: nat := 0x100_0000

  // ---------- characters ----------

  predicate IsDecimalDigit(c: Char) {
    ZERO <= c <= NINE
  }

  predicate IsHexDigit(c: Char) {
    IsDecimalDigit(c) || UPPER_A <= c <= UPPER_F || LOWER_A <= c <= LOWER_F
  }

  function CharToUpper(c: Char): Char {
    if LOWER_A <= c <= LOWER_Z then c - (LOWER_A - UPPER_A) else c
  }

  function HexCharToUintn(c: Char): (d: nat)
    requires IsHexDigit(c)
    ensures d < 16 && (IsDecimalDigit(c) ==> d < 10)
  {
    if IsDecimalDigit(c) then c - ZERO else 10 + CharToUpper(c) - UPPER_A
  }

  /** The runs of characters the scans look for. */
  datatype Class = Blank | Zero | Decimal | Hexadecimal | NotNull

  predicate Is(k: Class, c: Char) {
    match k
    case Blank => c == SPACE || c == TAB
    case Zero => c == ZERO
    case Decimal => IsDecimalDigit(c)
    case Hexadecimal => IsHexDigit(c)
    case NotNull => c != NUL
  }

  /** A null-terminated string. */
  ghost predicate Terminated(text: seq<Char>) {
    |text| > 0 && text[|text| - 1] == NUL
  }

  /** Where the run of `k` from `at` on ends. */
  ghost function RunEnd(text: seq<Char>, at: nat, k: Class): (e: nat)
    ensures at <= |text| ==> at <= e <= |text|
    decreases |text| - at
  {
    if at < |text| && Is(k, text[at]) then RunEnd(text, at + 1, k) else at
  }

  /** Everything in the run belongs to the class, and what follows does not. */
  lemma {:induction false} RunIs(text: seq<Char>, at: nat, k: Class)
    requires at <= |text|
    ensures forall i :: at <= i < RunEnd(text, at, k) ==> Is(k, text[i])
    ensures RunEnd(text, at, k) < |text| ==> !Is(k, text[RunEnd(text, at, k)])
    decreases |text| - at
  {
    if at < |text| && Is(k, text[at]) { RunIs(text, at + 1, k); }
  }

  /** In a null-terminated string a run ends at the null at the latest. */
  lemma RunInside(text: seq<Char>, at: nat, k: Class)
    requires Terminated(text) && at < |text| && !Is(k, NUL)
    ensures RunEnd(text, at, k) < |text|
  {
    RunIs(text, at, k);
  }

  lemma {:induction false} RunEndIs(text: seq<Char>, at: nat, k: Class, e: nat)
    requires at <= e < |text| && !Is(k, text[e]) && forall i :: at <= i < e ==> Is(k, text[i])
    ensures RunEnd(text, at, k) == e
    decreases e - at
  {
    if at < e { RunEndIs(text, at + 1, k, e); }
  }

  lemma {:induction false} RunEndFrom(text: seq<Char>, at: nat, k: Class, m: nat)
    requires at <= m <= RunEnd(text, at, k) && at <= |text|
    ensures RunEnd(text, m, k) == RunEnd(text, at, k)
    decreases m - at
  {
    if at < m { RunEndFrom(text, at + 1, k, m); }
  }

  lemma {:induction false} RunEndAtMost(text: seq<Char>, at: nat, k: Class, e: nat)
    requires at <= e < |text| && !Is(k, text[e])
    ensures RunEnd(text, at, k) <= e
    decreases e - at
  {
    if at < e { RunEndAtMost(text, at + 1, k, e); }
  }

  // ---------- the value of digits ----------

  ghost predicate AllDigits(k: Class, ds: seq<Char>) {
    (k.Decimal? || k.Hexadecimal?) && forall i :: 0 <= i < |ds| ==> Is(k, ds[i])
  }

  function Radix(k: Class): nat {
    if k.Decimal? then 10 else 16
  }

  /** The number that digits stand for. */
  ghost function Value(k: Class, ds: seq<Char>): nat
    requires AllDigits(k, ds)
  {
    if ds == [] then 0 else Radix(k) * Value(k, ds[..|ds| - 1]) + HexCharToUintn(ds[|ds| - 1])
  }

  lemma ValueNext(k: Class, ds: seq<Char>, d: Char)
    requires AllDigits(k, ds) && Is(k, d)
    ensures AllDigits(k, ds + [d]) && Value(k, ds + [d]) == Radix(k) * Value(k, ds) + HexCharToUintn(d)
  {
  }

  lemma TimesRadix(k: Class, v: nat)
    ensures v <= Radix(k) * v
  {
  }

  lemma {:induction false} ValueGrows(k: Class, ds: seq<Char>, es: seq<Char>)
    requires AllDigits(k, ds) && AllDigits(k, es)
    ensures AllDigits(k, ds + es) && Value(k, ds) <= Value(k, ds + es)
    decreases |es|
  {
    hide Value, HexCharToUintn, Radix;
    if es == [] {
      assert ds + es == ds;
    } else {
      var n := |es| - 1;
      TimesRadix(k, Value(k, ds + es[..n]));
      ValueGrows(k, ds, es[..n]);
      ValueNext(k, ds + es[..n], es[n]);
      assert ds + es[..n] + [es[n]] == ds + es;
    }
  }

  lemma {:induction false} OnlyZeros(k: Class, zs: seq<Char>)
    requires (k.Decimal? || k.Hexadecimal?) && forall i :: 0 <= i < |zs| ==> zs[i] == ZERO
    ensures AllDigits(k, zs) && Value(k, zs) == 0
  {
    if zs != [] {
      var n := |zs| - 1;
      OnlyZeros(k, zs[..n]);
      assert HexCharToUintn(zs[n]) == 0 && Radix(k) * 0 == 0;
    }
  }

  /** Leading zeros do not count. */
  lemma {:induction false} LeadingZeros(k: Class, zs: seq<Char>, ds: seq<Char>)
    requires AllDigits(k, ds) && (k.Decimal? || k.Hexadecimal?) && forall i :: 0 <= i < |zs| ==> zs[i] == ZERO
    ensures AllDigits(k, zs + ds) && Value(k, zs + ds) == Value(k, ds)
    decreases |ds|
  {
    hide HexCharToUintn, Radix, IsHexDigit, IsDecimalDigit;
    if ds == [] {
      OnlyZeros(k, zs);
      assert zs + ds == zs;
    } else {
      var n := |ds| - 1;
      LeadingZeros(k, zs, ds[..n]);
      assert (zs + ds)[..|zs + ds| - 1] == zs + ds[..n] && (zs + ds)[|zs + ds| - 1] == ds[n];
    }
  }

  /** What a conversion says about the digits from `from` on: their value and where they end if the
      value is at most `max`; else `max`, and the place of the first digit that is too much. */
  ghost predicate Saturated(text: seq<Char>, from: nat, k: Class, max: nat, status: Status, data: nat, end: nat)
    requires from <= |text| && (k.Decimal? || k.Hexadecimal?)
  {
    RunIs(text, from, k);
    var e := RunEnd(text, from, k);
    if Value(k, text[from..e]) <= max then
      status == EFI_SUCCESS && data == Value(k, text[from..e]) && end == e
    else
      && status == EFI_UNSUPPORTED && data == max && from <= end < e
      && Value(k, text[from..end]) <= max < Value(k, text[from..end + 1])
  }

  lemma FitsExactly(text: seq<Char>, from: nat, k: Class, max: nat, status: Status, data: nat, end: nat)
    requires from <= |text| && (k.Decimal? || k.Hexadecimal?) && Saturated(text, from, k, max, status, data, end)
    requires AllDigits(k, text[from..RunEnd(text, from, k)]) && Value(k, text[from..RunEnd(text, from, k)]) <= max
    ensures status == EFI_SUCCESS && data == Value(k, text[from..RunEnd(text, from, k)]) && end == RunEnd(text, from, k)
  {
    hide Value, AllDigits, RunEnd;
  }

  /** The overflow test before a digit is taken on. */
  lemma OverflowTest(radix: nat, data: nat, digit: nat, max: nat)
    requires radix > 0 && digit <= max
    ensures data > (max - digit) / radix <==> radix * data + digit > max
  {
    var q := (max - digit) / radix;
    StepOver(radix, q, data);
    StepOver(radix, data, q);
  }

  lemma Digit(k: Class, c: Char)
    requires (k.Decimal? || k.Hexadecimal?) && Is(k, c)
    ensures IsHexDigit(c) && HexCharToUintn(c) < Radix(k) <= 16
  {
  }

  /** The loop over the digits, which is the same in all the converters.  `max` is MAX_UINTN or MAX_UINT64. */
  method ConvertDigits(text: seq<Char>, from: nat, k: Class, max: nat) returns (status: Status, data: nat, end: nat)
    requires Terminated(text) && from < |text| && (k.Decimal? || k.Hexadecimal?) && max >= 15
    ensures Saturated(text, from, k, max, status, data, end)
  {
    hide Value, HexCharToUintn, IsHexDigit, AllDigits, Saturated, RunEnd, Is, Radix;
    ghost var e := RunEnd(text, from, k);
    data, end := 0, from;
    NoDigits(k, text, from);
    RunGoesOn(text, from, k, end);
    while Is(k, text[end])
      invariant from <= end <= e < |text| && AllDigits(k, text[from..end])
      invariant data == Value(k, text[from..end]) && data <= max
      invariant Is(k, text[end]) <==> end < e
      decreases e - end
    {
      NextDigit(k, text, from, end, e);
      Digit(k, text[end]);
      var digit := HexCharToUintn(text[end]);
      OverflowTest(Radix(k), data, digit, max);
      if data > (max - digit) / Radix(k) {
        SaturatedOver(text, from, k, max, end);
        return EFI_UNSUPPORTED, max, end;
      }
      data := Radix(k) * data + digit;
      end := end + 1;
      RunGoesOn(text, from, k, end);
    }
    SaturatedFits(text, from, k, max);
    status := EFI_SUCCESS;
  }

  lemma RunGoesOn(text: seq<Char>, from: nat, k: Class, m: nat)
    requires Terminated(text) && from <= m <= RunEnd(text, from, k) && from < |text| && !Is(k, NUL)
    ensures RunEnd(text, from, k) < |text| && (Is(k, text[m]) <==> m < RunEnd(text, from, k))
  {
    RunIs(text, from, k);
  }

  lemma SaturatedFits(text: seq<Char>, from: nat, k: Class, max: nat)
    requires from <= |text| && (k.Decimal? || k.Hexadecimal?) && AllDigits(k, text[from..RunEnd(text, from, k)])
    requires Value(k, text[from..RunEnd(text, from, k)]) <= max
    ensures Saturated(text, from, k, max, EFI_SUCCESS, Value(k, text[from..RunEnd(text, from, k)]),
                      RunEnd(text, from, k))
  {
  }

  lemma SaturatedOver(text: seq<Char>, from: nat, k: Class, max: nat, end: nat)
    requires (k.Decimal? || k.Hexadecimal?) && from <= end < RunEnd(text, from, k) < |text|
    requires AllDigits(k, text[from..end]) && AllDigits(k, text[from..end + 1])
    requires Value(k, text[from..end]) <= max < Value(k, text[from..end + 1])
    ensures Saturated(text, from, k, max, EFI_UNSUPPORTED, max, end)
  {
    hide Value, AllDigits;
    NextDigit(k, text, from, end, RunEnd(text, from, k));
  }

  lemma NoDigits(k: Class, text: seq<Char>, from: nat)
    requires from < |text| && (k.Decimal? || k.Hexadecimal?)
    ensures text[from..from] == [] && AllDigits(k, text[from..from]) && Value(k, text[from..from]) == 0
    ensures !Is(k, NUL) && Radix(k) > 0
  {
  }

  lemma NextDigit(k: Class, text: seq<Char>, from: nat, end: nat, e: nat)
    requires (k.Decimal? || k.Hexadecimal?) && from <= end < e == RunEnd(text, from, k) && e < |text|
    ensures AllDigits(k, text[from..e]) && AllDigits(k, text[from..end]) && AllDigits(k, text[from..end + 1])
    ensures IsHexDigit(text[end])
    ensures Value(k, text[from..end + 1]) == Radix(k) * Value(k, text[from..end]) + HexCharToUintn(text[end])
    ensures Value(k, text[from..end + 1]) <= Value(k, text[from..e])
  {
    hide Value, HexCharToUintn, Radix;
    RunIs(text, from, k);
    assert text[from..end + 1] == text[from..end] + [text[end]];
    ValueNext(k, text[from..end], text[end]);
    assert text[from..end + 1] + text[end + 1..e] == text[from..e];
    ValueGrows(k, text[from..end + 1], text[end + 1..e]);
  }

  /** StrnLenS */
  method StrnLenS(text: seq<Char>, at: nat, maxSize: nat) returns (length: nat)
    requires Terminated(text) && at < |text|
    ensures length == var n := RunEnd(text, at, NotNull) - at; if n <= maxSize then n else maxSize
  {
    RunIs(text, at, NotNull);
    RunInside(text, at, NotNull);
    length := 0;
    while length < maxSize && text[at + length] != NUL
      invariant length <= maxSize && at + length <= RunEnd(text, at, NotNull)
      decreases maxSize - length
    {
      length := length + 1;
    }
  }

  method Skip(text: seq<Char>, at: nat, k: Class) returns (e: nat)
    requires Terminated(text) && at < |text| && !Is(k, NUL)
    ensures e == RunEnd(text, at, k) && e < |text|
  {
    RunIs(text, at, k);
    RunInside(text, at, k);
    e := at;
    while Is(k, text[e])
      invariant at <= e <= RunEnd(text, at, k)
      decreases |text| - e
    {
      e := e + 1;
    }
  }

  ghost predicate TooLong(text: seq<Char>, at: nat) {
    RunEnd(text, at, NotNull) - at > 0x100_0000
  }

  /** Where the digits of a decimal numeral start that count: after blanks and zeros. */
  ghost function DecimalStart(text: seq<Char>, at: nat): (s: nat)
    ensures at <= |text| ==> at <= s <= |text|
    ensures Terminated(text) && at < |text| ==> s < |text|
  {
    if Terminated(text) && at < |text| then
      RunInside(text, at, Blank);
      RunInside(text, RunEnd(text, at, Blank), Zero);
      RunEnd(text, RunEnd(text, at, Blank), Zero)
    else RunEnd(text, RunEnd(text, at, Blank), Zero)
  }

  /** StrDecimalToUintnS and StrDecimalToUint64S: `end` is what is stored at EndPointer. */
  method StrDecimalToUintnS(text: seq<Char>, at: nat, max: nat) returns (status: Status, data: nat, end: nat)
    requires Terminated(text) && at < |text| && max >= 15
    ensures TooLong(text, at) ==> status == EFI_INVALID_PARAMETER
    ensures !TooLong(text, at) ==> Saturated(text, DecimalStart(text, at), Decimal, max, status, data, end)
  {
    hide Saturated;
    var length := StrnLenS(text, at, RSIZE_MAX + 1);
    if length > RSIZE_MAX {
      return EFI_INVALID_PARAMETER, 0, at;
    }
    var cursor := Skip(text, at, Blank);
    cursor := Skip(text, cursor, Zero);
    status, data, end := ConvertDigits(text, cursor, Decimal, max);
  }

  /** The character before index `s`; `before` is what is in memory in front of the string. */
  function CharBefore(text: seq<Char>, s: nat, before: Char): Char
    requires s <= |text|
  {
    if s == 0 then before else text[s - 1]
  }

  /** The conversion of a hexadecimal numeral: an x is skipped if there is a zero in front of it; without
      one the numeral counts as empty and `end` is the start of the string. */
  ghost predicate HexConverted(text: seq<Char>, at: nat, max: nat, before: Char, status: Status, data: nat, end: nat)
    requires Terminated(text) && at < |text|
  {
    if TooLong(text, at) then status == EFI_INVALID_PARAMETER
    else
      var s := DecimalStart(text, at);
      if CharToUpper(text[s]) != UPPER_X then Saturated(text, s, Hexadecimal, max, status, data, end)
      else if CharBefore(text, s, before) == ZERO then Saturated(text, s + 1, Hexadecimal, max, status, data, end)
      else status == EFI_SUCCESS && data == 0 && end == at
  }

  /** StrHexToUintnS and StrHexToUint64S. */
  method StrHexToUintnS(text: seq<Char>, at: nat, max: nat, before: Char) returns (status: Status, data: nat, end: nat)
    requires Terminated(text) && at < |text| && max >= 15
    ensures HexConverted(text, at, max, before, status, data, end)
  {
    hide Saturated;
    var length := StrnLenS(text, at, RSIZE_MAX + 1);
    if length > RSIZE_MAX {
      return EFI_INVALID_PARAMETER, 0, at;
    }
    end := at;
    var cursor := Skip(text, at, Blank);
    cursor := Skip(text, cursor, Zero);
    if CharToUpper(text[cursor]) == UPPER_X {
      if CharBefore(text, cursor, before) != ZERO {
        return EFI_SUCCESS, 0, end;
      }
      cursor := cursor + 1;
    }
    status, data, end := ConvertDigits(text, cursor, Hexadecimal, max);
  }

  // ---------- printing and parsing ----------

  /** The digit character of `d`, in upper or lower case. */
  function DigitChar(d: nat, upper: bool): (c: Char)
    requires d < 16
    ensures IsHexDigit(c) && HexCharToUintn(c) == d && (d < 10 ==> IsDecimalDigit(c))
  {
    if d < 10 then ZERO + d else if upper then UPPER_A + d - 10 else LOWER_A + d - 10
  }

  /** The usual numeral of `n`: no leading zeros. */
  function Print(k: Class, n: nat, upper: bool): (ds: seq<Char>)
    requires k.Decimal? || k.Hexadecimal?
    ensures |ds| > 0
    decreases n
  {
    var d := DigitChar(n % Radix(k), upper);
    if n < Radix(k) then [d] else Print(k, n / Radix(k), upper) + [d]
  }

  lemma RadixDigit(k: Class, n: nat, upper: bool)
    requires k.Decimal? || k.Hexadecimal?
    ensures n == Radix(k) * (n / Radix(k)) + n % Radix(k) && Is(k, DigitChar(n % Radix(k), upper))
  {
  }

  lemma NoValue(k: Class)
    requires k.Decimal? || k.Hexadecimal?
    ensures Value(k, []) == 0
  {
  }

  lemma {:induction false} PrintValue(k: Class, n: nat, upper: bool)
    requires k.Decimal? || k.Hexadecimal?
    ensures AllDigits(k, Print(k, n, upper)) && Value(k, Print(k, n, upper)) == n
    decreases n
  {
    hide HexCharToUintn, DigitChar, Value, IsHexDigit, IsDecimalDigit;
    var r := Radix(k);
    var d := DigitChar(n % r, upper);
    RadixDigit(k, n, upper);
    if n < r {
      NoValue(k);
      ValueNext(k, [], d);
      assert [] + [d] == [d];
    } else {
      PrintValue(k, n / r, upper);
      ValueNext(k, Print(k, n / r, upper), d);
    }
  }

  /** `text` reads, from `at` on: blanks, zeros, the digits `ds`, and something that goes on neither. */
  ghost predicate Numeral(text: seq<Char>, at: nat, k: Class, blanks: nat, zeros: nat, ds: seq<Char>) {
    && AllDigits(k, ds) && at + blanks + zeros + |ds| < |text|
    && (forall i :: at <= i < at + blanks ==> Is(Blank, text[i]))
    && (forall i :: at + blanks <= i < at + blanks + zeros ==> text[i] == ZERO)
    && text[at + blanks + zeros..at + blanks + zeros + |ds|] == ds
    && !Is(k, text[at + blanks + zeros + |ds|])
    && (zeros + |ds| > 0 || !Is(Blank, text[at + blanks]))
  }

  /** Whatever blanks and zeros precede them, the digits of a numeral determine the conversion: the
      converter delivers the value of the numeral if it fits, and says so if and only if it does not. */
  lemma NumeralValue(text: seq<Char>, at: nat, k: Class, blanks: nat, zeros: nat, ds: seq<Char>, max: nat,
                     status: Status, data: nat, end: nat)
    requires (k.Decimal? || k.Hexadecimal?) && Numeral(text, at, k, blanks, zeros, ds)
    requires Saturated(text, DecimalStart(text, at), k, max, status, data, end)
    ensures status == EFI_SUCCESS <==> Value(k, ds) <= max
    ensures data == (if Value(k, ds) <= max then Value(k, ds) else max)
    ensures status == EFI_SUCCESS ==> end == at + blanks + zeros + |ds|
  {
    hide Value, HexCharToUintn, AllDigits, Radix, Is, RunEnd, DecimalStart, Numeral;
    var first, s, e := at + blanks, DecimalStart(text, at), at + blanks + zeros + |ds|;
    NumeralRuns(text, at, k, blanks, zeros, ds);
    NumeralDigits(text, at, k, blanks, zeros, ds);
    ZerosSkipped(text, first, s, e, k);
    RunEndFrom(text, first, k, s);
  }

  lemma NumeralDigits(text: seq<Char>, at: nat, k: Class, blanks: nat, zeros: nat, ds: seq<Char>)
    requires (k.Decimal? || k.Hexadecimal?) && Numeral(text, at, k, blanks, zeros, ds)
    ensures var first, e := at + blanks, at + blanks + zeros + |ds|;
            && e < |text| && AllDigits(k, ds) && AllDigits(k, text[first..e])
            && Value(k, text[first..e]) == Value(k, ds)
  {
    hide Value, HexCharToUintn, Is, RunEnd;
    NumeralRuns(text, at, k, blanks, zeros, ds);
    ZerosSkipped(text, at + blanks, at + blanks + zeros, at + blanks + zeros + |ds|, k);
  }

  /** The digits of a run have the same value without its leading zeros. */
  lemma ZerosSkipped(text: seq<Char>, first: nat, s: nat, e: nat, k: Class)
    requires (k.Decimal? || k.Hexadecimal?) && first <= s <= e <= |text| && RunEnd(text, first, k) == e
    requires forall i :: first <= i < s ==> text[i] == ZERO
    ensures AllDigits(k, text[first..e]) && AllDigits(k, text[s..e]) && Value(k, text[first..e]) == Value(k, text[s..e])
  {
    hide Value, HexCharToUintn;
    RunIs(text, first, k);
    assert text[first..e] == text[first..s] + text[s..e];
    LeadingZeros(k, text[first..s], text[s..e]);
  }

  lemma NumeralIs(text: seq<Char>, at: nat, k: Class, blanks: nat, zeros: nat, ds: seq<Char>)
    requires (k.Decimal? || k.Hexadecimal?) && Numeral(text, at, k, blanks, zeros, ds)
    ensures forall i :: at + blanks <= i < at + blanks + zeros + |ds| ==> Is(k, text[i])
  {
    hide RunEnd, Value, Is;
    ZeroIsDigit(k);
    SliceDigits(text, at + blanks + zeros, k, ds);
  }

  lemma SliceDigits(text: seq<Char>, s: nat, k: Class, ds: seq<Char>)
    requires s + |ds| <= |text| && text[s..s + |ds|] == ds && AllDigits(k, ds)
    ensures forall i :: s <= i < s + |ds| ==> Is(k, text[i])
  {
    hide Is;
    forall i | s <= i < s + |ds| ensures Is(k, text[i]) { assert text[i] == ds[i - s]; }
  }

  lemma ZeroIsDigit(k: Class)
    ensures k.Decimal? || k.Hexadecimal? ==> Is(k, ZERO)
  {
  }

  lemma NumeralRuns(text: seq<Char>, at: nat, k: Class, blanks: nat, zeros: nat, ds: seq<Char>)
    requires (k.Decimal? || k.Hexadecimal?) && Numeral(text, at, k, blanks, zeros, ds)
    ensures RunEnd(text, at, Blank) == at + blanks
    ensures RunEnd(text, at + blanks, k) == at + blanks + zeros + |ds|
    ensures at + blanks <= DecimalStart(text, at) <= at + blanks + zeros + |ds|
    ensures forall i :: at + blanks <= i < DecimalStart(text, at) ==> text[i] == ZERO
  {
    hide RunEnd;
    var first, e := at + blanks, at + blanks + zeros + |ds|;
    NumeralIs(text, at, k, blanks, zeros, ds);
    RunEndIs(text, at, Blank, first);
    RunEndIs(text, first, k, e);
    RunEndAtMost(text, first, Zero, e);
    RunIs(text, first, Zero);
  }

  /** `text` reads, from `at` on: blanks, at least one zero, an x, the digits `ds`, and no further digit. */
  ghost predicate PrefixedNumeral(text: seq<Char>, at: nat, blanks: nat, zeros: nat, ds: seq<Char>) {
    && AllDigits(Hexadecimal, ds) && zeros > 0 && at + blanks + zeros + 1 + |ds| < |text|
    && (forall i :: at <= i < at + blanks ==> Is(Blank, text[i]))
    && (forall i :: at + blanks <= i < at + blanks + zeros ==> text[i] == ZERO)
    && CharToUpper(text[at + blanks + zeros]) == UPPER_X
    && text[at + blanks + zeros + 1..at + blanks + zeros + 1 + |ds|] == ds
    && !IsHexDigit(text[at + blanks + zeros + 1 + |ds|])
  }

  lemma PrefixedRuns(text: seq<Char>, at: nat, blanks: nat, zeros: nat, ds: seq<Char>)
    requires PrefixedNumeral(text, at, blanks, zeros, ds)
    ensures DecimalStart(text, at) == at + blanks + zeros && text[at + blanks + zeros - 1] == ZERO
    ensures RunEnd(text, at + blanks + zeros + 1, Hexadecimal) == at + blanks + zeros + 1 + |ds|
  {
    hide RunEnd;
    var first, x := at + blanks, at + blanks + zeros;
    assert text[first] == ZERO && text[x] != ZERO;
    RunEndIs(text, at, Blank, first);
    RunEndIs(text, first, Zero, x);
    SliceDigits(text, x + 1, Hexadecimal, ds);
    RunEndIs(text, x + 1, Hexadecimal, x + 1 + |ds|);
  }

  /** The same for a hexadecimal numeral with a prefix: an x behind at least one zero is passed over. */
  lemma PrefixedValue(text: seq<Char>, at: nat, blanks: nat, zeros: nat, ds: seq<Char>, max: nat, before: Char,
                      status: Status, data: nat, end: nat)
    requires Terminated(text) && PrefixedNumeral(text, at, blanks, zeros, ds) && !TooLong(text, at)
    requires HexConverted(text, at, max, before, status, data, end)
    ensures status == EFI_SUCCESS <==> Value(Hexadecimal, ds) <= max
    ensures data == (if Value(Hexadecimal, ds) <= max then Value(Hexadecimal, ds) else max)
    ensures status == EFI_SUCCESS ==> end == at + blanks + zeros + 1 + |ds|
  {
    hide Value, HexCharToUintn, TooLong, DecimalStart, RunEnd, AllDigits;
    PrefixedRuns(text, at, blanks, zeros, ds);
  }

  /** Converting the printed form of a number gives the number back. */
  lemma PrintedNumber(text: seq<Char>, at: nat, k: Class, blanks: nat, zeros: nat, n: nat, upper: bool, max: nat,
                      status: Status, data: nat, end: nat)
    requires (k.Decimal? || k.Hexadecimal?) && Numeral(text, at, k, blanks, zeros, Print(k, n, upper)) && n <= max
    requires Saturated(text, DecimalStart(text, at), k, max, status, data, end)
    ensures status == EFI_SUCCESS && data == n && end == at + blanks + zeros + |Print(k, n, upper)|
  {
    PrintValue(k, n, upper);
    NumeralValue(text, at, k, blanks, zeros, Print(k, n, upper), max, status, data, end);
  }

  /** NumeralValue for StrHexToUintnS: digits that are all zeros must not be followed by an x, which would
      make a prefix of them. */
  lemma HexNumeralValue(text: seq<Char>, at: nat, blanks: nat, zeros: nat, ds: seq<Char>, max: nat, before: Char,
                        status: Status, data: nat, end: nat)
    requires Terminated(text) && Numeral(text, at, Hexadecimal, blanks, zeros, ds) && !TooLong(text, at)
    requires Value(Hexadecimal, ds) > 0 || CharToUpper(text[at + blanks + zeros + |ds|]) != UPPER_X
    requires HexConverted(text, at, max, before, status, data, end)
    ensures status == EFI_SUCCESS <==> Value(Hexadecimal, ds) <= max
    ensures data == (if Value(Hexadecimal, ds) <= max then Value(Hexadecimal, ds) else max)
    ensures status == EFI_SUCCESS ==> end == at + blanks + zeros + |ds|
  {
    hide Value, HexCharToUintn, TooLong, DecimalStart, RunEnd, AllDigits, Numeral, Saturated;
    NumeralStartsPlain(text, at, blanks, zeros, ds);
    NumeralValue(text, at, Hexadecimal, blanks, zeros, ds, max, status, data, end);
  }

  lemma HexIsNotX(c: Char)
    requires IsHexDigit(c)
    ensures CharToUpper(c) != UPPER_X && c != NUL && !Is(Blank, c)
  {
  }

  lemma NumeralStartsPlain(text: seq<Char>, at: nat, blanks: nat, zeros: nat, ds: seq<Char>)
    requires Numeral(text, at, Hexadecimal, blanks, zeros, ds)
    requires Value(Hexadecimal, ds) > 0 || CharToUpper(text[at + blanks + zeros + |ds|]) != UPPER_X
    ensures DecimalStart(text, at) < |text| && CharToUpper(text[DecimalStart(text, at)]) != UPPER_X
  {
    hide Value, HexCharToUintn, DecimalStart, AllDigits, RunEnd, IsHexDigit, CharToUpper, Numeral;
    var first, s, e := at + blanks, DecimalStart(text, at), at + blanks + zeros + |ds|;
    NumeralRuns(text, at, Hexadecimal, blanks, zeros, ds);
    NumeralDigits(text, at, Hexadecimal, blanks, zeros, ds);
    RunIs(text, first, Hexadecimal);
    if s == e {
      ZerosSkipped(text, first, e, e, Hexadecimal);
      assert text[e..e] == [];
      NoValue(Hexadecimal);
    } else {
      HexIsNotX(text[s]);
    }
  }

  /** Converting the printed form of a number gives the number back. */
  lemma PrintedHexNumber(text: seq<Char>, at: nat, blanks: nat, zeros: nat, n: nat, upper: bool, max: nat, before: Char,
                         status: Status, data: nat, end: nat)
    requires Terminated(text) && Numeral(text, at, Hexadecimal, blanks, zeros, Print(Hexadecimal, n, upper))
    requires n <= max && !TooLong(text, at)
    requires n > 0 || CharToUpper(text[at + blanks + zeros + 1]) != UPPER_X
    requires HexConverted(text, at, max, before, status, data, end)
    ensures status == EFI_SUCCESS && data == n && end == at + blanks + zeros + |Print(Hexadecimal, n, upper)|
  {
    hide Value, HexCharToUintn, TooLong, HexConverted, Numeral, DigitChar;
    PrintValue(Hexadecimal, n, upper);
    HexNumeralValue(text, at, blanks, zeros, Print(Hexadecimal, n, upper), max, before, status, data, end);
  }

  // ---------- numerals without digits, and what is in front of a string ----------

  lemma EmptyRun(text: seq<Char>, s: nat, k: Class, max: nat, status: Status, data: nat, end: nat)
    requires s < |text| && (k.Decimal? || k.Hexadecimal?) && !Is(k, text[s])
    requires Saturated(text, s, k, max, status, data, end)
    ensures status == EFI_SUCCESS && data == 0 && end == s
  {
    NoDigits(k, text, s);
  }

  lemma NothingToSkip(text: seq<Char>, at: nat)
    requires Terminated(text) && at < |text|
    ensures at <= RunEnd(text, at, Blank) < |text| && (RunEnd(text, at, Blank) == at <==> !Is(Blank, text[at]))
    ensures text[RunEnd(text, at, Blank)] != ZERO ==> DecimalStart(text, at) == RunEnd(text, at, Blank)
    ensures RunEnd(text, at, Blank) > at ==> text[RunEnd(text, at, Blank) - 1] != ZERO
  {
    RunIs(text, at, Blank);
    RunInside(text, at, Blank);
  }

  /** With no digit behind the blanks, EndPointer gets the place behind them, and so the start of the string,
      which the comments promise, exactly if there is no blank. */
  lemma EmptyDecimal(text: seq<Char>, at: nat, max: nat, status: Status, data: nat, end: nat)
    requires Terminated(text) && at < |text| && !IsDecimalDigit(text[BlanksEnd(text, at)])
    requires Saturated(text, DecimalStart(text, at), Decimal, max, status, data, end)
    ensures status == EFI_SUCCESS && data == 0 && end == BlanksEnd(text, at)
    ensures end == at <==> !Is(Blank, text[at])
  {
    hide Saturated, RunEnd, DecimalStart;
    NothingToSkip(text, at);
    EmptyRun(text, BlanksEnd(text, at), Decimal, max, status, data, end);
  }

  ghost function BlanksEnd(text: seq<Char>, at: nat): (e: nat)
    requires Terminated(text) && at < |text|
    ensures at <= e < |text|
  {
    RunInside(text, at, Blank);
    RunEnd(text, at, Blank)
  }

  /** The same for a hexadecimal numeral: an x behind the blanks that does not count as a prefix has the start
      of the string stored, whether or not there are blanks. */
  lemma EmptyHex(text: seq<Char>, at: nat, max: nat, before: Char, status: Status, data: nat, end: nat)
    requires Terminated(text) && at < |text| && !IsHexDigit(text[BlanksEnd(text, at)]) && !TooLong(text, at)
    requires HexConverted(text, at, max, before, status, data, end)
    ensures var b := BlanksEnd(text, at);
            && (CharToUpper(text[b]) != UPPER_X ==> status == EFI_SUCCESS && data == 0 && end == b)
            && (end == at <==> if CharToUpper(text[b]) == UPPER_X then CharBefore(text, b, before) != ZERO
                               else !Is(Blank, text[at]))
  {
    hide Saturated, RunEnd, DecimalStart, TooLong;
    var b := BlanksEnd(text, at);
    NothingToSkip(text, at);
    if CharToUpper(text[b]) != UPPER_X {
      EmptyRun(text, b, Hexadecimal, max, status, data, end);
    } else if CharBefore(text, b, before) == ZERO {
      SaturatedBounds(text, b + 1, Hexadecimal, max, status, data, end);
    }
  }

  lemma SaturatedBounds(text: seq<Char>, from: nat, k: Class, max: nat, status: Status, data: nat, end: nat)
    requires from <= |text| && (k.Decimal? || k.Hexadecimal?) && Saturated(text, from, k, max, status, data, end)
    ensures from <= end <= |text|
  {
    hide Value;
  }

  /** The string alone does not determine the conversion, because the character in front of it is looked at,
      exactly if it is not too long and begins with an x. */
  lemma FrontMattersIff(text: seq<Char>, max: nat)
    requires Terminated(text)
    ensures (exists b: Char, b': Char, status, data: nat, end: nat ::
               HexConverted(text, 0, max, b, status, data, end) && !HexConverted(text, 0, max, b', status, data, end))
            <==> !TooLong(text, 0) && (text[0] == 0x58 || text[0] == 0x78)
  {
    hide Saturated, TooLong, RunEnd, DecimalStart, CharToUpper;
    XIs(text[0]);
    if !TooLong(text, 0) && CharToUpper(text[0]) == UPPER_X {
      NothingToSkip(text, 0);
      if Saturated(text, 1, Hexadecimal, max, EFI_SUCCESS, 0, 0) {
        SaturatedBounds(text, 1, Hexadecimal, max, EFI_SUCCESS, 0, 0);
      }
      assert HexConverted(text, 0, max, NUL, EFI_SUCCESS, 0, 0) && !HexConverted(text, 0, max, ZERO, EFI_SUCCESS, 0, 0);
    } else {
      forall b: Char, b': Char, status, data: nat, end: nat | HexConverted(text, 0, max, b, status, data, end)
        ensures HexConverted(text, 0, max, b', status, data, end)
      {
        FrontIgnored(text, max, b, b', status, data, end);
      }
    }
  }

  lemma FrontIgnored(text: seq<Char>, max: nat, b: Char, b': Char, status: Status, data: nat, end: nat)
    requires Terminated(text) && (TooLong(text, 0) || CharToUpper(text[0]) != UPPER_X)
    requires HexConverted(text, 0, max, b, status, data, end)
    ensures HexConverted(text, 0, max, b', status, data, end)
  {
    hide Saturated, TooLong;
  }

  lemma XIs(c: Char)
    ensures CharToUpper(c) == UPPER_X <==> c == 0x58 || c == 0x78
  {
  }

  // ---------- numerals character by character ----------

  /** The decimal numeral of `n`: '0' is 0x30. */
  ghost function Digits(n: nat): (ds: seq<Char>)
    ensures |ds| > 0
  {
    if n < 10 then [0x30 + n] else Digits(n / 10) + [0x30 + n % 10]
  }

  /** A hexadecimal digit: 'A' is 0x41, 'a' is 0x61. */
  ghost function HexDigit(d: nat, upper: bool): Char
    requires d < 16
  {
    if d < 10 then 0x30 + d else if upper then 0x41 + d - 10 else 0x61 + d - 10
  }

  ghost function HexDigits(n: nat, upper: bool): (ds: seq<Char>)
    ensures |ds| > 0
  {
    if n < 16 then [HexDigit(n, upper)] else HexDigits(n / 16, upper) + [HexDigit(n % 16, upper)]
  }

  lemma {:induction false} DigitsPrinted(n: nat, upper: bool)
    ensures Print(Decimal, n, upper) == Digits(n)
    decreases n
  {
    if n >= 10 { DigitsPrinted(n / 10, upper); }
  }

  lemma {:induction false} HexDigitsPrinted(n: nat, upper: bool)
    ensures Print(Hexadecimal, n, upper) == HexDigits(n, upper)
    decreases n
  {
    if n >= 16 { HexDigitsPrinted(n / 16, upper); }
  }

  /** From `at` on: spaces (0x20) and tabs (9), zeros (0x30), and then `ds`, with something behind it. */
  ghost predicate Spelled(text: seq<Char>, at: nat, blanks: nat, zeros: nat, ds: seq<Char>) {
    && at + blanks + zeros + |ds| < |text|
    && (forall i :: at <= i < at + blanks ==> text[i] == 0x20 || text[i] == 9)
    && (forall i :: at + blanks <= i < at + blanks + zeros ==> text[i] == 0x30)
    && text[at + blanks + zeros..at + blanks + zeros + |ds|] == ds
  }

  predicate IsHexCode(c: Char) {
    0x30 <= c <= 0x39 || 0x41 <= c <= 0x46 || 0x61 <= c <= 0x66
  }

  lemma SpelledNumeral(text: seq<Char>, at: nat, k: Class, blanks: nat, zeros: nat, ds: seq<Char>)
    requires Spelled(text, at, blanks, zeros, ds) && AllDigits(k, ds) && ds != []
    requires !Is(k, text[at + blanks + zeros + |ds|])
    ensures Numeral(text, at, k, blanks, zeros, ds)
  {
    hide AllDigits;
  }

  /** What a converter delivers for a number `n` whose digits end at `behind`. */
  predicate Delivers(n: nat, max: nat, behind: nat, status: Status, data: nat, end: nat) {
    if n <= max then status == EFI_SUCCESS && data == n && end == behind
    else status == EFI_UNSUPPORTED && data == max && end < behind
  }

  lemma SaturatedDelivers(text: seq<Char>, at: nat, k: Class, blanks: nat, zeros: nat, ds: seq<Char>, n: nat, max: nat,
                          status: Status, data: nat, end: nat)
    requires (k.Decimal? || k.Hexadecimal?) && Numeral(text, at, k, blanks, zeros, ds) && Value(k, ds) == n
    requires Saturated(text, DecimalStart(text, at), k, max, status, data, end)
    ensures Delivers(n, max, at + blanks + zeros + |ds|, status, data, end)
  {
    hide Value, DecimalStart, RunEnd, AllDigits;
    NumeralValue(text, at, k, blanks, zeros, ds, max, status, data, end);
    NumeralRuns(text, at, k, blanks, zeros, ds);
    RunEndFrom(text, at + blanks, k, DecimalStart(text, at));
  }

  /** Spaces and tabs, zeros, and the decimal numeral of a number, up to the first character that is no
      digit, are converted to the number, or to the maximum if it is larger. */
  lemma DecimalSpelled(text: seq<Char>, at: nat, blanks: nat, zeros: nat, n: nat, max: nat,
                       status: Status, data: nat, end: nat)
    requires Terminated(text) && Spelled(text, at, blanks, zeros, Digits(n))
    requires !(0x30 <= text[at + blanks + zeros + |Digits(n)|] <= 0x39)
    requires Saturated(text, DecimalStart(text, at), Decimal, max, status, data, end)
    ensures Delivers(n, max, at + blanks + zeros + |Digits(n)|, status, data, end)
  {
    hide Saturated, DecimalStart, Digits, Print, AllDigits, Numeral, Spelled, Value;
    DigitsPrinted(n, true);
    PrintValue(Decimal, n, true);
    SpelledNumeral(text, at, Decimal, blanks, zeros, Digits(n));
    SaturatedDelivers(text, at, Decimal, blanks, zeros, Digits(n), n, max, status, data, end);
  }

  /** The same in hexadecimal, in either case; a zero must not be followed by an x. */
  lemma HexSpelled(text: seq<Char>, at: nat, blanks: nat, zeros: nat, n: nat, upper: bool, max: nat, before: Char,
                   status: Status, data: nat, end: nat)
    requires Terminated(text) && Spelled(text, at, blanks, zeros, HexDigits(n, upper)) && !TooLong(text, at)
    requires var c := text[at + blanks + zeros + |HexDigits(n, upper)|];
             !IsHexCode(c) && (n == 0 ==> c != 0x58 && c != 0x78)
    requires HexConverted(text, at, max, before, status, data, end)
    ensures Delivers(n, max, at + blanks + zeros + |HexDigits(n, upper)|, status, data, end)
  {
    hide Saturated, HexDigits, Print, AllDigits, Numeral, DecimalStart, TooLong, CharToUpper, Value;
    XIs(text[at + blanks + zeros + |HexDigits(n, upper)|]);
    HexDigitsPrinted(n, upper);
    PrintValue(Hexadecimal, n, upper);
    SpelledNumeral(text, at, Hexadecimal, blanks, zeros, HexDigits(n, upper));
    NumeralStartsPlain(text, at, blanks, zeros, HexDigits(n, upper));
    SaturatedDelivers(text, at, Hexadecimal, blanks, zeros, HexDigits(n, upper), n, max, status, data, end);
  }

  /** And with an x (0x58 or 0x78) behind at least one zero. */
  lemma PrefixSpelled(text: seq<Char>, at: nat, blanks: nat, zeros: nat, x: Char, n: nat, upper: bool, max: nat,
                      before: Char, status: Status, data: nat, end: nat)
    requires Terminated(text) && zeros > 0 && (x == 0x58 || x == 0x78) && !TooLong(text, at)
    requires Spelled(text, at, blanks, zeros, [x] + HexDigits(n, upper))
    requires !IsHexCode(text[at + blanks + zeros + 1 + |HexDigits(n, upper)|])
    requires HexConverted(text, at, max, before, status, data, end)
    ensures Delivers(n, max, at + blanks + zeros + 1 + |HexDigits(n, upper)|, status, data, end)
  {
    hide HexDigits, Print, AllDigits, TooLong, CharToUpper, Value, RunEnd, DecimalStart;
    var ds, p := HexDigits(n, upper), at + blanks + zeros;
    XIs(x);
    HexDigitsPrinted(n, upper);
    PrintValue(Hexadecimal, n, upper);
    assert text[p] == ([x] + ds)[0] && text[p + 1..p + 1 + |ds|] == text[p..p + 1 + |ds|][1..];
    PrefixedValue(text, at, blanks, zeros, ds, max, before, status, data, end);
    PrefixedRuns(text, at, blanks, zeros, ds);
  }

  /** A string that begins with anything but a space, a tab or a digit is converted to zero, and nothing of
      it is taken. */
  lemma NoDecimal(text: seq<Char>, at: nat, max: nat, status: Status, data: nat, end: nat)
    requires Terminated(text) && at < |text| && text[at] != 0x20 && text[at] != 9 && !(0x30 <= text[at] <= 0x39)
    requires Saturated(text, DecimalStart(text, at), Decimal, max, status, data, end)
    ensures status == EFI_SUCCESS && data == 0 && end == at
  {
    hide Saturated, DecimalStart;
    EmptyDecimal(text, at, max, status, data, end);
  }

  lemma NoHex(text: seq<Char>, at: nat, max: nat, before: Char, status: Status, data: nat, end: nat)
    requires Terminated(text) && at < |text| && text[at] != 0x20 && text[at] != 9 && !IsHexCode(text[at])
    requires text[at] != 0x58 && text[at] != 0x78 && !TooLong(text, at)
    requires HexConverted(text, at, max, before, status, data, end)
    ensures status == EFI_SUCCESS && data == 0 && end == at
  {
    hide HexConverted, TooLong;
    EmptyHex(text, at, max, before, status, data, end);
  }
}
