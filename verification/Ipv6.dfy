/** StrToIpv6Address and AsciiStrToIpv6Address of SafeString.c: the one-pass parser of IPv6 addresses.  It
    takes exactly the texts of Ipv6Text, followed by something that does not go on with them. */
module Ipv6 {
  import opened Efi
  import opened SafeString
  import opened Ipv6Text
  import opened Ipv6Group

  // ---------- inside the string ----------

  /** `p` is in the string that starts at `at`, or at its end. */
  ghost predicate InString(text: seq<Char>, at: nat, p: nat) {
    at <= p <= RunEnd(text, at, NotNull) && at < |text|
  }

  lemma StepOn(text: seq<Char>, at: nat, p: nat, q: nat)
    requires Terminated(text) && InString(text, at, p) && p <= q <= |text| && forall i :: p <= i < q ==> text[i] != NUL
    ensures InString(text, at, q) && q < |text|
  {
    RunIs(text, at, NotNull);
    RunInside(text, at, NotNull);
    assert text[RunEnd(text, at, NotNull)] == NUL;
  }

  lemma StillShort(text: seq<Char>, at: nat, p: nat)
    requires Terminated(text) && InString(text, at, p) && !TooLong(text, at)
    ensures p < |text| && !TooLong(text, p)
  {
    RunInside(text, at, NotNull);
    RunEndFrom(text, at, NotNull, p);
  }

  lemma GroupInString(g: seq<Char>)
    requires IsGroup(g)
    ensures forall i :: 0 <= i < |g| ==> g[i] != NUL
  {
    hide Value;
    RunIs(g, 0, Zero);
    if Prefixed(g) {
      forall i | 0 <= i < |g| ensures g[i] != NUL {
        if i > ZerosOf(g) { assert Is(Hexadecimal, g[ZerosOf(g) + 1..][i - ZerosOf(g) - 1]); }
      }
    }
  }

  // ---------- reading a known text ----------

  ghost predicate Reads(text: seq<Char>, p: nat, t: seq<Char>) {
    p <= |text| && text[p..] == t
  }

  lemma ReadsOne(text: seq<Char>, p: nat, c: Char, t: seq<Char>)
    requires Reads(text, p, [c] + t)
    ensures p < |text| && text[p] == c && Reads(text, p + 1, t)
  {
  }

  lemma ReadsFirst(text: seq<Char>, p: nat, t: seq<Char>)
    requires Reads(text, p, t) && t != []
    ensures p < |text| && text[p] == t[0]
  {
  }

  lemma ReadsGroup(text: seq<Char>, p: nat, g: seq<Char>, t: seq<Char>)
    requires Reads(text, p, g + t) && t != []
    ensures p + |g| < |text| && text[p..p + |g|] == g && text[p + |g|] == t[0] && Reads(text, p + |g|, t)
  {
    assert text[p..][..|g|] == g && text[p..][|g|..] == t && text[p..][|g|] == t[0];
  }

  /** A numeral with no blanks in front and not followed by more of it. */
  lemma ReadsNumeral(text: seq<Char>, p: nat, k: Class, ds: seq<Char>, t: seq<Char>)
    requires (k.Decimal? || k.Hexadecimal?) && ds != [] && AllDigits(k, ds) && t != []
    requires !Is(k, t[0]) && Reads(text, p, ds + t)
    ensures p < |text| && Is(k, text[p]) && Numeral(text, p, k, 0, 0, ds)
    ensures p + |ds| < |text| && Reads(text, p + |ds|, t)
  {
  }

  /** Where the parser is in a rendering at the top of its loop: before a group, before what is left of
      a "::", or before the digits of the prefix length. */
  datatype Stage = Head(k: nat) | Gap | Tail(k: nat) | Prefix

  ghost predicate Counted(r: Rendering, a: nat, c: nat) {
    a == 2 * (|r.head| + |r.tail|) && c == if r.compressed then 2 * |r.head| else ADDRESS_SIZE
  }

  ghost predicate Cursor(text: seq<Char>, r: Rendering, rest: seq<Char>, stage: Stage, p: nat, a: nat, c: nat,
                         e: bool) {
    && WellFormed(r) && Follows(r, rest)
    && match stage
       case Head(k) => k < |r.head| && !e && c == ADDRESS_SIZE && a == 2 * k && Reads(text, p, FromHead(r, k, rest))
       case Gap =>
         && r.compressed && !e && c == ADDRESS_SIZE && a == 2 * |r.head|
         && var gap := [COLON] + FromTail(r, 0, rest);
            Reads(text, p, if r.head == [] then [COLON] + gap else gap)
       case Tail(k) =>
         && r.compressed && k <= |r.tail| && !e && c == 2 * |r.head| && a == 2 * (|r.head| + k)
         && Reads(text, p, FromTail(r, k, rest))
       case Prefix => r.prefix.Some? && e && Counted(r, a, c) && Reads(text, p, r.prefix.value + rest)
  }

  /** Before a group or the prefix length there is a digit. */
  ghost predicate BeforeDigit(r: Rendering, stage: Stage) {
    !stage.Gap? && (stage.Tail? ==> stage.k < |r.tail|)
  }

  /** What the parser has still to read once a group, or all of them, are behind it: a colon and then
      more, or the ending. */
  ghost predicate Passed(text: seq<Char>, r: Rendering, rest: seq<Char>, next: Option<Stage>, p: nat, a: nat, c: nat) {
    && WellFormed(r) && Follows(r, rest)
    && if next.Some? then
         && p < |text| && text[p] == COLON && a < ADDRESS_SIZE
         && Cursor(text, r, rest, next.value, p + 1, a, c, false) && (next.value.Gap? || BeforeDigit(r, next.value))
       else Reads(text, p, Ending(r, rest)) && Counted(r, a, c)
  }

  ghost predicate Finished(text: seq<Char>, r: Rendering, rest: seq<Char>, p: nat, a: nat, c: nat) {
    Counted(r, a, c) && Reads(text, p, rest)
  }

  /** The group the parser is about to read. */
  ghost function GroupOf(r: Rendering, stage: Stage): seq<Char> {
    if stage.Head? && stage.k < |r.head| then r.head[stage.k]
    else if stage.Tail? && stage.k < |r.tail| then r.tail[stage.k]
    else []
  }

  /** The whole text starts before a group or before the "::". */
  lemma Starts(text: seq<Char>, at: nat, r: Rendering, rest: seq<Char>) returns (stage: Stage)
    requires WellFormed(r) && Follows(r, rest) && Reads(text, at, Text(r, rest))
    ensures Cursor(text, r, rest, stage, at, 0, ADDRESS_SIZE, false) && (stage.Gap? || BeforeDigit(r, stage))
  {
    hide AreGroups, IsPrefix, Follows, Reads, FromTail;
    stage := if r.head == [] then Gap else Head(0);
  }

  lemma DigitAhead(text: seq<Char>, r: Rendering, rest: seq<Char>, stage: Stage, p: nat, a: nat, c: nat, e: bool)
    requires Cursor(text, r, rest, stage, p, a, c, e) && BeforeDigit(r, stage)
    ensures p < |text| && IsHexDigit(text[p]) && (e <==> stage.Prefix?)
  {
    hide Value, Reads, HexCharToUintn, Ending, Follows, Prefixed;
    if stage.Prefix? {
      assert (r.prefix.value + rest)[0] == r.prefix.value[0];
      ReadsFirst(text, p, r.prefix.value + rest);
    } else {
      var g := GroupOf(r, stage);
      var t := if stage.Head? then FromHead(r, stage.k, rest) else FromTail(r, stage.k, rest);
      GroupFirst(g);
      assert t[0] == g[0];
      ReadsFirst(text, p, t);
    }
  }

  lemma GroupFirst(g: seq<Char>)
    requires IsGroup(g)
    ensures IsHexDigit(g[0])
  {
    hide Value;
    RunIs(g, 0, Zero);
  }

  /** Through the colons of the gap. */
  lemma GapAhead(text: seq<Char>, r: Rendering, rest: seq<Char>, p: nat, a: nat, c: nat, e: bool)
    requires Cursor(text, r, rest, Gap, p, a, c, e)
    ensures !e && c == ADDRESS_SIZE && a < ADDRESS_SIZE && p < |text| && text[p] == COLON
    ensures a == 0 ==> p + 1 < |text| && text[p + 1] == COLON
    ensures Cursor(text, r, rest, Tail(0), if a == 0 then p + 2 else p + 1, a, a, false)
  {
    hide AreGroups, IsPrefix, Follows, Reads, FromTail;
    var t := FromTail(r, 0, rest);
    if r.head == [] {
      ReadsOne(text, p, COLON, [COLON] + t);
      ReadsOne(text, p + 1, COLON, t);
    } else {
      ReadsOne(text, p, COLON, t);
    }
  }

  /** What is known about the text once a group is read. */
  ghost predicate GroupRead(text: seq<Char>, p: nat, g: seq<Char>) {
    && IsGroup(g) && p + |g| < |text| && text[p..p + |g|] == g && Ends(g, text[p + |g|])
  }

  /** Past a group, on to what comes next. */
  lemma GroupAhead(text: seq<Char>, r: Rendering, rest: seq<Char>, stage: Stage, p: nat, a: nat, c: nat)
    returns (next: Option<Stage>)
    requires Cursor(text, r, rest, stage, p, a, c, false) && BeforeDigit(r, stage)
    ensures GroupRead(text, p, GroupOf(r, stage))
    ensures Passed(text, r, rest, next, p + |GroupOf(r, stage)|, a + 2, c)
    ensures next.None? && r.compressed ==> r.tail != []
  {
    hide Reads, AreGroups, IsGroup, IsPrefix, Follows, GroupRead;
    GroupsAre(r, stage);
    if stage.Head? {
      next := HeadAhead(text, r, rest, stage.k, p, a, c);
    } else {
      next := TailAhead(text, r, rest, stage.k, p, a, c);
    }
  }

  lemma GroupsAre(r: Rendering, stage: Stage)
    requires WellFormed(r) && BeforeDigit(r, stage) && !stage.Prefix? && (stage.Head? ==> stage.k < |r.head|)
    ensures IsGroup(GroupOf(r, stage))
  {
    hide IsGroup, IsPrefix;
  }

  lemma SeparatorEnds(g: seq<Char>)
    ensures Ends(g, COLON) && Ends(g, SLASH)
  {
  }

  lemma EndingEnds(r: Rendering, rest: seq<Char>)
    requires Follows(r, rest) && (r.compressed ==> r.tail != [])
    ensures Ending(r, rest) != [] && Ends(LastGroup(r), Ending(r, rest)[0])
  {
    hide Ends, LastGroup;
    SeparatorEnds(LastGroup(r));
  }

  lemma TailAhead(text: seq<Char>, r: Rendering, rest: seq<Char>, k: nat, p: nat, a: nat, c: nat)
    returns (next: Option<Stage>)
    requires Cursor(text, r, rest, Tail(k), p, a, c, false) && k < |r.tail| && IsGroup(r.tail[k])
    ensures GroupRead(text, p, r.tail[k])
    ensures Passed(text, r, rest, next, p + |r.tail[k]|, a + 2, c)
  {
    hide Reads, AreGroups, Ending, IsGroup, IsPrefix, Follows, Ends;
    var g, q, last := r.tail[k], p + |r.tail[k]|, k + 1 == |r.tail|;
    var t := (if k + 1 < |r.tail| then [COLON] else []) + FromTail(r, k + 1, rest);
    EndingEnds(r, rest);
    SeparatorEnds(g);
    if last { assert t == Ending(r, rest); } else { assert t[0] == COLON; }
    ReadsGroup(text, p, g, t);
    if last {
      next := None;
    } else {
      ReadsOne(text, q, COLON, FromTail(r, k + 1, rest));
      next := Some(Tail(k + 1));
    }
  }

  lemma HeadAhead(text: seq<Char>, r: Rendering, rest: seq<Char>, k: nat, p: nat, a: nat, c: nat)
    returns (next: Option<Stage>)
    requires Cursor(text, r, rest, Head(k), p, a, c, false) && k < |r.head| && IsGroup(r.head[k])
    ensures GroupRead(text, p, r.head[k])
    ensures Passed(text, r, rest, next, p + |r.head[k]|, a + 2, c)
    ensures next.None? ==> !r.compressed
  {
    hide Reads, AreGroups, Ending, FromTail, IsGroup, IsPrefix, Follows, Ends;
    var g, q, last := r.head[k], p + |r.head[k]|, k + 1 == |r.head|;
    var gap := [COLON] + FromTail(r, 0, rest);
    var t := (if k + 1 < |r.head| then [COLON] else []) + FromHead(r, k + 1, rest);
    SeparatorEnds(g);
    if !r.compressed { EndingEnds(r, rest); }
    if last { assert t == if r.compressed then [COLON] + gap else Ending(r, rest); } else { assert t[0] == COLON; }
    ReadsGroup(text, p, g, t);
    if !last {
      ReadsOne(text, q, COLON, FromHead(r, k + 1, rest));
      next := Some(Head(k + 1));
    } else if r.compressed {
      ReadsOne(text, q, COLON, gap);
      next := Some(Gap);
    } else {
      next := None;
    }
  }

  /** The digits of the prefix length. */
  lemma PrefixAhead(text: seq<Char>, r: Rendering, rest: seq<Char>, p: nat, a: nat, c: nat, e: bool)
    requires Cursor(text, r, rest, Prefix, p, a, c, e)
    ensures Numeral(text, p, Decimal, 0, 0, r.prefix.value)
    ensures Finished(text, r, rest, p + |r.prefix.value|, a, c)
  {
    hide Value, Reads, AreGroups;
    ReadsNumeral(text, p, Decimal, r.prefix.value, rest);
  }

  /** After the gap there is a group, or nothing but the ending. */
  lemma TailOrEnd(text: seq<Char>, r: Rendering, rest: seq<Char>, p: nat, a: nat, c: nat)
    requires Cursor(text, r, rest, Tail(0), p, a, c, false)
    ensures p < |text| && (IsHexDigit(text[p]) <==> r.tail != [])
    ensures r.tail == [] ==> Passed(text, r, rest, None, p, a, c)
  {
    hide Reads, AreGroups, IsPrefix, Ends;
    if r.tail == [] {
      assert FromTail(r, 0, rest) == Ending(r, rest);
      ReadsFirst(text, p, Ending(r, rest));
    } else {
      DigitAhead(text, r, rest, Tail(0), p, a, c, false);
    }
  }

  /** After the top of the loop: a digit, or the end of an address that ends in "::". */
  lemma WhereNow(text: seq<Char>, r: Rendering, rest: seq<Char>, stage: Stage, p: nat, a: nat, c: nat, e: bool)
    requires Cursor(text, r, rest, stage, p, a, c, e) && !stage.Gap? && p < |text|
    requires IsHexDigit(text[p]) ==> BeforeDigit(r, stage)
    requires !IsHexDigit(text[p]) ==> stage == Tail(0) && r.tail == []
    ensures IsHexDigit(text[p]) ==> (e <==> stage.Prefix?)
    ensures !IsHexDigit(text[p]) ==> Passed(text, r, rest, None, p, a, c)
  {
    hide Reads, AreGroups, IsPrefix, Follows, IsHexDigit;
    if !IsHexDigit(text[p]) { assert FromTail(r, 0, rest) == Ending(r, rest); }
  }

  /** What the parser finds after a group, or after all of them. */
  lemma WhatNext(text: seq<Char>, r: Rendering, rest: seq<Char>, next: Option<Stage>, p: nat, a: nat, c: nat)
    requires Passed(text, r, rest, next, p, a, c)
    ensures p < |text|
    ensures next.Some? ==>
              && text[p] == COLON && a < ADDRESS_SIZE && Cursor(text, r, rest, next.value, p + 1, a, c, false)
              && (next.value.Gap? || BeforeDigit(r, next.value))
    ensures next.None? ==> (text[p] == SLASH <==> r.prefix.Some?)
    ensures next.None? && text[p] == COLON ==> a == ADDRESS_SIZE || (r.compressed && r.tail == [])
    ensures next.None? && r.prefix.Some? ==> Cursor(text, r, rest, Prefix, p + 1, a, c, true) && BeforeDigit(r, Prefix)
    ensures next.None? && r.prefix.None? ==> Finished(text, r, rest, p, a, c) && PrefixOf(r) == NO_PREFIX
  {
    hide Reads, AreGroups, IsPrefix, Cursor, Ends, IsHexDigit;
    if next.None? {
      ReadsFirst(text, p, Ending(r, rest));
      if r.prefix.Some? { EndingPrefix(text, r, rest, p, a, c); }
    }
  }

  lemma EndingPrefix(text: seq<Char>, r: Rendering, rest: seq<Char>, p: nat, a: nat, c: nat)
    requires Passed(text, r, rest, None, p, a, c) && r.prefix.Some?
    ensures Cursor(text, r, rest, Prefix, p + 1, a, c, true)
  {
    hide Reads, AreGroups, IsPrefix, Follows;
    ReadsOne(text, p, SLASH, r.prefix.value + rest);
  }

  // ---------- what was read so far ----------

  /** The text of the groups read so far, without a separator behind them. */
  ghost function SeenText(s: Rendering): seq<Char> {
    Groups(s.head, 0, []) + if s.compressed then [COLON] + ([COLON] + Groups(s.tail, 0, [])) else []
  }

  /** The groups `s` were read and make up the string up to `p`; `a` and `c` count them. */
  ghost predicate Seen(text: seq<Char>, at: nat, s: Rendering, p: nat, a: nat, c: nat) {
    && AreGroups(s.head) && AreGroups(s.tail) && (!s.compressed ==> s.tail == []) && s.prefix.None?
    && Counted(s, a, c) && a <= ADDRESS_SIZE && (s.compressed ==> c < ADDRESS_SIZE)
    && at <= p < |text| && text[at..p] == SeenText(s)
  }

  /** Some group is the last thing read, and it is over. */
  ghost predicate SeenGroup(text: seq<Char>, s: Rendering, p: nat) {
    (if s.compressed then s.tail != [] else s.head != []) && p < |text| && Ends(LastGroup(s), text[p])
  }

  /** The top of the loop: nothing was read yet, or a separator follows what was. */
  ghost predicate SeenTop(text: seq<Char>, at: nat, s: Rendering, p: nat, a: nat, c: nat, e: bool) {
    || (p == at < |text| && s == Rendering([], false, [], None) && Counted(s, a, c) && !e)
    || (at < p < |text| && Seen(text, at, s, p - 1, a, c) && text[p - 1] == (if e then SLASH else COLON)
        && (!e ==> SeenGroup(text, s, p - 1)))
  }

  /** Behind the top of the loop: the same before a digit, or just behind a "::". */
  ghost predicate SeenOpen(text: seq<Char>, at: nat, s: Rendering, p: nat, a: nat, c: nat, e: bool) {
    || (SeenTop(text, at, s, p, a, c, e) && IsHexDigit(text[p]))
    || (Seen(text, at, s, p, a, c) && s.compressed && s.tail == [] && !e && a < ADDRESS_SIZE)
  }

  ghost function Gapped(s: Rendering): Rendering {
    s.(compressed := true)
  }

  ghost function Grown(s: Rendering, g: seq<Char>): Rendering {
    if s.compressed then s.(tail := s.tail + [g]) else s.(head := s.head + [g])
  }

  /** What comes between group `k` and the next. */
  ghost function Separator(gs: seq<seq<Char>>, k: nat): seq<Char> {
    if k + 1 < |gs| then [COLON] else []
  }

  lemma GroupsStep(gs: seq<seq<Char>>, k: nat, t: seq<Char>)
    requires k < |gs|
    ensures Groups(gs, k, t) == gs[k] + (Separator(gs, k) + Groups(gs, k + 1, t))
  {
  }

  lemma GroupsEnd(gs: seq<seq<Char>>, t: seq<Char>)
    ensures Groups(gs, |gs|, t) == t
  {
  }

  lemma Associative(a: seq<Char>, b: seq<Char>, c: seq<Char>, d: seq<Char>)
    ensures a + (b + (c + d)) == a + (b + c) + d
  {
  }

  lemma {:induction false} GroupsThen(gs: seq<seq<Char>>, k: nat, t: seq<Char>)
    requires k <= |gs|
    ensures Groups(gs, k, t) == Groups(gs, k, []) + t
    decreases |gs| - k
  {
    hide Groups, Separator;
    if k < |gs| {
      GroupsThen(gs, k + 1, t);
      GroupsStep(gs, k, t);
      GroupsStep(gs, k, []);
      Associative(gs[k], Separator(gs, k), Groups(gs, k + 1, []), t);
    } else {
      GroupsEnd(gs, t);
      GroupsEnd(gs, []);
    }
  }

  lemma {:induction false} GroupsGrow(gs: seq<seq<Char>>, g: seq<Char>, k: nat)
    requires k <= |gs|
    ensures Groups(gs + [g], k, []) == if k < |gs| then Groups(gs, k, []) + ([COLON] + g) else g
    decreases |gs| - k
  {
    hide Groups;
    var hs := gs + [g];
    GroupsStep(hs, k, []);
    if k < |gs| {
      GroupsGrow(gs, g, k + 1);
      GroupsStep(gs, k, []);
      Associative(gs[k], Separator(gs, k), Groups(gs, k + 1, []), [COLON] + g);
      if k + 1 == |gs| { GroupsEnd(gs, []); }
    } else {
      GroupsEnd(hs, []);
    }
  }

  lemma SliceJoin(text: seq<Char>, at: nat, p: nat, q: nat)
    requires at <= p <= q <= |text|
    ensures text[at..q] == text[at..p] + text[p..q]
  {
  }

  /** A gap opens. */
  lemma SeenGap(text: seq<Char>, at: nat, s: Rendering, p: nat, a: nat, c: nat)
    requires SeenTop(text, at, s, p, a, c, false) && !s.compressed && a < ADDRESS_SIZE && text[p] == COLON
    requires a == 0 ==> p + 1 < |text| && text[p + 1] == COLON
    requires (if a == 0 then p + 2 else p + 1) < |text|
    ensures Seen(text, at, Gapped(s), if a == 0 then p + 2 else p + 1, a, a)
  {
    hide AreGroups, Ends;
    NoText();
    if a == 0 {
      NoGroups();
      assert p == at;
      assert text[at..p + 2] == [] + ([COLON] + ([COLON] + []));
    } else {
      SliceJoin(text, at, p - 1, p + 1);
      assert text[p - 1..p + 1] == [COLON] + ([COLON] + []);
    }
  }

  /** A group is read: the first of all, the first behind a "::", or one behind a colon. */
  lemma SeenMore(text: seq<Char>, at: nat, s: Rendering, p: nat, a: nat, c: nat, end: nat)
    requires SeenOpen(text, at, s, p, a, c, false) && a + 2 <= ADDRESS_SIZE && p < end < |text|
    requires IsGroup(text[p..end]) && Ends(text[p..end], text[end])
    ensures Seen(text, at, Grown(s, text[p..end]), end, a + 2, c)
    ensures SeenGroup(text, Grown(s, text[p..end]), end)
  {
    hide IsGroup, Ends, AreGroups, SeenText;
    MoreText(text, at, s, p, a, c, end);
    MoreGroups(s.head, text[p..end]);
    MoreGroups(s.tail, text[p..end]);
    NoGroups();
  }

  lemma MoreGroups(gs: seq<seq<Char>>, g: seq<Char>)
    requires IsGroup(g)
    ensures AreGroups(gs) ==> AreGroups(gs + [g])
  {
    hide IsGroup;
  }

  lemma MoreText(text: seq<Char>, at: nat, s: Rendering, p: nat, a: nat, c: nat, end: nat)
    requires SeenOpen(text, at, s, p, a, c, false) && p < end < |text|
    ensures text[at..end] == SeenText(Grown(s, text[p..end]))
  {
    hide AreGroups, Ends, Groups, SeenText, Grown;
    var g := text[p..end];
    if p == at && !s.compressed {
      FirstText(g);
    } else if Seen(text, at, s, p, a, c) && s.compressed && s.tail == [] {
      SliceJoin(text, at, p, end);
      AfterGap(s, g);
    } else {
      SliceJoin(text, at, p - 1, end);
      assert text[p - 1..end] == [COLON] + g;
      AfterColon(s, g);
    }
  }

  lemma FirstText(g: seq<Char>)
    ensures SeenText(Grown(Rendering([], false, [], None), g)) == g
  {
    hide Groups;
    GroupsGrow([], g, 0);
    assert [] + [g] == [g];
  }

  lemma NoText()
    ensures Groups([], 0, []) == []
  {
  }

  lemma AfterGap(s: Rendering, g: seq<Char>)
    requires s.compressed && s.tail == []
    ensures SeenText(s) + g == SeenText(Grown(s, g))
  {
    hide Groups;
    NoText();
    GroupsGrow([], g, 0);
    assert s.tail + [g] == [] + [g];
  }

  lemma AfterColon(s: Rendering, g: seq<Char>)
    requires if s.compressed then s.tail != [] else s.head != []
    ensures SeenText(s) + ([COLON] + g) == SeenText(Grown(s, g))
  {
    hide Groups;
    GroupsGrow(if s.compressed then s.tail else s.head, g, 0);
  }

  /** A separator is passed. */
  lemma SeenSeparator(text: seq<Char>, at: nat, s: Rendering, p: nat, a: nat, c: nat, e: bool)
    requires Seen(text, at, s, p, a, c) && text[p] == (if e then SLASH else COLON) && p + 1 < |text|
    requires !e ==> SeenGroup(text, s, p)
    ensures SeenTop(text, at, s, p + 1, a, c, e)
  {
  }

  /** The parser is done: what it read is a rendering, and what is left follows it. */
  lemma SeenWhole(text: seq<Char>, at: nat, s: Rendering, p: nat, a: nat, c: nat)
    requires Seen(text, at, s, p, a, c) && (a == ADDRESS_SIZE <==> c == ADDRESS_SIZE)
    requires text[p] != SLASH && (if s.compressed && s.tail == [] then !IsHexDigit(text[p]) else SeenGroup(text, s, p))
    requires text[p] == COLON ==> a == ADDRESS_SIZE || (s.compressed && s.tail == [])
    ensures Parses(text, at, s, p)
  {
    hide Groups, Ends, AreGroups, IsHexDigit;
    SliceJoin(text, at, p, |text|);
    assert text[at..|text|] == text[at..] && text[p..|text|] == text[p..];
    TextIs(s, text[p..]);
  }

  lemma SeenPrefix(text: seq<Char>, at: nat, s: Rendering, p: nat, a: nat, c: nat, end: nat)
    requires SeenTop(text, at, s, p, a, c, true) && (a == ADDRESS_SIZE <==> c == ADDRESS_SIZE)
    requires p < end < |text| && IsPrefix(text[p..end]) && !IsDecimalDigit(text[end])
    ensures Parses(text, at, s.(prefix := Some(text[p..end])), end)
  {
    hide Groups, AreGroups, IsPrefix;
    var r, rest := s.(prefix := Some(text[p..end])), text[end..];
    SliceJoin(text, at, p - 1, |text|);
    assert text[at..|text|] == text[at..];
    assert text[p - 1..|text|] == [SLASH] + (text[p..end] + rest);
    TextIs(r, rest);
  }

  /** The text of a rendering is what SeenText builds up, and the ending. */
  lemma TextIs(r: Rendering, rest: seq<Char>)
    ensures Text(r, rest) == SeenText(r) + Ending(r, rest)
  {
    hide Groups, Ending;
    var t := Ending(r, rest);
    if r.compressed {
      GroupsThen(r.tail, 0, t);
      GroupsThen(r.head, 0, [COLON] + ([COLON] + Groups(r.tail, 0, t)));
      var h, g := Groups(r.head, 0, []), Groups(r.tail, 0, []);
      assert h + ([COLON] + ([COLON] + (g + t))) == h + ([COLON] + ([COLON] + g)) + t;
    } else {
      GroupsThen(r.head, 0, t);
      assert Groups(r.head, 0, []) + [] == Groups(r.head, 0, []);
    }
  }

  /** The text of a rendering and a null is a string that reads as the rendering. */
  lemma TextParses(r: Rendering)
    requires WellFormed(r)
    ensures Terminated(Text(r, [NUL]))
    ensures Parses(Text(r, [NUL]), 0, r, |Text(r, [NUL])| - 1)
  {
    hide Groups, AreGroups, IsPrefix, SeenText, Text;
    var front, text := SeenText(r) + Ending(r, []), Text(r, [NUL]);
    EndFollows(r, [NUL]);
    TextIs(r, [NUL]);
    if r.prefix.Some? {
      assert Ending(r, [NUL]) == Ending(r, []) + [NUL];
    }
    assert text == front + [NUL];
    assert text[|text| - 1..] == [NUL] && text[0..] == text;
  }

  /** Groups with a colon (0x3A) between each two. */
  ghost function Joined(gs: seq<seq<Char>>): seq<Char> {
    if gs == [] then []
    else if |gs| == 1 then gs[0]
    else Joined(gs[..|gs| - 1]) + ([0x3A] + gs[|gs| - 1])
  }

  lemma {:induction false} JoinedIs(gs: seq<seq<Char>>)
    ensures Groups(gs, 0, []) == Joined(gs)
    decreases |gs|
  {
    hide Groups;
    if gs == [] {
      NoText();
    } else {
      var n := |gs| - 1;
      JoinedIs(gs[..n]);
      GroupsGrow(gs[..n], gs[n], 0);
      assert gs[..n] + [gs[n]] == gs;
    }
  }

  /** The text of a rendering, in characters: the groups, colons between them, two colons for the gap, and
      a slash (0x2F) before the prefix length. */
  lemma TextSpelled(r: Rendering, rest: seq<Char>)
    ensures Text(r, rest)
            == Joined(r.head) + (if r.compressed then [0x3A, 0x3A] + Joined(r.tail) else [])
               + (if r.prefix.Some? then [0x2F] + r.prefix.value else []) + rest
  {
    hide Groups, Text;
    TextIs(r, rest);
    JoinedIs(r.head);
    JoinedIs(r.tail);
    var gap := if r.compressed then [0x3A, 0x3A] + Joined(r.tail) else [];
    assert r.compressed ==> [COLON] + ([COLON] + Joined(r.tail)) == gap;
    assert SeenText(r) == Joined(r.head) + gap;
    assert Ending(r, rest) == (if r.prefix.Some? then [0x2F] + r.prefix.value else []) + rest;
  }

  /** Groups `i` up to `j` of an address in hexadecimal, the high byte of each first. */
  ghost function GroupsSpelled(address: seq<Byte>, i: nat, j: nat, upper: bool): seq<seq<Char>>
    requires |address| == 16 && i <= j <= 8
  {
    if i == j then []
    else GroupsSpelled(address, i, j - 1, upper)
         + [HexDigits(0x100 * (address[2 * (j - 1)] as int) + address[2 * (j - 1) + 1], upper)]
  }

  lemma {:induction false} GroupsSpelledAre(address: seq<Byte>, i: nat, j: nat, upper: bool)
    requires |address| == 16 && i <= j <= 8
    ensures PrintGroups(address, i, j, upper) == GroupsSpelled(address, i, j, upper)
    decreases j
  {
    hide Print, HexDigits;
    if i < j {
      GroupsSpelledAre(address, i, j - 1, upper);
      HexDigitsPrinted(GroupAt(address, j - 1), upper);
    }
  }

  /** The usual text of an address, in characters: all eight groups, or `n` zero groups from group `from` on
      left out, and a prefix length if there is one. */
  ghost function AddressText(address: seq<Byte>, from: nat, n: nat, upper: bool, prefix: Option<nat>): seq<Char>
    requires |address| == 16 && from + n <= 8
  {
    (if n == 0 then Joined(GroupsSpelled(address, 0, 8, upper))
     else Joined(GroupsSpelled(address, 0, from, upper)) + ([0x3A, 0x3A]
          + Joined(GroupsSpelled(address, from + n, 8, upper))))
    + (if prefix.Some? then [0x2F] + Digits(prefix.value) else [])
  }

  /** Such a text, with a null behind it, reads as the address and the prefix length. */
  lemma AddressSpelled(address: seq<Byte>, from: nat, n: nat, upper: bool, prefix: Option<nat>)
    requires |address| == 16 && from + n <= 8 && forall i :: 2 * from <= i < 2 * (from + n) ==> address[i] == 0
    requires prefix.Some? ==> prefix.value <= 128
    ensures var r, front := Render(address, from, n, upper, prefix), AddressText(address, from, n, upper, prefix);
            && WellFormed(r) && Parses(front + [0], 0, r, |front|) && AddressOf(r) == address
            && PrefixOf(r) == if prefix.Some? then prefix.value else 255
  {
    hide WellFormed, Parses, AddressOf, PrefixOf, Joined, GroupsSpelled, PrintGroups, Digits, Print, Text;
    var r, front := Render(address, from, n, upper, prefix), AddressText(address, from, n, upper, prefix);
    RenderStandsFor(address, from, n, upper, prefix);
    TextParses(r);
    TextSpelled(r, [NUL]);
    GroupsSpelledAre(address, 0, 8, upper);
    GroupsSpelledAre(address, 0, from, upper);
    GroupsSpelledAre(address, from + n, 8, upper);
    if prefix.Some? { DigitsPrinted(prefix.value, upper); }
    assert Text(r, [NUL]) == front + [0];
  }

  // ---------- the bytes read so far ----------

  /** The first `a` bytes are those of the groups. */
  ghost predicate Stored(s: Rendering, b: seq<Byte>, a: nat) {
    a <= |b| && b[..a] == GroupBytes(s.head + s.tail)
  }

  lemma StoredNext(s: Rendering, b: seq<Byte>, b': seq<Byte>, a: nat, g: seq<Char>)
    requires Stored(s, b, a) && |b'| == |b| && a + 2 <= |b| && b'[..a] == b[..a] && (!s.compressed ==> s.tail == [])
    requires b'[a] == HighByte(GroupValue(g)) && b'[a + 1] == LowByte(GroupValue(g))
    ensures Stored(Grown(s, g), b', a + 2)
  {
    hide GroupValue, HighByte, LowByte;
    var gs, hs := s.head + s.tail, Grown(s, g).head + Grown(s, g).tail;
    assert hs == gs + [g];
    assert hs[..|hs| - 1] == gs && hs[|hs| - 1] == g;
    assert b'[..a + 2] == b'[..a] + [b'[a], b'[a + 1]];
  }

  /** Copying the groups before the gap to the front and those after it to the back gives the address. */
  lemma StoredAll(r: Rendering, b: seq<Byte>, a: nat, c: nat)
    requires WellFormed(r) && Stored(r, b, a) && Counted(r, a, c) && |b| == ADDRESS_SIZE
    ensures c <= a <= ADDRESS_SIZE && (a == ADDRESS_SIZE <==> c == ADDRESS_SIZE)
    ensures AddressOf(r) == b[..c] + Zeros(ADDRESS_SIZE - a) + b[c..a]
  {
    hide GroupBytes, AreGroups, IsPrefix;
    BytesJoin(r.head, r.tail);
    var h := 2 * |r.head|;
    assert b[..h] == b[..a][..h] && b[h..a] == b[..a][h..];
    if !r.compressed {
      NoGroups();
      assert b[..c] + Zeros(0) + b[c..a] == b[..a];
    }
  }

  /** The groups read are those of the rendering that is there. */
  ghost predicate Agree(r: Rendering, s: Rendering, a: nat) {
    a / 2 <= |r.head + r.tail| && s.head + s.tail == (r.head + r.tail)[..a / 2]
  }

  lemma AgreeNext(text: seq<Char>, r: Rendering, rest: seq<Char>, stage: Stage, p: nat, a: nat, c: nat, s: Rendering)
    requires Cursor(text, r, rest, stage, p, a, c, false) && BeforeDigit(r, stage) && Agree(r, s, a)
    requires !s.compressed ==> s.tail == []
    ensures Agree(r, Grown(s, GroupOf(r, stage)), a + 2)
  {
    hide Reads, AreGroups, IsPrefix, Follows;
    var gs, g, t := r.head + r.tail, GroupOf(r, stage), Grown(s, GroupOf(r, stage));
    assert a / 2 < |gs| && gs[a / 2] == g;
    assert t.head + t.tail == s.head + s.tail + [g];
    assert gs[..(a + 2) / 2] == gs[..a / 2] + [g];
  }

  lemma AgreeAll(r: Rendering, s: Rendering, a: nat, c: nat, b: seq<Byte>)
    requires Agree(r, s, a) && Counted(r, a, c) && Stored(s, b, a)
    ensures Stored(r, b, a)
  {
    assert (r.head + r.tail)[..a / 2] == r.head + r.tail;
  }

  // ---------- the parser ----------

  lemma TopShape(text: seq<Char>, at: nat, s: Rendering, p: nat, a: nat, c: nat, e: bool)
    requires SeenTop(text, at, s, p, a, c, e)
    ensures p < |text| && a <= ADDRESS_SIZE && a % 2 == 0 && (c != ADDRESS_SIZE <==> s.compressed)
    ensures !s.compressed ==> s.tail == []
  {
    hide AreGroups, SeenText, SeenGroup;
  }

  lemma OpenShape(text: seq<Char>, at: nat, s: Rendering, p: nat, a: nat, c: nat, e: bool)
    requires SeenOpen(text, at, s, p, a, c, e)
    ensures p < |text| && a <= ADDRESS_SIZE && a % 2 == 0 && (!s.compressed ==> s.tail == [])
    ensures !IsHexDigit(text[p]) ==>
              Seen(text, at, s, p, a, c) && s.compressed && s.tail == [] && !e && a < ADDRESS_SIZE && c == a
    ensures e ==> SeenTop(text, at, s, p, a, c, e)
  {
    hide AreGroups, SeenText, SeenGroup, IsHexDigit;
  }

  /** The top of the loop: a second colon, or two at the start of the string, open the gap. */
  method OpenGap(text: seq<Char>, pointer: nat, addressIndex: nat, compressStart: nat, expectPrefix: bool,
                 ghost at: nat, ghost s: Rendering,
                 ghost r: Option<Rendering>, ghost rest: seq<Char>, ghost stage: Stage)
    returns (ok: bool, pointer': nat, compressStart': nat, ghost s': Rendering, ghost stage': Stage)
    requires Terminated(text) && InString(text, at, pointer)
    requires SeenTop(text, at, s, pointer, addressIndex, compressStart, expectPrefix)
    requires r.Some? ==> Cursor(text, r.value, rest, stage, pointer, addressIndex, compressStart, expectPrefix)
    requires r.Some? ==> stage.Gap? || BeforeDigit(r.value, stage)
    ensures ok ==> SeenOpen(text, at, s', pointer', addressIndex, compressStart', expectPrefix)
    ensures ok ==> pointer <= pointer' < |text| && InString(text, at, pointer')
    ensures s'.head == s.head && s'.tail == s.tail
    ensures r.Some? ==>
              && ok && !stage'.Gap?
              && Cursor(text, r.value, rest, stage', pointer', addressIndex, compressStart', expectPrefix)
    ensures r.Some? && IsHexDigit(text[pointer']) ==> BeforeDigit(r.value, stage')
    ensures r.Some? && !IsHexDigit(text[pointer']) ==> stage' == Tail(0) && r.value.tail == []
  {
    hide Cursor, IsHexDigit, SeenTop, Seen, InString;
    TopShape(text, at, s, pointer, addressIndex, compressStart, expectPrefix);
    pointer', compressStart', s', stage' := pointer, compressStart, s, stage;
    if r.Some? && !stage.Gap? {
      DigitAhead(text, r.value, rest, stage, pointer, addressIndex, compressStart, expectPrefix);
    }
    if r.Some? && stage.Gap? {
      GapAhead(text, r.value, rest, pointer, addressIndex, compressStart, expectPrefix);
      ColonIsNoDigit();
      ghost var p' := if addressIndex == 0 then pointer + 2 else pointer + 1;
      TailOrEnd(text, r.value, rest, p', addressIndex, addressIndex);
    }
    if !IsHexDigit(text[pointer]) {
      if text[pointer] != COLON { return false, pointer', compressStart', s', stage'; }
      if expectPrefix { return false, pointer', compressStart', s', stage'; }
      if compressStart != ADDRESS_SIZE || addressIndex == ADDRESS_SIZE {
        return false, pointer', compressStart', s', stage';
      }
      compressStart' := addressIndex;
      StepOn(text, at, pointer, pointer + 1);
      pointer' := pointer' + 1;
      if compressStart' == 0 {
        if text[pointer'] != COLON { return false, pointer', compressStart', s', stage'; }
        StepOn(text, at, pointer', pointer' + 1);
        pointer' := pointer' + 1;
      }
      SeenGap(text, at, s, pointer, addressIndex, compressStart);
      s', stage' := Gapped(s), Tail(0);
    }
    ok := true;
  }

  lemma ColonIsNoDigit()
    ensures !IsHexDigit(COLON)
  {
  }

  /** A group goes to two bytes of the local address. */
  method ReadGroup(text: seq<Char>, pointer: nat, local: array<Byte>, addressIndex: nat,
                   ghost at: nat, ghost s: Rendering, ghost c: nat,
                   ghost r: Option<Rendering>, ghost rest: seq<Char>, ghost stage: Stage)
    returns (ok: bool, end: nat, ghost s': Rendering, ghost next: Option<Stage>)
    requires Terminated(text) && InString(text, at, pointer) && pointer < |text| && IsHexDigit(text[pointer])
    requires local.Length == ADDRESS_SIZE && addressIndex + 1 < ADDRESS_SIZE
    requires SeenOpen(text, at, s, pointer, addressIndex, c, false) && Stored(s, local[..], addressIndex)
    requires r.Some? ==>
               Cursor(text, r.value, rest, stage, pointer, addressIndex, c, false) && BeforeDigit(r.value, stage)
    requires r.Some? ==> Agree(r.value, s, addressIndex) && !TooLong(text, at)
    modifies local
    ensures ok ==>
              && pointer < end < |text| && InString(text, at, end)
              && Seen(text, at, s', end, addressIndex + 2, c) && SeenGroup(text, s', end)
              && Stored(s', local[..], addressIndex + 2)
    ensures r.Some? ==>
              && ok && Passed(text, r.value, rest, next, end, addressIndex + 2, c)
              && Agree(r.value, s', addressIndex + 2)
              && (next.None? && r.value.compressed ==> r.value.tail != [])
  {
    hide Cursor, Passed, Stored, HexConverted, HighByte, LowByte, TooLong, GroupOf, Agree, Seen, SeenOpen, SeenGroup,
         InString, IsGroup, Ends, BeforeDigit;
    next, s' := None, s;
    OpenShape(text, at, s, pointer, addressIndex, c, false);
    var status, uintn;
    status, uintn, end := StrHexToUintnS(text, pointer, UINT64_RANGE - 1, NUL);
    if r.Some? {
      next := GroupAhead(text, r.value, rest, stage, pointer, addressIndex, c);
      StillShort(text, at, pointer);
      ghost var g := GroupOf(r.value, stage);
      GroupSize(g);
      GroupConverted(text, pointer, g, status, uintn, end);
      AgreeNext(text, r.value, rest, stage, pointer, addressIndex, c, s);
    }
    if status != EFI_SUCCESS || end - pointer > 4 {
      return false, end, s', next;
    }
    ConvertedGroup(text, pointer, uintn, end);
    ghost var taken := text[pointer..end];
    GroupInString(taken);
    StepOn(text, at, pointer, end);
    SeenMore(text, at, s, pointer, addressIndex, c, end);
    s' := Grown(s, taken);
    ghost var before := local[..];
    local[addressIndex] := HighByte(uintn);
    local[addressIndex + 1] := LowByte(uintn);
    StoredNext(s, before, local[..], addressIndex, taken);
    ok := true;
  }

  lemma GroupSize(g: seq<Char>)
    requires IsGroup(g)
    ensures 1 <= |g| <= 4
  {
  }

  /** The prefix length. */
  method ReadPrefix(text: seq<Char>, pointer: nat, ghost at: nat,
                    ghost r: Option<Rendering>, ghost rest: seq<Char>, ghost a: nat, ghost c: nat)
    returns (ok: bool, prefixLength: nat, end: nat)
    requires Terminated(text) && InString(text, at, pointer) && pointer < |text| && IsHexDigit(text[pointer])
    requires r.Some? ==> Cursor(text, r.value, rest, Prefix, pointer, a, c, true) && !TooLong(text, at)
    ensures ok ==>
              && pointer < end < |text| && IsPrefix(text[pointer..end]) && !IsDecimalDigit(text[end])
              && prefixLength == Value(Decimal, text[pointer..end])
    ensures r.Some? ==> ok && prefixLength == PrefixOf(r.value) && Finished(text, r.value, rest, end, a, c)
  {
    hide Cursor, Saturated, TooLong, Finished, Numeral, Value, DecimalStart, InString, IsHexDigit, AllDigits;
    var status;
    status, prefixLength, end := StrDecimalToUintnS(text, pointer, UINT64_RANGE - 1);
    if r.Some? {
      PrefixGiven(text, r.value, rest, pointer, a, c);
      StillShort(text, at, pointer);
      PrefixAhead(text, r.value, rest, pointer, a, c, true);
      NumeralValue(text, pointer, Decimal, 0, 0, r.value.prefix.value, UINT64_RANGE - 1, status, prefixLength, end);
    }
    ok := !(status != EFI_SUCCESS || end == pointer || prefixLength > 128);
    if ok { ConvertedPrefix(text, pointer, prefixLength, end); }
  }

  lemma PrefixGiven(text: seq<Char>, r: Rendering, rest: seq<Char>, p: nat, a: nat, c: nat)
    requires Cursor(text, r, rest, Prefix, p, a, c, true)
    ensures WellFormed(r) && r.prefix.Some? && r.prefix.value != []
    ensures AllDigits(Decimal, r.prefix.value) && Value(Decimal, r.prefix.value) <= 128
  {
    hide Value, AllDigits, Reads, AreGroups;
  }

  lemma FinishedIs(text: seq<Char>, r: Rendering, rest: seq<Char>, p: nat, a: nat, c: nat)
    requires Finished(text, r, rest, p, a, c)
    ensures Counted(r, a, c) && p <= |text| && text[p..] == rest
  {
  }

  /** The bytes before the gap, zeros, and the bytes after it. */
  method Assemble(address: array<Byte>, local: array<Byte>, addressIndex: nat, compressStart: nat)
    requires address.Length == ADDRESS_SIZE == local.Length && address != local
    requires compressStart <= addressIndex <= ADDRESS_SIZE
    modifies address
    ensures address[..] ==
              local[..compressStart] + Zeros(ADDRESS_SIZE - addressIndex) + local[compressStart..addressIndex]
  {
    forall i | 0 <= i < compressStart { address[i] := local[i]; }
    forall i | compressStart <= i < compressStart + ADDRESS_SIZE - addressIndex { address[i] := 0; }
    if addressIndex > compressStart {
      var to := compressStart + ADDRESS_SIZE - addressIndex;
      forall i | 0 <= i < addressIndex - compressStart { address[to + i] := local[compressStart + i]; }
    }
  }

  /** Where the loop ends: if the counts are right, the groups read and the prefix length are a rendering. */
  ghost predicate Done(text: seq<Char>, at: nat, s: Rendering, p: nat, a: nat, c: nat, prefixLength: nat) {
    && (c <= a <= ADDRESS_SIZE || (a <= ADDRESS_SIZE && c == ADDRESS_SIZE))
    && ((a == ADDRESS_SIZE <==> c == ADDRESS_SIZE) ==>
          Counted(s, a, c) && Parses(text, at, s, p) && prefixLength == PrefixOf(s))
  }

  /** The loop is left behind a "::" or behind a group. */
  lemma DoneHere(text: seq<Char>, at: nat, s: Rendering, p: nat, a: nat, c: nat)
    requires Seen(text, at, s, p, a, c) && text[p] != SLASH
    requires SeenGroup(text, s, p) || (s.compressed && s.tail == [] && !IsHexDigit(text[p]))
    requires text[p] == COLON ==> a == ADDRESS_SIZE || (s.compressed && s.tail == [])
    ensures Done(text, at, s, p, a, c, NO_PREFIX)
  {
    hide Parses, Groups, Ends, AreGroups, IsHexDigit, SeenText;
    if a == ADDRESS_SIZE <==> c == ADDRESS_SIZE { SeenWhole(text, at, s, p, a, c); }
  }

  /** The loop is left behind the prefix length. */
  lemma DonePrefix(text: seq<Char>, at: nat, s: Rendering, p: nat, a: nat, c: nat, end: nat)
    requires SeenTop(text, at, s, p, a, c, true)
    requires p < end < |text| && IsPrefix(text[p..end]) && !IsDecimalDigit(text[end])
    ensures Done(text, at, s.(prefix := Some(text[p..end])), end, a, c, Value(Decimal, text[p..end]))
  {
    hide Parses, Groups, Ends, AreGroups, IsHexDigit, SeenText, SeenGroup, Value, AllDigits;
    if a == ADDRESS_SIZE <==> c == ADDRESS_SIZE { SeenPrefix(text, at, s, p, a, c, end); }
  }

  /** The loop of StrToIpv6Address: reads the groups into `local`, and the prefix length. */
  method ReadGroups(text: seq<Char>, at: nat, local: array<Byte>, ghost r: Option<Rendering>, ghost rest: seq<Char>)
    returns (ok: bool, addressIndex: nat, compressStart: nat, prefixLength: nat, pointer: nat, ghost s: Rendering)
    requires Terminated(text) && at < |text| && local.Length == ADDRESS_SIZE
    requires r.Some? ==> WellFormed(r.value) && Follows(r.value, rest) && Reads(text, at, Text(r.value, rest))
    requires r.Some? ==> !TooLong(text, at)
    modifies local
    ensures ok ==> at <= pointer < |text| && Stored(s, local[..], addressIndex)
    ensures ok ==> Done(text, at, s, pointer, addressIndex, compressStart, prefixLength)
    ensures r.Some? ==>
              && ok && prefixLength == PrefixOf(r.value) && Stored(r.value, local[..], addressIndex)
              && Finished(text, r.value, rest, pointer, addressIndex, compressStart)
  {
    hide Cursor, Passed, Finished, Stored, IsHexDigit, BeforeDigit, PrefixOf, WellFormed, Follows, Text, Reads, Agree,
         TooLong, InString, SeenTop, SeenOpen, SeenGroup, Seen, Done, IsPrefix;
    prefixLength, pointer, addressIndex, compressStart := NO_PREFIX, at, 0, ADDRESS_SIZE;
    var expectPrefix := false;
    ghost var stage, next := Gap, None;
    s := Rendering([], false, [], None);
    AtStart(text, at, local[..]);
    if r.Some? {
      stage := Starts(text, at, r.value, rest);
      AgreeStart(r.value);
    }
    while addressIndex < ADDRESS_SIZE + 1
      invariant SeenTop(text, at, s, pointer, addressIndex, compressStart, expectPrefix)
      invariant Stored(s, local[..], addressIndex) && InString(text, at, pointer)
      invariant addressIndex <= ADDRESS_SIZE && (addressIndex == ADDRESS_SIZE ==> expectPrefix)
      invariant at <= pointer < |text| && prefixLength == NO_PREFIX
      invariant r.Some? ==> Cursor(text, r.value, rest, stage, pointer, addressIndex, compressStart, expectPrefix)
      invariant r.Some? ==> (stage.Gap? || BeforeDigit(r.value, stage)) && Agree(r.value, s, addressIndex)
      decreases |text| - pointer
    {
      ghost var s0 := s;
      ok, pointer, compressStart, s, stage :=
        OpenGap(text, pointer, addressIndex, compressStart, expectPrefix, at, s, r, rest, stage);
      if !ok { return; }
      SameGroups(s0, s, local[..], addressIndex);
      if r.Some? {
        AgreeSame(r.value, s0, s, addressIndex);
        WhereNow(text, r.value, rest, stage, pointer, addressIndex, compressStart, expectPrefix);
      }
      OpenShape(text, at, s, pointer, addressIndex, compressStart, expectPrefix);
      if !IsHexDigit(text[pointer]) {
        next := None;
        if r.Some? { WhatNext(text, r.value, rest, next, pointer, addressIndex, compressStart); }
        if text[pointer] == SLASH {
          if compressStart != addressIndex {
            ok := false;
            return;
          }
        } else {
          DoneHere(text, at, s, pointer, addressIndex, compressStart);
          break;
        }
      } else if !expectPrefix {
        ok, pointer, s, next :=
          ReadGroup(text, pointer, local, addressIndex, at, s, compressStart, r, rest, stage);
        if !ok { return; }
        addressIndex := addressIndex + 2;
      } else {
        ghost var p := pointer;
        ok, prefixLength, pointer := ReadPrefix(text, pointer, at, r, rest, addressIndex, compressStart);
        if !ok { return; }
        DonePrefix(text, at, s, p, addressIndex, compressStart, pointer);
        s0, s := s, s.(prefix := Some(text[p..pointer]));
        SameGroups(s0, s, local[..], addressIndex);
        if r.Some? { AgreeSame(r.value, s0, s, addressIndex); }
        break;
      }
      if r.Some? { WhatNext(text, r.value, rest, next, pointer, addressIndex, compressStart); }
      if text[pointer] == SLASH {
        expectPrefix, stage := true, Prefix;
      } else if text[pointer] == COLON {
        if addressIndex == ADDRESS_SIZE {
          DoneHere(text, at, s, pointer, addressIndex, compressStart);
          break;
        }
        stage := if next.Some? then next.value else stage;
      } else {
        DoneHere(text, at, s, pointer, addressIndex, compressStart);
        break;
      }
      SeenSeparator(text, at, s, pointer, addressIndex, compressStart, expectPrefix);
      StepOn(text, at, pointer, pointer + 1);
      pointer := pointer + 1;
    }
    ok := true;
    if r.Some? {
      FinishedIs(text, r.value, rest, pointer, addressIndex, compressStart);
      AgreeAll(r.value, s, addressIndex, compressStart, local[..]);
    }
  }

  /** StrToIpv6Address.  It takes exactly the texts of renderings.  If it succeeds, the string reads as a
      rendering `s` that ends at `end`, and the address and the prefix length are those of `s`.  If the
      string reads as any rendering `r` that ends at `rend`, it succeeds with the address and the prefix
      length of `r`, at `rend`.  Nothing is written on failure. */
  method StrToIpv6Address(text: seq<Char>, at: nat, address: array<Byte>, ghost r: Option<Rendering>, ghost rend: nat)
    returns (status: Status, prefixLength: nat, end: nat, ghost s: Rendering)
    requires Terminated(text) && at < |text| && address.Length == 16
    requires r.Some? ==> Parses(text, at, r.value, rend) && !TooLong(text, at)
    modifies address
    ensures status == EFI_SUCCESS ==>
              && at <= end < |text| && Parses(text, at, s, end)
              && address[..] == AddressOf(s) && prefixLength == PrefixOf(s)
              && (s.prefix.None? <==> prefixLength == 255) && (s.prefix.Some? ==> prefixLength <= 128)
    ensures r.Some? ==>
              && status == EFI_SUCCESS && end == rend
              && address[..] == AddressOf(r.value) && prefixLength == PrefixOf(r.value)
    ensures status != EFI_SUCCESS ==> status == EFI_UNSUPPORTED && address[..] == old(address[..])
  {
    hide Finished, Stored, PrefixOf, WellFormed, Follows, AddressOf, Counted, Text, TooLong;
    var local := new Byte[ADDRESS_SIZE];
    var ok, addressIndex, compressStart;
    ghost var rest := if r.Some? then text[rend..] else [];
    ok, addressIndex, compressStart, prefixLength, end, s := ReadGroups(text, at, local, r, rest);
    if !ok { return EFI_UNSUPPORTED, prefixLength, end, s; }
    if r.Some? {
      FinishedIs(text, r.value, rest, end, addressIndex, compressStart);
      StoredAll(r.value, local[..], addressIndex, compressStart);
    }
    if (addressIndex == ADDRESS_SIZE && compressStart != ADDRESS_SIZE)
       || (addressIndex != ADDRESS_SIZE && compressStart == ADDRESS_SIZE) {
      return EFI_UNSUPPORTED, prefixLength, end, s;
    }
    StoredAll(s, local[..], addressIndex, compressStart);
    PrefixBounds(s);
    Assemble(address, local, addressIndex, compressStart);
    status := EFI_SUCCESS;
  }

  /** Exactly the strings that read as a rendering are accepted. */
  method AcceptsExactly(text: seq<Char>, at: nat, address: array<Byte>)
    returns (status: Status, prefixLength: nat, end: nat)
    requires Terminated(text) && at < |text| && address.Length == 16 && !TooLong(text, at)
    modifies address
    ensures status == EFI_SUCCESS <==> exists r, rend :: Parses(text, at, r, rend)
  {
    hide Parses, TooLong, AddressOf, PrefixOf;
    ghost var r, rend: nat := None, 0;
    if r': Rendering, rend': nat :| Parses(text, at, r', rend') { r, rend := Some(r'), rend'; }
    ghost var s;
    status, prefixLength, end, s := StrToIpv6Address(text, at, address, r, rend);
  }

  lemma PrefixBounds(s: Rendering)
    requires WellFormed(s)
    ensures if s.prefix.Some? then PrefixOf(s) <= 128 else PrefixOf(s) == 255
  {
    hide AreGroups, Value, AllDigits;
  }

  lemma AtStart(text: seq<Char>, at: nat, b: seq<Byte>)
    requires Terminated(text) && at < |text|
    ensures SeenTop(text, at, Rendering([], false, [], None), at, 0, ADDRESS_SIZE, false)
    ensures Stored(Rendering([], false, [], None), b, 0) && InString(text, at, at)
  {
    NoGroups();
    RunInside(text, at, NotNull);
  }

  lemma AgreeStart(r: Rendering)
    ensures Agree(r, Rendering([], false, [], None), 0)
  {
  }

  lemma AgreeSame(r: Rendering, s: Rendering, s': Rendering, a: nat)
    requires Agree(r, s, a) && s'.head == s.head && s'.tail == s.tail
    ensures Agree(r, s', a)
  {
  }

  lemma SameGroups(s: Rendering, s': Rendering, b: seq<Byte>, a: nat)
    requires Stored(s, b, a) && s'.head == s.head && s'.tail == s.tail
    ensures Stored(s', b, a)
  {
  }
}
