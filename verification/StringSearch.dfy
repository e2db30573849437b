/** StrStr and AsciiStrStr of String.c. */
module StringSearch {
  import opened Efi
  import opened SafeString

  /** Where a null-terminated string ends. */
  ghost function End(text: seq<Char>, at: nat): (e: nat)
    requires Terminated(text) && at < |text|
    ensures at <= e < |text| && text[e] == NUL && forall i :: at <= i < e ==> text[i] != NUL
  {
    RunIs(text, at, NotNull);
    RunInside(text, at, NotNull);
    RunEnd(text, at, NotNull)
  }

  /** The pattern occurs in the string that starts at `at`, at index `p`. */
  ghost predicate OccursAt(text: seq<Char>, at: nat, pattern: seq<Char>, p: nat)
    requires Terminated(text) && at < |text| && Terminated(pattern)
  {
    && at <= p && p + End(pattern, 0) <= End(text, at)
    && forall i :: 0 <= i < End(pattern, 0) ==> text[p + i] == pattern[i]
  }

  /** The inner loop: how far the text agrees with the pattern. */
  method Match(text: seq<Char>, from: nat, pattern: seq<Char>) returns (n: nat)
    requires Terminated(text) && from < |text| && Terminated(pattern)
    ensures n <= End(pattern, 0) && from + n <= End(text, from)
    ensures forall i :: 0 <= i < n ==> text[from + i] == pattern[i]
    ensures n < End(pattern, 0) && from + n < End(text, from) ==> text[from + n] != pattern[n]
  {
    n := 0;
    while text[from + n] == pattern[n] && text[from + n] != NUL
      invariant n <= End(pattern, 0) && from + n <= End(text, from)
      invariant forall i :: 0 <= i < n ==> text[from + i] == pattern[i]
      decreases |text| - n
    {
      n := n + 1;
    }
  }

  /** Strings that start further on end at the same null. */
  lemma SameEnd(text: seq<Char>, at: nat, p: nat)
    requires Terminated(text) && at < |text| && at <= p <= End(text, at)
    ensures End(text, p) == End(text, at)
  {
  }

  /** StrStr: the first occurrence of the pattern, and null if and only if there is none, also when the
      text runs out in the middle of a match. */
  method StrStr(text: seq<Char>, at: nat, pattern: seq<Char>) returns (found: Option<nat>)
    requires Terminated(text) && at < |text| && Terminated(pattern)
    ensures found.Some? ==>
              && OccursAt(text, at, pattern, found.value)
              && forall p: nat :: OccursAt(text, at, pattern, p) ==> found.value <= p
    ensures found.None? ==> forall p: nat :: !OccursAt(text, at, pattern, p)
  {
    if pattern[0] == NUL {
      return Some(at);
    }
    var cursor := at;
    while text[cursor] != NUL
      invariant at <= cursor <= End(text, at)
      invariant forall p: nat :: OccursAt(text, at, pattern, p) ==> cursor <= p
      decreases |text| - cursor
    {
      SameEnd(text, at, cursor);
      var firstMatch := cursor;
      var n := Match(text, cursor, pattern);
      if pattern[n] == NUL {
        return Some(firstMatch);
      }
      if text[cursor + n] == NUL {
        return None;
      }
      assert !OccursAt(text, at, pattern, firstMatch);
      cursor := firstMatch + 1;
    }
    found := None;
  }
}
