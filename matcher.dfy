/**
 * find_substring (main.c): the program's own substring search, used for every
 * pattern and delimiter lookup instead of strstr.
 */
module Matcher {
  import opened CStrings

  /** `needle` sits in `s` starting at index `i`. */
  predicate OccursAt(s: seq<char>, i: nat, needle: seq<char>)
  {
    i + |needle| <= |s| && s[i..i + |needle|] == needle
  }

  /** `needle` sits somewhere in `s`. */
  ghost predicate Occurs(s: seq<char>, needle: seq<char>)
  {
    exists i: nat :: OccursAt(s, i, needle)
  }

  /** `i` is where `needle` first sits in `s`. */
  predicate IsFirstOccurrence(s: seq<char>, i: nat, needle: seq<char>)
  {
    OccursAt(s, i, needle) && forall j: nat :: j < i ==> !OccursAt(s, j, needle)
  }

  /**
   * The characters of `needle` from index `k` on sit in `s` from index `i + k`
   * on, compared one at a time.
   */
  function MatchesFrom(s: seq<char>, i: nat, needle: seq<char>, k: nat): bool
    requires i + |needle| <= |s| && k <= |needle|
    decreases |needle| - k
  {
    k == |needle| || (s[i + k] == needle[k] && MatchesFrom(s, i, needle, k + 1))
  }

  /** Comparing one character at a time decides whether the needle sits at `i`. */
  lemma {:induction false} MatchesFromIsOccurrence(s: seq<char>, i: nat, needle: seq<char>, k: nat)
    requires i + |needle| <= |s| && k <= |needle|
    decreases |needle| - k
    ensures MatchesFrom(s, i, needle, k) <==> s[i + k..i + |needle|] == needle[k..]
  {
    if k < |needle| {
      MatchesFromIsOccurrence(s, i, needle, k + 1);
      assert s[i + k..i + |needle|] == [s[i + k]] + s[i + k + 1..i + |needle|];
      assert needle[k..] == [needle[k]] + needle[k + 1..];
    }
  }

  /** The first place at or after `i` where `needle` sits in `s`, if any. */
  function FirstOccurrenceFrom(s: seq<char>, needle: seq<char>, i: nat): (r: Option<nat>)
    decreases |s| - i
    ensures r.Some? ==> i <= r.value && OccursAt(s, r.value, needle)
    ensures r.Some? ==> forall j: nat :: i <= j < r.value ==> !OccursAt(s, j, needle)
    ensures r.None? ==> forall j: nat :: i <= j ==> !OccursAt(s, j, needle)
  {
    if i + |needle| > |s| then None
    else if (MatchesFromIsOccurrence(s, i, needle, 0); MatchesFrom(s, i, needle, 0)) then Some(i)
    else FirstOccurrenceFrom(s, needle, i + 1)
  }

  /** The first place where `needle` sits in `s`, if any. */
  function FirstOccurrence(s: seq<char>, needle: seq<char>): (r: Option<nat>)
    ensures r.Some? ==> IsFirstOccurrence(s, r.value, needle)
    ensures r.None? <==> !Occurs(s, needle)
  {
    FirstOccurrenceFrom(s, needle, 0)
  }

  /** The first occurrence is the one FirstOccurrence finds. */
  lemma FirstOccurrenceIsUnique(s: seq<char>, needle: seq<char>, i: nat)
    requires IsFirstOccurrence(s, i, needle)
    ensures FirstOccurrence(s, needle) == Some(i)
  {
    assert Occurs(s, needle);
  }

  /** A needle whose first character appears in `s` at index 0 only can sit there only. */
  lemma OccursOnlyAtStart(s: seq<char>, needle: seq<char>)
    requires needle != [] && forall i :: 0 < i < |s| ==> s[i] != needle[0]
    ensures Occurs(s, needle) <==> OccursAt(s, 0, needle)
  {
    forall i: nat | OccursAt(s, i, needle)
      ensures i == 0
    {
      assert s[i] == s[i..i + |needle|][0];
    }
  }

  /**
   * What find_substring returns: NULL for a NULL haystack or an empty needle,
   * otherwise the offset of the first occurrence of the needle in the
   * haystack's C string, or NULL when there is none.
   */
  function Find(haystack: Option<seq<char>>, needle: seq<char>): (r: Option<nat>)
    requires haystack.Some? ==> Terminated(haystack.value)
    ensures r.None? <==> haystack.None? || needle == [] || !Occurs(CStr(haystack.value), needle)
    ensures r.Some? ==> IsFirstOccurrence(CStr(haystack.value), r.value, needle)
    ensures r.Some? ==> r.value + |needle| <= CStrLen(haystack.value)
  {
    if haystack.None? || needle == [] then None
    else FirstOccurrence(CStr(haystack.value), needle)
  }

  /**
   * find_substring as the source writes it: walk the haystack up to its NUL
   * and, wherever the first needle character matches, compare the rest of the
   * needle character by character. Every haystack index it reads is at most
   * the index of the haystack's NUL: a NUL in the haystack ends a comparison
   * because no needle character is a NUL.
   */
  method FindSubstring(haystack: Option<seq<char>>, needle: seq<char>) returns (r: Option<nat>)
    requires haystack.Some? ==> Terminated(haystack.value)
    requires NulFree(needle)
    ensures r == Find(haystack, needle)
  {
    if haystack.None? || |needle| == 0 {
      return None;
    }
    var hay := haystack.value;
    ghost var len := CStrLen(hay);
    var h := 0;
    while hay[h] != NUL
      invariant h <= len
      invariant forall j: nat :: j < h ==> !OccursAt(hay[..len], j, needle)
      decreases len - h
    {
      if hay[h] == needle[0] {
        var n := 0;
        while n < |needle| && hay[h + n] == needle[n]
          invariant n <= |needle|
          invariant h + n <= len
          invariant forall k :: 0 <= k < n ==> hay[h + k] == needle[k]
        {
          n := n + 1;
        }
        if n == |needle| {
          assert hay[..len][h..h + n] == needle;
          FirstOccurrenceIsUnique(hay[..len], needle, h);
          return Some(h);
        }
        if h + |needle| <= len {
          assert hay[..len][h..h + |needle|][n] != needle[n];
        }
      }
      h := h + 1;
    }
    return None;
  }
}
