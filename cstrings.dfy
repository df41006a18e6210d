/**
 * C strings as the program sees them. A `const char *` argument is modelled by
 * the buffer it points into (the characters from the pointer to the end of the
 * underlying array); the string itself is the part of that buffer before the
 * first NUL. A NULL pointer is `None`.
 */
module CStrings {

  datatype Option<T> = None | Some(value: T)

  const NUL: char := '\0'

  /** A sequence with no NUL in it: the content of some C string. */
  predicate NulFree(s: seq<char>)
  {
    forall i :: 0 <= i < |s| ==> s[i] != NUL
  }

  /** The buffer holds a terminator, so scanning it as a C string stays inside it. */
  predicate Terminated(buf: seq<char>)
  {
    NUL in buf
  }

  /** strlen: the index of the first NUL. */
  function CStrLen(buf: seq<char>): (n: nat)
    requires Terminated(buf)
    ensures n < |buf| && buf[n] == NUL
    ensures forall i :: 0 <= i < n ==> buf[i] != NUL
  {
    if buf[0] == NUL then 0 else 1 + CStrLen(buf[1..])
  }

  /** The C string a terminated buffer holds. */
  function CStr(buf: seq<char>): (s: seq<char>)
    requires Terminated(buf)
    ensures NulFree(s) && |s| < |buf|
    ensures s == buf[..|s|] && buf[|s|] == NUL
  {
    buf[..CStrLen(buf)]
  }

  /** Advancing a pointer within the string gives the rest of the same string. */
  lemma {:induction false} CStrOfSuffix(buf: seq<char>, k: nat)
    requires Terminated(buf) && k <= CStrLen(buf)
    ensures Terminated(buf[k..])
    ensures CStrLen(buf[k..]) == CStrLen(buf) - k
    ensures CStr(buf[k..]) == CStr(buf)[k..]
  {
    var n := CStrLen(buf);
    assert buf[k..][n - k] == NUL;
    UniqueFirstNul(buf[k..], n - k);
  }

  /** Any content followed by a NUL reads back as that content. */
  lemma {:induction false} CStrOfContent(s: seq<char>, rest: seq<char>)
    requires NulFree(s) && rest != [] && rest[0] == NUL
    ensures Terminated(s + rest)
    ensures CStr(s + rest) == s
  {
    assert (s + rest)[|s|] == NUL;
    UniqueFirstNul(s + rest, |s|);
  }

  /** A NUL with none before it is the one strlen stops at. */
  lemma {:induction false} UniqueFirstNul(buf: seq<char>, n: nat)
    requires n < |buf| && buf[n] == NUL
    requires forall i :: 0 <= i < n ==> buf[i] != NUL
    ensures Terminated(buf) && CStrLen(buf) == n
  {
    assert buf[n] in buf;
  }

  /** A stretch of a NUL-free sequence is NUL-free. */
  lemma NulFreeSlice(s: seq<char>, lo: nat, hi: nat)
    requires NulFree(s) && lo <= hi <= |s|
    ensures NulFree(s[lo..hi])
  {
    forall i | 0 <= i < hi - lo
      ensures s[lo..hi][i] != NUL
    {
      assert s[lo..hi][i] == s[lo + i];
    }
  }
}
