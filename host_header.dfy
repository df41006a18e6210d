/**
 * getHostFromHeaders (main.c): the text between the first "Host: " in the
 * request and the "\r\n" after it, copied into the static 256-byte `host`
 * buffer, or NULL.
 */
module HostHeader {
  import opened CStrings
  import opened Matcher

  const HostMarker: seq<char> := "Host: "
  const LineEnd: seq<char> := "\r\n"

  /** sizeof(host): the static buffer the host name is copied into. */
  const HostCapacity: nat := 256

  /**
   * The host name getHostFromHeaders yields for `request`, as a value: NULL
   * (None) when there is no "Host: ", and otherwise what follows the first
   * "Host: " yields.
   */
  function HostOf(request: seq<char>): (r: Option<seq<char>>)
    requires Terminated(request)
  {
    match Find(Some(request), HostMarker)
    case None => None
    case Some(p) =>
      CStrOfSuffix(request, p + |HostMarker|);
      HostAfterMarker(request[p + |HostMarker|..])
  }

  /**
   * The host name in the text `rest` after "Host: ": NULL when no "\r\n"
   * follows, or when the text before it does not fit the buffer with its
   * terminator.
   */
  function HostAfterMarker(rest: seq<char>): (r: Option<seq<char>>)
    requires Terminated(rest)
  {
    match Find(Some(rest), LineEnd)
    case None => None
    case Some(e) => if e >= HostCapacity then None else Some(rest[..e])
  }

  /** A prefix that stops before the first "\r\n" of a string has no "\r\n" in it. */
  lemma NoLineEndBeforeFirst(s: seq<char>, e: nat, prefix: seq<char>)
    requires IsFirstOccurrence(s, e, LineEnd) && prefix == s[..e]
    ensures !Occurs(prefix, LineEnd)
  {
    forall j: nat | OccursAt(prefix, j, LineEnd)
      ensures OccursAt(s, j, LineEnd)
    {
      assert s[j..j + 2] == prefix[j..j + 2];
    }
  }

  /** No "Host: " anywhere in the request's C string: NULL. */
  lemma HostOfWithoutMarker(request: seq<char>)
    requires Terminated(request)
    requires !Occurs(CStr(request), HostMarker)
    ensures HostOf(request) == None
  {
  }

  /** A "Host: " with no "\r\n" after it: NULL. */
  lemma HostOfWithoutLineEnd(request: seq<char>, p: nat)
    requires Terminated(request)
    requires IsFirstOccurrence(CStr(request), p, HostMarker)
    requires !Occurs(CStr(request)[p + |HostMarker|..], LineEnd)
    ensures HostOf(request) == None
  {
    FirstOccurrenceIsUnique(CStr(request), HostMarker, p);
    CStrOfSuffix(request, p + |HostMarker|);
  }

  /** With the first "Host: " at `p`, the host is what the text after it yields. */
  lemma HostOfAfterFirstMarker(request: seq<char>, p: nat)
    requires Terminated(request)
    requires IsFirstOccurrence(CStr(request), p, HostMarker)
    ensures p + |HostMarker| <= CStrLen(request)
    ensures Terminated(request[p + |HostMarker|..])
    ensures CStr(request[p + |HostMarker|..]) == CStr(request)[p + |HostMarker|..]
    ensures HostOf(request) == HostAfterMarker(request[p + |HostMarker|..])
  {
    FirstOccurrenceIsUnique(CStr(request), HostMarker, p);
    assert Find(Some(request), HostMarker) == Some(p);
    CStrOfSuffix(request, p + |HostMarker|);
  }

  /** With the first "\r\n" at `e`, the host is the `e` characters before it, if they fit. */
  lemma HostAfterMarkerBeforeLineEnd(rest: seq<char>, e: nat)
    requires Terminated(rest)
    requires IsFirstOccurrence(CStr(rest), e, LineEnd)
    ensures e < HostCapacity ==> HostAfterMarker(rest) == Some(CStr(rest)[..e])
    ensures e >= HostCapacity ==> HostAfterMarker(rest) == None
  {
    FirstOccurrenceIsUnique(CStr(rest), LineEnd, e);
    if e < HostCapacity {
      assert rest[..e] == CStr(rest)[..e];
    }
  }

  /**
   * With the first "Host: " at `p` and the first "\r\n" after it `e`
   * characters further on, the host is exactly those `e` characters, or NULL
   * when they would not fit the 256-byte buffer with a terminator.
   */
  lemma HostOfBetweenMarkerAndLineEnd(request: seq<char>, p: nat, e: nat)
    requires Terminated(request)
    requires IsFirstOccurrence(CStr(request), p, HostMarker)
    requires IsFirstOccurrence(CStr(request)[p + |HostMarker|..], e, LineEnd)
    ensures e < HostCapacity ==> HostOf(request) == Some(CStr(request)[p + |HostMarker|..p + |HostMarker| + e])
    ensures e >= HostCapacity ==> HostOf(request) == None
  {
    var start := p + |HostMarker|;
    HostOfAfterFirstMarker(request, p);
    var c := CStr(request);
    var rest := request[start..];
    HostAfterMarkerBeforeLineEnd(rest, e);
    if e < HostCapacity {
      PrefixOfSuffix(c, CStr(rest), start, e);
    }
  }

  /** The first `e` characters of `s[start..]` are `s[start..start + e]`. */
  lemma PrefixOfSuffix(s: seq<char>, tail: seq<char>, start: nat, e: nat)
    requires start <= |s| && tail == s[start..] && e <= |tail|
    ensures tail[..e] == s[start..start + e]
  {
  }

  /**
   * What getHostFromHeaders can yield as a host name: it fits the 256-byte
   * buffer with its terminator, and holds no NUL and no "\r\n".
   */
  ghost predicate IsHostName(name: seq<char>)
  {
    |name| < HostCapacity && NulFree(name) && !Occurs(name, LineEnd)
  }

  /** The text before the first "\r\n" after "Host: " is a host name, when it fits. */
  lemma HostAfterMarkerShape(rest: seq<char>)
    requires Terminated(rest)
    ensures HostAfterMarker(rest).Some? ==> IsHostName(HostAfterMarker(rest).value)
  {
    var e := Find(Some(rest), LineEnd);
    if e.Some? && e.value < HostCapacity {
      HostAfterMarkerBeforeLineEnd(rest, e.value);
      var c := CStr(rest);
      var name := c[..e.value];
      NoLineEndBeforeFirst(c, e.value, name);
      assert forall i :: 0 <= i < |name| ==> name[i] == c[i];
    }
  }

  /**
   * A host name, when there is one, fits the buffer with its terminator, has
   * no NUL in it and no "\r\n": it stops before the first line break after
   * "Host: ".
   */
  lemma HostOfShape(request: seq<char>)
    requires Terminated(request)
    ensures HostOf(request).Some? ==> IsHostName(HostOf(request).value)
  {
    var p := Find(Some(request), HostMarker);
    if p.Some? {
      HostOfAfterFirstMarker(request, p.value);
      HostAfterMarkerShape(request[p.value + |HostMarker|..]);
    }
  }

  /**
   * strncpy of `length` characters from the host's start, then a terminator
   * right after them, for a name with no NUL in it: the buffer then holds the name as its C string,
   * and nothing after the terminator changes.
   */
  method CopyTerminated(host: array<char>, name: seq<char>)
    requires |name| < host.Length && NulFree(name)
    modifies host
    ensures Terminated(host[..]) && CStr(host[..]) == name
    ensures forall i :: |name| < i < host.Length ==> host[i] == old(host[i])
  {
    forall i | 0 <= i < |name| {
      host[i] := name[i];
    }
    host[|name|] := NUL;
    assert host[..|name|] == name;
    UniqueFirstNul(host[..], |name|);
  }

  /** Neither searched-for text holds a NUL, so find_substring may look for them. */
  lemma MarkersNulFree()
    ensures NulFree(HostMarker) && NulFree(LineEnd)
  {
  }

  /**
   * The search half of getHostFromHeaders: find "Host: ", find the "\r\n"
   * after it, and refuse a name of 256 characters or more.
   */
  method LocateHost(request: seq<char>) returns (name: Option<seq<char>>)
    requires Terminated(request)
    ensures name == HostOf(request)
  {
    MarkersNulFree();
    var hostStart := FindSubstring(Some(request), HostMarker);
    if hostStart.None? {
      return None;
    }
    var start := hostStart.value + |HostMarker|;
    HostOfAfterFirstMarker(request, hostStart.value);
    var rest := request[start..];
    var lineEnd := FindSubstring(Some(rest), LineEnd);
    if lineEnd.None? {
      return None;
    }
    var length := lineEnd.value;
    if length >= HostCapacity {
      return None;
    }
    name := Some(rest[..length]);
  }

  /**
   * getHostFromHeaders: locate the host name and copy it into `host`
   * (strncpy), terminated there. The result is NULL (None) or the `host`
   * buffer itself; `host` is left alone when there is no host name.
   */
  method GetHostFromHeaders(request: seq<char>, host: array<char>) returns (hostname: Option<seq<char>>)
    requires Terminated(request)
    requires host.Length == HostCapacity
    modifies host
    ensures hostname.Some? <==> HostOf(request).Some?
    ensures hostname.Some? ==> hostname.value == host[..]
    ensures hostname.Some? ==> Terminated(host[..]) && CStr(host[..]) == HostOf(request).value
    ensures hostname.Some? ==>
              forall i :: |HostOf(request).value| < i < host.Length ==> host[i] == old(host[i])
    ensures hostname.None? ==> host[..] == old(host[..])
  {
    var name := LocateHost(request);
    if name.None? {
      return None;
    }
    HostOfShape(request);
    CopyTerminated(host, name.value);
    hostname := Some(host[..]);
  }
}
