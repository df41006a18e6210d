/**
 * parse_headers (main.c): split the receive buffer in place into lines with
 * strtok_r on the delimiter set {'\r', '\n'}, skip the first line (the
 * request line), and append one HTML table row per "key: value" line to the
 * headers_html buffer with a bounded strncat.
 */
module HeaderParser {
  import opened CStrings

  /** sizeof(key), sizeof(value) and sizeof(row) in parse_headers. */
  const KeyCapacity: nat := 256
  const ValueCapacity: nat := 256
  const RowCapacity: nat := 512

  function Min(a: int, b: int): int
  {
    if a <= b then a else b
  }

  /** A member of strtok_r's delimiter set "\r\n". */
  predicate IsDelim(c: char)
  {
    c == '\r' || c == '\n'
  }

  /** strspn(s, "\r\n"): the length of the run of delimiters that starts `s`. */
  function DelimRun(s: seq<char>): (n: nat)
    ensures n <= |s|
    ensures forall i :: 0 <= i < n ==> IsDelim(s[i])
    ensures n < |s| ==> !IsDelim(s[n])
  {
    if s == [] || !IsDelim(s[0]) then 0 else 1 + DelimRun(s[1..])
  }

  /** strcspn(s, "\r\n"): the length of the delimiter-free stretch that starts `s`. */
  function SpanLen(s: seq<char>): (n: nat)
    ensures n <= |s|
    ensures forall i :: 0 <= i < n ==> !IsDelim(s[i])
    ensures n < |s| ==> IsDelim(s[n])
  {
    if s == [] || IsDelim(s[0]) then 0 else 1 + SpanLen(s[1..])
  }

  /**
   * The tokens strtok_r returns one after the other for the C string `s`:
   * the maximal delimiter-free stretches, in order; runs of delimiters
   * separate them and no token is empty.
   */
  function Tokens(s: seq<char>): (ts: seq<seq<char>>)
    decreases |s|
    ensures forall k :: 0 <= k < |ts| ==> ts[k] != []
    ensures forall k :: 0 <= k < |ts| ==> forall i :: 0 <= i < |ts[k]| ==> !IsDelim(ts[k][i])
  {
    if s == [] then []
    else if IsDelim(s[0]) then Tokens(s[1..])
    else
      var n := SpanLen(s);
      [s[..n]] + Tokens(s[n..])
  }

  /** `s` with its delimiters taken out. */
  function WithoutDelims(s: seq<char>): seq<char>
  {
    if s == [] then []
    else (if IsDelim(s[0]) then [] else [s[0]]) + WithoutDelims(s[1..])
  }

  /** The characters of a list of strings, one string after the other. */
  function Concat(parts: seq<seq<char>>): seq<char>
    decreases |parts|
  {
    if parts == [] then [] else Concat(parts[..|parts| - 1]) + parts[|parts| - 1]
  }

  /** Tokenising loses exactly the delimiters: nothing else is dropped, moved or added. */
  lemma {:induction false} TokensKeepEveryOtherCharacter(s: seq<char>)
    decreases |s|
    ensures Concat(Tokens(s)) == WithoutDelims(s)
  {
    if s == [] {
    } else if IsDelim(s[0]) {
      TokensKeepEveryOtherCharacter(s[1..]);
    } else {
      var n := SpanLen(s);
      TokensKeepEveryOtherCharacter(s[n..]);
      ConcatCons(s[..n], Tokens(s[n..]));
      WithoutDelimsAppend(s[..n], s[n..]);
      assert s[..n] + s[n..] == s;
      DelimFreeUnchanged(s[..n]);
    }
  }

  lemma {:induction false} ConcatCons(head: seq<char>, tail: seq<seq<char>>)
    decreases |tail|
    ensures Concat([head] + tail) == head + Concat(tail)
  {
    if tail != [] {
      assert ([head] + tail)[..|tail|] == [head] + tail[..|tail| - 1];
      ConcatCons(head, tail[..|tail| - 1]);
    }
  }

  lemma {:induction false} WithoutDelimsAppend(a: seq<char>, b: seq<char>)
    decreases |a|
    ensures WithoutDelims(a + b) == WithoutDelims(a) + WithoutDelims(b)
  {
    if a == [] {
      assert a + b == b;
    } else {
      assert (a + b)[1..] == a[1..] + b;
      WithoutDelimsAppend(a[1..], b);
    }
  }

  lemma {:induction false} DelimFreeUnchanged(s: seq<char>)
    requires forall i :: 0 <= i < |s| ==> !IsDelim(s[i])
    decreases |s|
    ensures WithoutDelims(s) == s
  {
    if s != [] {
      DelimFreeUnchanged(s[1..]);
    }
  }

  /**
   * Tokens seen from index `save` of `s`: a run of delimiters up to `start`,
   * then a token up to `stop`, which is the end of `s` or a delimiter. The
   * token is the next of Tokens, and a delimiter that ends it may be skipped.
   */
  lemma {:induction false} TokensAt(s: seq<char>, save: nat, start: nat, stop: nat)
    requires save <= start < stop <= |s|
    requires forall i :: save <= i < start ==> IsDelim(s[i])
    requires forall i :: start <= i < stop ==> !IsDelim(s[i])
    requires stop < |s| ==> IsDelim(s[stop])
    decreases start - save
    ensures Tokens(s[save..]) == [s[start..stop]] + Tokens(s[stop..])
    ensures stop < |s| ==> Tokens(s[stop..]) == Tokens(s[stop + 1..])
  {
    if save < start {
      TokensAt(s, save + 1, start, stop);
      assert s[save..][1..] == s[save + 1..];
    } else {
      var c := s[start..];
      var n := SpanLen(c);
      assert forall k :: 0 <= k < |c| ==> c[k] == s[start + k];
      assert n == stop - start;
      assert c[..n] == s[start..stop];
      assert c[n..] == s[stop..];
    }
    if stop < |s| {
      assert s[stop..][1..] == s[stop + 1..];
    }
  }

  /** Only delimiters from `save` on: strtok_r finds no more tokens. */
  lemma {:induction false} TokensOfDelims(s: seq<char>, save: nat)
    requires save <= |s|
    requires forall i :: save <= i < |s| ==> IsDelim(s[i])
    decreases |s| - save
    ensures Tokens(s[save..]) == []
  {
    if save < |s| {
      TokensOfDelims(s, save + 1);
      assert s[save..][1..] == s[save + 1..];
    }
  }

  /** strchr for a colon: the first colon of a line. */
  function IndexOfColon(line: seq<char>): (r: Option<nat>)
    ensures r.Some? ==> r.value < |line| && line[r.value] == ':'
    ensures r.Some? ==> forall i :: 0 <= i < r.value ==> line[i] != ':'
    ensures r.None? ==> forall i :: 0 <= i < |line| ==> line[i] != ':'
  {
    if line == [] then None
    else if line[0] == ':' then Some(0)
    else match IndexOfColon(line[1..])
      case None => None
      case Some(c) => Some(c + 1)
  }

  /**
   * What parse_headers assumes of a header line without checking it: the key
   * before the colon fits `key` with its terminator, the colon is not the
   * line's last character (the value is read from two characters past it),
   * and the value fits `value` with its terminator.
   */
  predicate FieldsFit(line: seq<char>)
  {
    match IndexOfColon(line)
    case None => true
    case Some(c) => c < KeyCapacity && c + 1 < |line| && |line| - (c + 2) < ValueCapacity
  }

  predicate AllFieldsFit(lines: seq<seq<char>>)
  {
    forall k :: 0 <= k < |lines| ==> FieldsFit(lines[k])
  }

  /** The first `m` characters of `s` (all of them when it is shorter). */
  function Truncate(s: seq<char>, m: nat): seq<char>
  {
    if |s| <= m then s else s[..m]
  }

  /** The row format "<tr><td>%s</td><td>%s</td></tr>" filled in. */
  function RowMarkup(key: seq<char>, value: seq<char>): seq<char>
  {
    "<tr><td>" + key + "</td><td>" + value + "</td></tr>"
  }

  /**
   * The row a header line contributes: none without a colon; otherwise the
   * markup for the text before the first colon and the text from two
   * characters after it, cut to what snprintf leaves in the 512-byte row.
   */
  function HeaderRow(line: seq<char>): (r: Option<seq<char>>)
    requires FieldsFit(line)
    ensures r.None? <==> forall i :: 0 <= i < |line| ==> line[i] != ':'
    ensures r.Some? ==> |r.value| < RowCapacity
    ensures r.Some? ==>
              var c := IndexOfColon(line).value;
              var markup := RowMarkup(line[..c], line[c + 2..]);
              |r.value| == Min(|markup|, RowCapacity - 1) && r.value <= markup
  {
    match IndexOfColon(line)
    case None => None
    case Some(c) => Some(Truncate(RowMarkup(line[..c], line[c + 2..]), RowCapacity - 1))
  }

  /** The rows of a list of header lines, in line order. */
  function Rows(lines: seq<seq<char>>): seq<seq<char>>
    requires AllFieldsFit(lines)
    decreases |lines|
  {
    if lines == [] then []
    else
      var last := lines[|lines| - 1];
      Rows(lines[..|lines| - 1]) + (match HeaderRow(last) case None => [] case Some(row) => [row])
  }

  /** Every token but the first: the first line is the request line. */
  function Drop1(ts: seq<seq<char>>): seq<seq<char>>
  {
    if ts == [] then [] else ts[1..]
  }

  /** The header lines of the C string in the receive buffer. */
  function HeaderLines(request: seq<char>): seq<seq<char>>
  {
    Drop1(Tokens(request))
  }

  /**
   * What parse_headers leaves in headers_html, as a C string: the rows of all
   * header lines one after the other, cut to `maxSize - 1` characters.
   */
  function HeadersHtml(request: seq<char>, maxSize: nat): seq<char>
    requires 1 <= maxSize && AllFieldsFit(HeaderLines(request))
  {
    Truncate(Concat(Rows(HeaderLines(request))), maxSize - 1)
  }

  /**
   * headers_html never holds more than `maxSize - 1` characters, and holds
   * the rows in order: all of them when they fit, otherwise as many
   * characters of them as fit.
   */
  lemma HeadersHtmlIsCutRows(request: seq<char>, maxSize: nat)
    requires 1 <= maxSize && AllFieldsFit(HeaderLines(request))
    ensures var html := HeadersHtml(request, maxSize);
            var rows := Concat(Rows(HeaderLines(request)));
            && |html| == Min(|rows|, maxSize - 1)
            && html == rows[..|html|]
  {
  }

  /**
   * The in-place effect of the tokenising on the character at `i`: the
   * delimiter that ends a token (a delimiter right after a non-delimiter)
   * becomes NUL; every other character is left as it was.
   */
  function MarkedAt(s: seq<char>, i: nat): char
    requires i < |s|
  {
    if 0 < i && IsDelim(s[i]) && !IsDelim(s[i - 1]) then NUL else s[i]
  }

  /** The receive buffer's C string after parse_headers has tokenised it. */
  function Marked(s: seq<char>): seq<char>
  {
    seq(|s|, i requires 0 <= i < |s| => MarkedAt(s, i))
  }

  /**
   * Appending with strncat bounded by the room left keeps the buffer's string
   * equal to the first `m` characters of everything appended so far.
   */
  lemma TruncateAppend(s: seq<char>, row: seq<char>, m: nat)
    ensures |Truncate(s, m)| <= m
    ensures Truncate(s, m) + row[..Min(m - |Truncate(s, m)|, |row|)] == Truncate(s + row, m)
  {
    if |s| <= m {
      assert (s + row)[..|s| + Min(m - |s|, |row|)] == s + row[..Min(m - |s|, |row|)];
    } else {
      assert (s + row)[..m] == s[..m];
    }
  }

  /** The tokenising leaves the leading line breaks and the first line as they were. */
  lemma MarkedFirstLine(s: seq<char>)
    ensures var d := DelimRun(s); var e := d + SpanLen(s[d..]);
            forall i :: 0 <= i < e ==> MarkedAt(s, i) == s[i]
  {
    var d := DelimRun(s);
    forall i | d < i < d + SpanLen(s[d..])
      ensures !IsDelim(s[i])
    {
      assert s[i] == s[d..][i - d];
    }
  }

  /** The first line ends with a NUL: the one written over its line break, or the string's own. */
  lemma MarkedFirstLineEnd(s: seq<char>, rest: seq<char>)
    requires rest != [] && rest[0] == NUL
    ensures var d := DelimRun(s); var e := d + SpanLen(s[d..]);
            (Marked(s) + rest)[e] == NUL
  {
    var d := DelimRun(s);
    var e := d + SpanLen(s[d..]);
    if e < |s| {
      assert !IsDelim(s[d..][e - 1 - d]);
    }
  }

  /**
   * After the tokenising, the receive buffer's C string ends at the first
   * token's end: what is left is the run of line breaks before the first
   * line, then the first line.
   */
  lemma MarkedCString(s: seq<char>, rest: seq<char>)
    requires NulFree(s) && rest != [] && rest[0] == NUL
    ensures Terminated(Marked(s) + rest)
    ensures CStr(Marked(s) + rest) == s[..DelimRun(s) + SpanLen(s[DelimRun(s)..])]
  {
    var d := DelimRun(s);
    var e := d + SpanLen(s[d..]);
    var buf := Marked(s) + rest;
    MarkedFirstLine(s);
    MarkedFirstLineEnd(s, rest);
    assert forall i :: 0 <= i < e ==> buf[i] == s[i];
    UniqueFirstNul(buf, e);
    assert buf[..e] == s[..e];
  }

  /** A token's place in the buffer: it runs from `start` up to `stop`. */
  datatype Span = Span(start: nat, stop: nat)

  /**
   * One strtok_r call, with CR and LF as delimiters, on a buffer whose unscanned part runs
   * from `save` to the NUL at `end`, taking the buffer from `before` to
   * `after`: skip the run of delimiters; at the NUL there is no token and the
   * position stays there. Otherwise the token is the delimiter-free stretch
   * that follows, up to the next delimiter or the NUL; a delimiter that ends
   * it is overwritten with NUL and the scan resumes after it.
   */
  ghost predicate TokenStep(before: seq<char>, after: seq<char>, save: nat, end: nat,
                            token: Option<Span>, next: nat)
    requires save <= end < |before|
  {
    match token
    case None =>
      && (forall i :: save <= i < end ==> IsDelim(before[i]))
      && next == end && after == before
    case Some(Span(start, stop)) =>
      && save <= start < stop <= end
      && (forall i :: save <= i < start ==> IsDelim(before[i]))
      && (forall i :: start <= i < stop ==> !IsDelim(before[i]))
      && (stop == end ==> next == end && after == before)
      && (stop < end ==> IsDelim(before[stop]) && next == stop + 1 && NulWrittenAt(before, after, stop))
  }

  /** `after` is `before` with a NUL written at index `k`. */
  ghost predicate NulWrittenAt(before: seq<char>, after: seq<char>, k: nat)
  {
    && |after| == |before| && k < |after| && after[k] == NUL
    && forall i :: 0 <= i < |after| && i != k ==> after[i] == before[i]
  }

  /**
   * The delimiter run that strtok_r skips and the token after it, in indices
   * of the whole buffer: `d` delimiters from `save`, then non-delimiters up
   * to `stop`, which is a delimiter or the NUL at `end`.
   */
  lemma ScanFacts(before: seq<char>, save: nat, end: nat, d: nat, stop: nat)
    requires save <= end <= |before|
    requires d == DelimRun(before[save..end])
    requires d < end - save ==> stop == save + d + SpanLen(before[save..end][d..])
    ensures forall i :: save <= i < save + d ==> IsDelim(before[i])
    ensures d < end - save ==> save + d < stop <= end
    ensures d < end - save ==> forall i :: save + d <= i < stop ==> !IsDelim(before[i])
    ensures d < end - save && stop < end ==> IsDelim(before[stop])
  {
    var c := before[save..end];
    assert forall i :: save <= i < end ==> before[i] == c[i - save];
    if d < |c| {
      assert c[d..][0] == c[d];
      assert forall i :: save + d <= i < end ==> before[i] == c[d..][i - save - d];
    }
  }

  /** A scan that finds only delimiters, or a token that runs up to the NUL, changes nothing. */
  lemma ScanWithoutWrite(before: seq<char>, save: nat, end: nat, d: nat, stop: nat)
    requires save <= end < |before|
    requires d == DelimRun(before[save..end])
    requires d < end - save ==> stop == save + d + SpanLen(before[save..end][d..])
    ensures d == end - save ==> TokenStep(before, before, save, end, None, end)
    ensures d < end - save && stop == end ==>
              TokenStep(before, before, save, end, Some(Span(save + d, stop)), end)
    ensures d < end - save && stop < end ==> IsDelim(before[stop])
  {
    ScanFacts(before, save, end, d, stop);
  }

  /** A token ended by a delimiter: the delimiter becomes NUL and the scan resumes after it. */
  lemma ScanWithWrite(before: seq<char>, after: seq<char>, save: nat, end: nat, d: nat, stop: nat)
    requires save <= end < |before|
    requires d == DelimRun(before[save..end]) && d < end - save
    requires stop == save + d + SpanLen(before[save..end][d..]) && stop < end
    requires NulWrittenAt(before, after, stop)
    ensures TokenStep(before, after, save, end, Some(Span(save + d, stop)), stop + 1)
  {
    ScanFacts(before, save, end, d, stop);
  }

  /** strtok_r on the delimiter set "\r\n"; `end` is the index of the NUL that ends the unscanned part. */
  method StrTokR(buf: array<char>, save: nat, ghost end: nat) returns (token: Option<Span>, next: nat)
    requires save <= end < buf.Length && buf[end] == NUL
    requires NulFree(buf[save..end])
    modifies buf
    ensures TokenStep(old(buf[..]), buf[..], save, end, token, next)
  {
    ghost var before := buf[..];
    var c := CStr(buf[save..]);
    assert c == before[save..end] by {
      assert before[save..][end - save] == NUL;
      UniqueFirstNul(before[save..], end - save);
    }
    var d := DelimRun(c);
    if d == |c| {
      ScanWithoutWrite(before, save, end, d, 0);
      return None, save + |c|;
    }
    var stop := save + d + SpanLen(c[d..]);
    ScanWithoutWrite(before, save, end, d, stop);
    token := Some(Span(save + d, stop));
    if stop < save + |c| {
      buf[stop] := NUL;
      next := stop + 1;
      ScanWithWrite(before, buf[..], save, end, d, stop);
    } else {
      next := stop;
    }
  }

  /**
   * The receive buffer `b` part-way through the tokenising of the C string
   * `s` that `orig` held: before `save` it is already as the tokenising
   * leaves it, from `save` on it is untouched.
   */
  ghost predicate TokenisedUpTo(b: seq<char>, orig: seq<char>, s: seq<char>, save: nat)
  {
    && |b| == |orig| && |s| < |orig| && s == orig[..|s|] && orig[|s|] == NUL && NulFree(s)
    && save <= |s| && (save == 0 || save == |s| || IsDelim(s[save - 1]))
    && (forall i :: 0 <= i < save ==> b[i] == MarkedAt(s, i))
    && (forall i :: save <= i < |b| ==> b[i] == orig[i])
  }

  /**
   * The tokens strtok_r has returned so far are `seen`; `line` is the one it
   * returned last, still intact in the buffer `b`, and the ones still to come
   * are the tokens of the text from `save` on. No `line` means none are left.
   */
  ghost predicate Pending(b: seq<char>, s: seq<char>, seen: seq<seq<char>>, line: Option<Span>, save: nat)
  {
    && save <= |s| < |b|
    && match line
       case None => save == |s| && Tokens(s) == seen
       case Some(Span(start, stop)) =>
         && start < stop <= save
         && b[start..stop] == s[start..stop]
         && Tokens(s) == seen + [s[start..stop]] + Tokens(s[save..])
  }

  /** A run of delimiters that follows a delimiter, or starts the string, is left as it is. */
  lemma MarkedDelimRun(s: seq<char>, lo: nat, hi: nat)
    requires lo <= hi <= |s|
    requires forall i :: lo <= i < hi ==> IsDelim(s[i])
    requires lo < hi ==> lo == 0 || IsDelim(s[lo - 1])
    ensures forall i :: lo <= i < hi ==> MarkedAt(s, i) == s[i]
  {
    forall i | lo <= i < hi
      ensures MarkedAt(s, i) == s[i]
    {
      if i > lo {
        assert IsDelim(s[i - 1]);
      }
    }
  }

  /** A strtok_r call that finds only delimiters leaves the buffer tokenised to the end. */
  lemma TokeniseToEnd(orig: seq<char>, s: seq<char>, b: seq<char>, save: nat)
    requires TokenisedUpTo(b, orig, s, save)
    requires forall i :: save <= i < |s| ==> IsDelim(b[i])
    ensures TokenisedUpTo(b, orig, s, |s|)
  {
    assert forall i :: save <= i < |s| ==> b[i] == s[i];
    MarkedDelimRun(s, save, |s|);
  }

  /**
   * A strtok_r call that returns the token from `start` to `stop` leaves the
   * buffer tokenised up to where the scan resumes, with the token intact.
   */
  lemma TokeniseToken(orig: seq<char>, s: seq<char>, b: seq<char>, b': seq<char>, save: nat,
                      start: nat, stop: nat, next: nat)
    requires TokenisedUpTo(b, orig, s, save)
    requires TokenStep(b, b', save, |s|, Some(Span(start, stop)), next)
    ensures TokenisedUpTo(b', orig, s, next)
    ensures b'[start..stop] == s[start..stop]
  {
    assert forall i :: save <= i < |s| ==> b[i] == s[i];
    MarkedDelimRun(s, save, start);
    assert forall i :: start <= i < stop ==> b'[i] == s[i] == MarkedAt(s, i);
  }

  /**
   * What one strtok_r call does to the tokenising as a whole: the position
   * moves on, the buffer stays tokenised up to it, and the token returned is
   * the next of Tokens(s), or there is none when all of Tokens(s) is seen.
   */
  lemma TokeniseStep(orig: seq<char>, s: seq<char>, b: seq<char>, b': seq<char>, save: nat,
                     seen: seq<seq<char>>, token: Option<Span>, next: nat)
    requires TokenisedUpTo(b, orig, s, save)
    requires TokenStep(b, b', save, |s|, token, next)
    requires Tokens(s) == seen + Tokens(s[save..])
    ensures TokenisedUpTo(b', orig, s, next)
    ensures Pending(b', s, seen, token, next)
  {
    match token
    case None =>
      TokeniseToEnd(orig, s, b, save);
      assert forall i :: save <= i < |s| ==> IsDelim(s[i]);
      TokensOfDelims(s, save);
    case Some(Span(start, stop)) =>
      TokeniseToken(orig, s, b, b', save, start, stop, next);
      TokenOfScan(orig, s, b, b', save, start, stop, next);
      assert Tokens(s) == seen + [s[start..stop]] + Tokens(s[next..]);
  }

  /** The token a strtok_r call returns is the first of the tokens of the text it scans. */
  lemma TokenOfScan(orig: seq<char>, s: seq<char>, b: seq<char>, b': seq<char>, save: nat,
                    start: nat, stop: nat, next: nat)
    requires TokenisedUpTo(b, orig, s, save)
    requires TokenStep(b, b', save, |s|, Some(Span(start, stop)), next)
    ensures Tokens(s[save..]) == [s[start..stop]] + Tokens(s[next..])
  {
    assert forall i :: save <= i < |s| ==> b[i] == s[i];
    TokensAt(s, save, start, stop);
  }

  /** The part of the buffer not yet scanned is the rest of the C string, then its NUL. */
  lemma Unscanned(b: seq<char>, orig: seq<char>, s: seq<char>, save: nat)
    requires TokenisedUpTo(b, orig, s, save)
    ensures b[save..|s|] == s[save..] && NulFree(b[save..|s|]) && b[|s|] == NUL
  {
    assert forall i :: save <= i < |s| ==> b[i] == s[i];
  }

  /** Once the whole string is tokenised, the buffer is its marked form followed by the untouched rest. */
  lemma TokenisedAll(b: seq<char>, orig: seq<char>, s: seq<char>)
    requires TokenisedUpTo(b, orig, s, |s|)
    ensures b == Marked(s) + orig[|s|..]
  {
    assert forall i :: 0 <= i < |b| ==> b[i] == (Marked(s) + orig[|s|..])[i];
  }

  /**
   * strncat with a bound `n`: append at most `n` characters of `src` at the end
   * of the string in `dest`, then a NUL; nothing else in `dest` changes.
   */
  method StrNCat(dest: array<char>, src: seq<char>, n: nat)
    requires Terminated(dest[..]) && NulFree(src)
    requires CStrLen(dest[..]) + Min(n, |src|) < dest.Length
    modifies dest
    ensures Terminated(dest[..])
    ensures CStr(dest[..]) == old(CStr(dest[..])) + src[..Min(n, |src|)]
    ensures forall i :: old(CStrLen(dest[..])) + Min(n, |src|) < i < dest.Length ==> dest[i] == old(dest[i])
  {
    var len := CStrLen(dest[..]);
    var m := Min(n, |src|);
    forall i | len <= i < len + m {
      dest[i] := src[i - len];
    }
    dest[len + m] := NUL;
    assert dest[..len + m] == old(dest[..len]) + src[..m];
    UniqueFirstNul(dest[..], len + m);
  }

  /** A row made of NUL-free fields has no NUL in it: strncat copies all of it that fits. */
  lemma RowMarkupNulFree(key: seq<char>, value: seq<char>, m: nat)
    requires NulFree(key) && NulFree(value)
    ensures NulFree(Truncate(RowMarkup(key, value), m))
  {
    var markup := RowMarkup(key, value);
    forall i | 0 <= i < |markup|
      ensures markup[i] != NUL
    {
      if i < 8 {
      } else if i < 8 + |key| {
        assert markup[i] == key[i - 8];
      } else if i < 8 + |key| + 9 {
      } else if i < 8 + |key| + 9 + |value| {
        assert markup[i] == value[i - 17 - |key|];
      }
    }
  }

  /** The characters a header line adds to headers_html before any cut. */
  function RowText(line: seq<char>): seq<char>
    requires FieldsFit(line)
  {
    match HeaderRow(line)
    case None => []
    case Some(row) => row
  }

  /** One more header line adds its row text, if any, after the rows so far. */
  lemma RowsSnoc(lines: seq<seq<char>>, line: seq<char>)
    requires AllFieldsFit(lines) && FieldsFit(line)
    ensures AllFieldsFit(lines + [line])
    ensures Concat(Rows(lines + [line])) == Concat(Rows(lines)) + RowText(line)
  {
    assert (lines + [line])[..|lines|] == lines;
    var rows := Rows(lines);
    match HeaderRow(line)
    case None =>
      assert Rows(lines + [line]) == rows;
    case Some(row) =>
      assert Rows(lines + [line]) == rows + [row];
      assert (rows + [row])[..|rows|] == rows;
  }

  /** The row AppendRow formats for a line with its first colon at `c` is the line's row text. */
  lemma RowOfLine(line: seq<char>, c: nat, key: seq<char>, value: seq<char>, row: seq<char>)
    requires FieldsFit(line) && NulFree(line) && IndexOfColon(line) == Some(c)
    requires key == line[..c] && value == line[c + 2..]
    requires row == Truncate(RowMarkup(key, value), RowCapacity - 1)
    ensures RowText(line) == row && NulFree(row)
  {
    RowMarkupNulFree(key, value, RowCapacity - 1);
  }

  /**
   * headers_html holds, as a C string, the rows of `lines` cut to
   * `maxSize - 1` characters, and from index `maxSize` on it is as it was
   * (`initial`).
   */
  ghost predicate HtmlHolds(html: array<char>, lines: seq<seq<char>>, maxSize: nat, initial: seq<char>)
    reads html
  {
    HtmlState(html[..], lines, maxSize, initial)
  }

  /** HtmlHolds for the contents `h` of headers_html. */
  ghost predicate HtmlState(h: seq<char>, lines: seq<seq<char>>, maxSize: nat, initial: seq<char>)
  {
    && 1 <= maxSize <= |h| && |initial| == |h|
    && AllFieldsFit(lines)
    && Terminated(h)
    && CStr(h) == Truncate(Concat(Rows(lines)), maxSize - 1)
    && forall i :: maxSize <= i < |h| ==> h[i] == initial[i]
  }

  /** A line without a colon adds no row: headers_html already holds the rows with it. */
  lemma HtmlStateNoRow(h: seq<char>, lines: seq<seq<char>>, line: seq<char>, maxSize: nat, initial: seq<char>)
    requires HtmlState(h, lines, maxSize, initial)
    requires FieldsFit(line) && IndexOfColon(line).None?
    ensures HtmlState(h, lines + [line], maxSize, initial)
  {
    RowsSnoc(lines, line);
    assert Concat(Rows(lines)) + RowText(line) == Concat(Rows(lines));
  }

  /** Appending a line's row with bounded strncat keeps headers_html holding the rows so far. */
  lemma HtmlStateRow(h: seq<char>, h': seq<char>, lines: seq<seq<char>>, line: seq<char>,
                     row: seq<char>, maxSize: nat, initial: seq<char>)
    requires HtmlState(h, lines, maxSize, initial)
    requires FieldsFit(line) && RowText(line) == row
    requires |h'| == |h| && Terminated(h')
    requires CStr(h') == Truncate(Concat(Rows(lines)) + row, maxSize - 1)
    requires forall i :: maxSize <= i < |h'| ==> h'[i] == h[i]
    ensures HtmlState(h', lines + [line], maxSize, initial)
  {
    RowsSnoc(lines, line);
  }

  /**
   * strncat of the row, bounded by the room left in headers_html before its
   * last byte: append as much of the row as fits. The buffer keeps the first
   * `maxSize - 1` characters of everything appended so far.
   */
  method AppendBounded(headersHtml: array<char>, row: seq<char>, maxSize: nat, ghost done: seq<char>)
    requires 1 <= maxSize <= headersHtml.Length
    requires Terminated(headersHtml[..]) && CStr(headersHtml[..]) == Truncate(done, maxSize - 1)
    requires NulFree(row)
    modifies headersHtml
    ensures Terminated(headersHtml[..])
    ensures CStr(headersHtml[..]) == Truncate(done + row, maxSize - 1)
    ensures forall i :: maxSize <= i < headersHtml.Length ==> headersHtml[i] == old(headersHtml[i])
  {
    var used := CStrLen(headersHtml[..]);
    StrNCat(headersHtml, row, maxSize - used - 1);
    assert CStr(headersHtml[..]) == Truncate(done + row, maxSize - 1) by {
      TruncateAppend(done, row, maxSize - 1);
    }
  }

  /**
   * The body of parse_headers's loop for a line after the first: find the
   * colon, copy the key and the value, format the row and append it with
   * strncat bounded by the room left in headers_html.
   */
  method AppendRow(headersHtml: array<char>, line: seq<char>, maxSize: nat,
                   ghost lines: seq<seq<char>>, ghost initial: seq<char>)
    requires HtmlHolds(headersHtml, lines, maxSize, initial)
    requires FieldsFit(line) && NulFree(line)
    modifies headersHtml
    ensures HtmlHolds(headersHtml, lines + [line], maxSize, initial)
  {
    ghost var before := headersHtml[..];
    var colon := IndexOfColon(line);
    if colon.None? {
      HtmlStateNoRow(before, lines, line, maxSize, initial);
      return;
    }
    // the key: the text before the colon
    var key := line[..colon.value];
    // the value: from two characters past the colon
    var value := line[colon.value + 2..];
    // the row markup, cut to the 511 characters the row buffer holds
    var row := Truncate(RowMarkup(key, value), RowCapacity - 1);
    RowOfLine(line, colon.value, key, value, row);
    AppendBounded(headersHtml, row, maxSize, Concat(Rows(lines)));
    HtmlStateRow(before, headersHtml[..], lines, line, row, maxSize, initial);
  }

  /** The token after a non-empty prefix of Tokens(s) is a header line, and fits. */
  lemma NextHeaderLine(s: seq<char>, seen: seq<seq<char>>, t: seq<char>, rest: seq<seq<char>>)
    requires AllFieldsFit(HeaderLines(s))
    requires Tokens(s) == seen + [t] + rest && seen != []
    ensures Drop1(seen + [t]) == Drop1(seen) + [t]
    ensures FieldsFit(t)
  {
    assert HeaderLines(s)[|seen| - 1] == Tokens(s)[|seen|] == t;
  }

  /**
   * One pass of parse_headers's loop body for the line `line`, the token
   * after `seen`: the first line is skipped, every later one has its row
   * appended.
   */
  method ProcessLine(headersHtml: array<char>, line: seq<char>, maxSize: nat, firstLine: bool,
                     ghost seen: seq<seq<char>>, ghost s: seq<char>, ghost rest: seq<seq<char>>,
                     ghost initial: seq<char>)
    requires HtmlHolds(headersHtml, Drop1(seen), maxSize, initial)
    requires AllFieldsFit(HeaderLines(s)) && Tokens(s) == seen + [line] + rest
    requires firstLine <==> seen == []
    requires NulFree(line)
    modifies headersHtml
    ensures HtmlHolds(headersHtml, Drop1(seen + [line]), maxSize, initial)
  {
    if firstLine {
      assert Drop1(seen + [line]) == [];
      return;
    }
    NextHeaderLine(s, seen, line, rest);
    AppendRow(headersHtml, line, maxSize, Drop1(seen), initial);
  }

  /** The receive buffer part-way through the tokenising, with `line` the token returned last. */
  ghost predicate Scanning(recvbuf: array<char>, orig: seq<char>, s: seq<char>,
                           seen: seq<seq<char>>, line: Option<Span>, save: nat)
    reads recvbuf
  {
    TokenisedUpTo(recvbuf[..], orig, s, save) && Pending(recvbuf[..], s, seen, line, save)
  }

  /**
   * A strtok_r call that continues from the saved position inside
   * parse_headers: the next line of the receive buffer, with the tokenising carried one step further.
   */
  method NextLine(recvbuf: array<char>, save: nat, ghost orig: seq<char>, ghost s: seq<char>,
                  ghost seen: seq<seq<char>>) returns (line: Option<Span>, next: nat)
    requires TokenisedUpTo(recvbuf[..], orig, s, save)
    requires Tokens(s) == seen + Tokens(s[save..])
    modifies recvbuf
    ensures Scanning(recvbuf, orig, s, seen, line, next)
    ensures line.Some? ==> save < next
  {
    ghost var b := recvbuf[..];
    Unscanned(b, orig, s, save);
    line, next := StrTokR(recvbuf, save, |s|);
    TokeniseStep(orig, s, b, recvbuf[..], save, seen, line, next);
  }

  /**
   * parse_headers(recvbuf, headers_html, max_size): empty headers_html, then
   * take the lines of recvbuf one by one with strtok_r, skip the first, and
   * for every later line with a colon append its row with strncat bounded by
   * the room left. Afterwards recvbuf has a NUL where each line's ending
   * delimiter was, and headers_html holds the rows cut to `maxSize - 1`
   * characters; headers_html from index `maxSize` on is never written.
   */
  method ParseHeaders(recvbuf: array<char>, headersHtml: array<char>, maxSize: nat)
    requires recvbuf != headersHtml
    requires Terminated(recvbuf[..])
    requires 1 <= maxSize <= headersHtml.Length
    requires AllFieldsFit(HeaderLines(CStr(recvbuf[..])))
    modifies recvbuf, headersHtml
    ensures var len := old(CStrLen(recvbuf[..]));
            recvbuf[..] == Marked(old(recvbuf[..len])) + old(recvbuf[len..])
    ensures Terminated(headersHtml[..])
    ensures CStr(headersHtml[..]) == HeadersHtml(old(CStr(recvbuf[..])), maxSize)
    ensures forall i :: maxSize <= i < headersHtml.Length ==> headersHtml[i] == old(headersHtml[i])
  {
    ghost var s := CStr(recvbuf[..]);
    ghost var orig := recvbuf[..];
    ghost var initial := headersHtml[..];

    // headers_html starts empty
    headersHtml[0] := NUL;
    assert HtmlHolds(headersHtml, [], maxSize, initial) by {
      UniqueFirstNul(headersHtml[..], 0);
    }

    assert s[0..] == s;
    var line, save := NextLine(recvbuf, 0, orig, s, []);
    var firstLine := true;
    ghost var seen: seq<seq<char>> := [];
    while line.Some?
      invariant Scanning(recvbuf, orig, s, seen, line, save)
      invariant firstLine <==> seen == []
      invariant HtmlHolds(headersHtml, Drop1(seen), maxSize, initial)
      decreases |s| - save + (if line.Some? then 1 else 0)
    {
      var start, stop := line.value.start, line.value.stop;
      ghost var t := s[start..stop];
      var text := recvbuf[start..stop];
      NulFreeSlice(s, start, stop);
      ProcessLine(headersHtml, text, maxSize, firstLine, seen, s, Tokens(s[save..]), initial);
      firstLine := false;
      seen := seen + [t];
      line, save := NextLine(recvbuf, save, orig, s, seen);
    }
    TokenisedAll(recvbuf[..], orig, s);
  }
}
