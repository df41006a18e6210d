/**
 * One pass of the accept loop in main (main.c): the request in recvbuf is
 * turned into the headers table, its host is looked up and classified. The
 * socket calls around it and the formatting of the reply are not modelled.
 */
module Server {
  import opened CStrings
  import opened Matcher
  import opened Classifier
  import opened HostHeader
  import opened HeaderParser

  /** BUFLEN: the size of the static receive buffer. */
  const BufLen: nat := 2048

  /** sizeof(headers_html), passed to parse_headers as max_size. */
  const HeadersHtmlSize: nat := 8192

  /** A stretch without line breaks has no "\r\n" in it. */
  lemma NoLineEndWithoutDelims(c: seq<char>, start: nat)
    requires start <= |c|
    requires forall i :: start <= i < |c| ==> !IsDelim(c[i])
    ensures !Occurs(c[start..], LineEnd)
  {
    var tail := c[start..];
    forall j: nat
      ensures !OccursAt(tail, j, LineEnd)
    {
      if j + |LineEnd| <= |tail| {
        assert tail[j..j + |LineEnd|][0] == tail[j] == c[start + j];
      }
    }
  }

  /**
   * The first line of a request, after the line breaks that may precede it,
   * has no line break in it; so no "\r\n" follows a "Host: " found there.
   */
  lemma NoLineEndAfterMarkerInFirstLine(s: seq<char>, c: seq<char>, p: nat)
    requires c == s[..DelimRun(s) + SpanLen(s[DelimRun(s)..])]
    requires IsFirstOccurrence(c, p, HostMarker)
    ensures !Occurs(c[p + |HostMarker|..], LineEnd)
  {
    var d := DelimRun(s);
    var start := p + |HostMarker|;
    assert forall i :: start <= i < |c| ==> !IsDelim(c[i]) by {
      assert c[p] == c[p..start][0] == 'H';
      assert d <= p;
      assert forall i :: d <= i < |c| ==> c[i] == s[d..][i - d];
    }
    NoLineEndWithoutDelims(c, start);
  }

  /**
   * Once parse_headers has tokenised a request, getHostFromHeaders finds no
   * host in it: the buffer's C string now ends with the first line, and a
   * "Host: " in that line has no "\r\n" after it within the string.
   */
  lemma ParsedRequestHasNoHost(s: seq<char>, rest: seq<char>)
    requires NulFree(s) && rest != [] && rest[0] == NUL
    ensures Terminated(Marked(s) + rest)
    ensures HostOf(Marked(s) + rest) == None
  {
    var buf := Marked(s) + rest;
    MarkedCString(s, rest);
    var c := CStr(buf);
    match FirstOccurrence(c, HostMarker)
    case None =>
      HostOfWithoutMarker(buf);
    case Some(p) =>
      NoLineEndAfterMarkerInFirstLine(s, c, p);
      HostOfWithoutLineEnd(buf, p);
  }

  /**
   * The image a request should be answered with: that of the host its
   * "Host: " header names, or the container image when it names none.
   */
  function IntendedImage(request: seq<char>): RuntimeImage
    requires Terminated(request)
  {
    match HostOf(request)
    case None => Container
    case Some(name) => DetermineImageUrl(Some(name + [NUL]))
  }

  /**
   * main as written: parse_headers on recvbuf and the whole headers_html
   * buffer, then getHostFromHeaders on recvbuf, then determineImageURL on the
   * host name it returned.
   * Because the tokenising has already cut recvbuf's string at the end of the
   * first line, the host is always NULL and the image always the container's.
   */
  method HandleRequestAsWritten(recvbuf: array<char>, headersHtml: array<char>, host: array<char>)
    returns (image: RuntimeImage)
    requires recvbuf.Length == BufLen && headersHtml.Length == HeadersHtmlSize
    requires host.Length == HostCapacity
    requires recvbuf != headersHtml && recvbuf != host && headersHtml != host
    requires Terminated(recvbuf[..]) && AllFieldsFit(HeaderLines(CStr(recvbuf[..])))
    modifies recvbuf, headersHtml, host
    ensures Terminated(headersHtml[..])
    ensures CStr(headersHtml[..]) == HeadersHtml(old(CStr(recvbuf[..])), HeadersHtmlSize)
    ensures var len := old(CStrLen(recvbuf[..]));
            recvbuf[..] == Marked(old(recvbuf[..len])) + old(recvbuf[len..])
    ensures host[..] == old(host[..])
    ensures image == Container
  {
    ghost var s := CStr(recvbuf[..]);
    ghost var rest := recvbuf[|s|..];
    ParseHeaders(recvbuf, headersHtml, HeadersHtmlSize);
    ParsedRequestHasNoHost(s, rest);
    var hostname := GetHostFromHeaders(recvbuf[..], host);
    image := DetermineImageUrl(hostname);
  }

  /**
   * main with the host looked up before parse_headers tokenises the buffer:
   * the image is the one the request's Host header calls for.
   */
  method HandleRequest(recvbuf: array<char>, headersHtml: array<char>, host: array<char>)
    returns (image: RuntimeImage)
    requires recvbuf.Length == BufLen && headersHtml.Length == HeadersHtmlSize
    requires host.Length == HostCapacity
    requires recvbuf != headersHtml && recvbuf != host && headersHtml != host
    requires Terminated(recvbuf[..]) && AllFieldsFit(HeaderLines(CStr(recvbuf[..])))
    modifies recvbuf, headersHtml, host
    ensures Terminated(headersHtml[..])
    ensures CStr(headersHtml[..]) == HeadersHtml(old(CStr(recvbuf[..])), HeadersHtmlSize)
    ensures var len := old(CStrLen(recvbuf[..]));
            recvbuf[..] == Marked(old(recvbuf[..len])) + old(recvbuf[len..])
    ensures HostOf(old(recvbuf[..])).Some? ==>
              Terminated(host[..]) && CStr(host[..]) == HostOf(old(recvbuf[..])).value
    ensures HostOf(old(recvbuf[..])).None? ==> host[..] == old(host[..])
    ensures image == IntendedImage(old(recvbuf[..]))
  {
    ghost var request := recvbuf[..];
    var hostname := GetHostFromHeaders(recvbuf[..], host);
    ParseHeaders(recvbuf, headersHtml, HeadersHtmlSize);
    image := DetermineImageUrl(hostname);
    if hostname.Some? {
      var name := HostOf(request).value;
      CStrOfContent(name, [NUL]);
      DetermineImageUrlReadsCString(hostname.value, name + [NUL]);
    }
  }

  /**
   * A request whose only header line is "Host: hellofc": its header line
   * fits the key and value buffers, so main accepts it, and the image its
   * Host header calls for is the Firecracker one. HandleRequestAsWritten
   * answers it with the container image all the same.
   */
  lemma HostHeaderLostExample(requestLine: seq<char>, header: seq<char>, s: seq<char>)
    requires requestLine == "GET / HTTP/1.1" && header == "Host: hellofc"
    requires s == requestLine + "\r\n" + header + "\r\n\r\n"
    ensures Terminated(s + [NUL]) && CStr(s + [NUL]) == s
    ensures HeaderLines(s) == [header] && AllFieldsFit(HeaderLines(s))
    ensures HostOf(s + [NUL]) == Some("hellofc")
    ensures IntendedImage(s + [NUL]) == Firecracker
  {
    var request := s + [NUL];
    assert NulFree(s) by {
      DelimFreeExample(requestLine, header);
    }
    CStrOfContent(s, [NUL]);
    ExampleHeaderLines(requestLine, header, s);
    ExampleHostMarker(requestLine, header, s);
    ExampleLineEnd(requestLine, header, s);
    HostOfBetweenMarkerAndLineEnd(request, 16, 7);
    ExampleHostName(requestLine, header, s);
    FirecrackerHost("hellofc");
  }

  /** In the example the first "Host: " is at 16. */
  lemma ExampleHostMarker(requestLine: seq<char>, header: seq<char>, s: seq<char>)
    requires requestLine == "GET / HTTP/1.1" && header == "Host: hellofc"
    requires s == requestLine + "\r\n" + header + "\r\n\r\n"
    ensures IsFirstOccurrence(s, 16, HostMarker)
  {
    assert s[16..22] == HostMarker;
    forall j: nat | j < 16
      ensures !OccursAt(s, j, HostMarker)
    {
      if j == 6 {
        assert s[j..j + |HostMarker|][1] != HostMarker[1];
      } else {
        assert s[j] != 'H';
        assert s[j..j + |HostMarker|][0] != HostMarker[0];
      }
    }
  }

  /** In the example the first "\r\n" after the "Host: " is 7 characters on. */
  lemma ExampleLineEnd(requestLine: seq<char>, header: seq<char>, s: seq<char>)
    requires requestLine == "GET / HTTP/1.1" && header == "Host: hellofc"
    requires s == requestLine + "\r\n" + header + "\r\n\r\n"
    ensures IsFirstOccurrence(s[22..], 7, LineEnd)
  {
    var tail := s[22..];
    assert tail == "hellofc\r\n\r\n";
    assert tail[7..9] == LineEnd;
    forall j: nat | j < 7
      ensures !OccursAt(tail, j, LineEnd)
    {
      assert tail[j..j + |LineEnd|][0] != LineEnd[0];
    }
  }

  /** The example's host name. */
  lemma ExampleHostName(requestLine: seq<char>, header: seq<char>, s: seq<char>)
    requires requestLine == "GET / HTTP/1.1" && header == "Host: hellofc"
    requires s == requestLine + "\r\n" + header + "\r\n\r\n"
    ensures s[22..29] == "hellofc"
  {
    assert s[22..29] == header[6..];
  }

  /** Neither line of the example holds a line break. */
  lemma DelimFreeExample(requestLine: seq<char>, header: seq<char>)
    requires requestLine == "GET / HTTP/1.1" && header == "Host: hellofc"
    ensures forall i :: 0 <= i < |requestLine| ==> !IsDelim(requestLine[i]) && requestLine[i] != NUL
    ensures forall i :: 0 <= i < |header| ==> !IsDelim(header[i]) && header[i] != NUL
  {
  }

  /** The example's first token is its request line. */
  lemma ExampleFirstToken(requestLine: seq<char>, header: seq<char>, s: seq<char>)
    requires requestLine == "GET / HTTP/1.1" && header == "Host: hellofc"
    requires s == requestLine + "\r\n" + header + "\r\n\r\n"
    ensures Tokens(s) == [requestLine] + Tokens(s[15..])
  {
    DelimFreeExample(requestLine, header);
    assert s[0..] == s;
    assert s[..14] == requestLine;
    TokensAt(s, 0, 0, 14);
  }

  /** After the request line, the example's only token is its header line. */
  lemma ExampleSecondToken(requestLine: seq<char>, header: seq<char>, s: seq<char>)
    requires requestLine == "GET / HTTP/1.1" && header == "Host: hellofc"
    requires s == requestLine + "\r\n" + header + "\r\n\r\n"
    ensures Tokens(s[15..]) == [header]
  {
    DelimFreeExample(requestLine, header);
    assert s[16..29] == header;
    TokensAt(s, 15, 16, 29);
    TokensOfDelims(s, 30);
  }

  /** The header lines of the example request: the one "Host: " line. */
  lemma ExampleHeaderLines(requestLine: seq<char>, header: seq<char>, s: seq<char>)
    requires requestLine == "GET / HTTP/1.1" && header == "Host: hellofc"
    requires s == requestLine + "\r\n" + header + "\r\n\r\n"
    ensures HeaderLines(s) == [header] && AllFieldsFit(HeaderLines(s))
  {
    ExampleFirstToken(requestLine, header, s);
    ExampleSecondToken(requestLine, header, s);
    ExampleFieldsFit(header);
  }

  /** The example's header line has its colon at 4, so its key and value fit. */
  lemma ExampleFieldsFit(header: seq<char>)
    requires header == "Host: hellofc"
    ensures FieldsFit(header)
  {
    assert header[4] == ':';
  }
}
