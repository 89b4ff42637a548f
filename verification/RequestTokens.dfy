/**
 The corners of the request parser that well-formed HTTP requests do not reach: other
 protocol tokens, carriage returns inside a line, and what leads out of the arrays.
 */
module RequestTokens {
  import opened Options
  import opened HttpParams
  import opened HttpRequest
  import opened RequestText

  // ------------------------------------------------------------ the protocol

  /** The protocol stored for a token: four letters are compared, and the length tells
      the two apart; any other token leaves the field as it was. */
  lemma ReadAnyProto(r: Request, buf: string, nread: nat, i: nat, p: string)
    requires Holds(buf, nread) && |r.url| == URL_SIZE && r.status == Proto && i + |p| < nread
    requires Without(p, '/') && buf[i..i + |p|] == p && buf[i + |p|] == '/'
    ensures var proto :=
        if p == "HTTP" then Some(HTTP)
        else if |p| == 5 && p[..4] == "HTTP" then Some(HTTPS)
        else r.proto;
      Rest(buf, nread, At(r, i, i)) ==
      if i + 4 <= |buf| then Rest(buf, nread, At(r.(proto := proto, status := Version), i + |p| + 1, i + |p| + 1))
      else Failed
  {
    var n := |p|;
    SliceWithout(buf, i, n, '/');
    Skip(r, buf, nread, i, i + n, i);
    if i + 4 <= |buf| {
      FourLetters(buf, i, p);
      var proto := if StartsWith(buf, i, "HTTP") && n == 4 then Some(HTTP)
                   else if StartsWith(buf, i, "HTTP") && n == 5 then Some(HTTPS) else r.proto;
      hide ScanFrom, Rest;
      ScanStep(r, buf, nread, i + n, i, At(r.(proto := proto, status := Version), i + n + 1, i + n + 1));
    }
  }

  lemma FourLetters(buf: string, i: nat, p: string)
    requires i + |p| <= |buf| && i + 4 <= |buf| && buf[i..i + |p|] == p
    ensures 4 <= |p| ==> (StartsWith(buf, i, "HTTP") <==> p[..4] == "HTTP")
    ensures |p| == 4 ==> (p[..4] == "HTTP" <==> p == "HTTP")
  {
    if 4 <= |p| { assert buf[i..i + 4] == p[..4]; }
    if |p| == 4 { assert p[..4] == p; }
  }

  /** A request with any protocol token. */
  function HeadWith(token: string, url: string, p: string, version: string, headers: seq<string>): string {
    token + (" " + (url + (" " + (p + ("/" + (version + ("\r\n" + Lines(headers))))))))
  }

  /** Where protocol, version and lines lie. */
  lemma BackLayout(p: string, version: string, lines: string, buf: string, i: nat, extra: string)
    requires i <= |buf| && buf[i..] == p + ("/" + (version + ("\r\n" + lines))) + extra
    ensures var v := i + |p| + 1; var e := v + |version|;
      && e + 2 <= |buf| && buf[i..i + |p|] == p && buf[i + |p|] == '/'
      && buf[v..e] == version && buf[e] == '\r' && buf[e + 1] == '\n' && buf[e + 2..] == lines + extra
  {
    var line := version + ("\r\n" + lines);
    CutFront(buf, i, p, "/" + line, extra);
    CutFront(buf, i + |p|, "/", line, extra);
    hide *;
    LineLayout(version, lines, buf, i + |p| + 1, extra);
  }

  lemma LineLayout(version: string, lines: string, buf: string, v: nat, extra: string)
    requires v <= |buf| && buf[v..] == version + ("\r\n" + lines) + extra
    ensures var e := v + |version|;
      && e + 2 <= |buf| && buf[v..e] == version && buf[e] == '\r' && buf[e + 1] == '\n' && buf[e + 2..] == lines + extra
  {
    CutFront(buf, v, version, "\r\n" + lines, extra);
    CutFront(buf, v + |version|, "\r\n", lines, extra);
  }

  /** Round trip for any protocol token without slash: HTTP is recognised as HTTP, any
      five letters that begin with HTTP as HTTPS, and nothing else as either. */
  lemma AnyProtoRoundTrip(token: string, url: string, p: string, version: string, headers: seq<string>, stale: string)
    requires WellFormed(token, url, version, headers) && headers != [] && Without(p, '/')
    ensures var head := HeadWith(token, url, p, version, headers); var buf := head + stale;
      var o := Parse(Fresh(), buf, |head|);
      && 4 <= |buf| && o.Ok? && o.r.status == Finish && o.r.methd == MethodOf(buf) && o.r.params == map[]
      && o.r.url == url + Fresh().url[|url|..]
      && (o.r.proto == Some(HTTP) <==> p == "HTTP")
      && (o.r.proto == Some(HTTPS) <==> |p| == 5 && p[..4] == "HTTP")
  {
    var lines, head := Lines(headers), HeadWith(token, url, p, version, headers);
    var back := p + ("/" + (version + ("\r\n" + lines)));
    var buf, n, i := head + stale, |head|, |token| + |url| + 2;
    assert head == token + (" " + (url + (" " + back)));
    LayoutFront(token, url, back, buf, stale);
    BackLayout(p, version, lines, buf, i, stale);
    var v := i + |p| + 1;
    var e := v + |version|;
    assert n == e + 2 + |lines| && |buf| >= i + 4;
    FrontOf(buf, e + 2, n, lines, stale);
    WellFormedHeaders(token, url, version, headers);
    assert Without(token, ' ') && Without(url, ' ') && Without(version, '\r');
    hide HeadWith, Lines, Rest, ScanFrom, Without, WellFormed, HeaderLine, RestOfLines, Parse, MethodOf, Fresh;
    ReadTokenAndUrl(token, url, buf, n);
    ReadBack(Request(Proto, MethodOf(buf), None, url + Fresh().url[|url|..], map[]), buf, n, i, p, version, headers);
  }

  lemma ReadBack(r: Request, buf: string, n: nat, i: nat, p: string, version: string, headers: seq<string>)
    requires Holds(buf, n) && |r.url| == URL_SIZE && r.status == Proto && i + 4 <= |buf| && RestOfLines(headers)
    requires Without(p, '/') && Without(version, '\r')
    requires var v := i + |p| + 1; var e := v + |version|;
      && e + 2 <= n && buf[i..i + |p|] == p && buf[i + |p|] == '/'
      && buf[v..e] == version && buf[e] == '\r' && buf[e + 1] == '\n' && buf[e + 2..n] == Lines(headers)
    ensures Rest(buf, n, At(r, i, i)) == Ok(r.(status := Finish, proto :=
      if p == "HTTP" then Some(HTTP) else if |p| == 5 && p[..4] == "HTTP" then Some(HTTPS) else r.proto))
  {
    var proto := if p == "HTTP" then Some(HTTP) else if |p| == 5 && p[..4] == "HTTP" then Some(HTTPS) else r.proto;
    var v := i + |p| + 1;
    var e := v + |version|;
    var r1 := r.(proto := proto, status := Version);
    hide Lines, Rest, ScanFrom, Without, RestOfLines;
    ReadAnyProto(r, buf, n, i, p);
    ReadVersion(r1, buf, n, v, |version|);
    HeadersToFinish(r1.(status := RequestHead), buf, n, e + 2, e + 2, headers);
  }

  // ------------------------------------------------------ carriage returns

  /** Within the version or a header line a carriage return swallows the byte behind it,
      unless that is a line feed: even another carriage return, so that CR CR LF does
      not end a line. */
  lemma LoneCarriageReturn(r: Request, buf: string, nread: nat, i: nat, begin: nat)
    requires Holds(buf, nread) && |r.url| == URL_SIZE && r.status in {Version, RequestHead}
    requires i < nread && buf[i] == '\r'
    ensures i + 1 == |buf| ==> Rest(buf, nread, At(r, i, begin)) == Failed
    ensures i + 1 < |buf| && buf[i + 1] != '\n' ==>
      Rest(buf, nread, At(r, i, begin)) == Rest(buf, nread, At(r, i + 2, begin))
  {
    hide ScanFrom;
    if i + 1 < |buf| && buf[i + 1] != '\n' {
      ScanStep(r, buf, nread, i, begin, At(r, i + 2, begin));
    } else if i + 1 == |buf| {
      ScanFault(r, buf, nread, i, begin);
    }
  }

  lemma ScanFault(r: Request, buf: string, nread: nat, i: nat, begin: nat)
    requires Holds(buf, nread) && InToken(r, i, begin) && i < nread && Iterate(r, buf, nread, i, begin).Fault?
    ensures Rest(buf, nread, At(r, i, begin)) == Failed
  {
  }

  /** A version v CR c w, where c is not a line feed, is read on to the line end behind
      w. */
  lemma VersionWithCarriageReturn(r: Request, buf: string, nread: nat, i: nat, v: string, w: string)
    requires Holds(buf, nread) && |r.url| == URL_SIZE && r.status == Version
    requires Without(v, '\r') && Without(w, '\r') && i + |v| + 2 + |w| + 2 <= nread
    requires var a := i + |v|; var e := a + 2 + |w|;
      && buf[i..a] == v && buf[a] == '\r' && buf[a + 1] != '\n'
      && buf[a + 2..e] == w && buf[e] == '\r' && buf[e + 1] == '\n'
    ensures var next := i + |v| + 2 + |w| + 2;
      Rest(buf, nread, At(r, i, i)) == Rest(buf, nread, At(r.(status := RequestHead), next, next))
  {
    var a := i + |v|;
    var b := a + 2;
    hide ScanFrom, Rest;
    SliceWithout(buf, i, |v|, '\r');
    Skip(r, buf, nread, i, a, i);
    LoneCarriageReturn(r, buf, nread, a, i);
    SliceWithout(buf, b, |w|, '\r');
    Skip(r, buf, nread, b, b + |w|, i);
    ScanStep(r, buf, nread, b + |w|, i, At(r.(status := RequestHead), b + |w| + 2, b + |w| + 2));
  }

  /** A header line that begins with a carriage return, without line feed behind it: the
      look-ahead stops before it, and it swallows the next byte. */
  lemma HeaderWithCarriageReturn(r: Request, buf: string, nread: nat, i: nat, begin: nat)
    requires Holds(buf, nread) && |r.url| == URL_SIZE && r.status == RequestHead && i + 3 < nread
    requires buf[i] == '\r' && buf[i + 1] == '\n' && buf[i + 2] == '\r' && buf[i + 3] != '\n'
    ensures Rest(buf, nread, At(r, i, begin)) == Rest(buf, nread, At(r, i + 4, i + 3))
  {
    hide ScanFrom, Rest;
    ScanStep(r, buf, nread, i, begin, At(r, i + 2, i + 3));
    LoneCarriageReturn(r, buf, nread, i + 2, i + 3);
  }

  // ------------------------------------------------------- out of the arrays

  /** The URL is copied into 64 bytes: a request is parsed if and only if it fits. */
  lemma UrlFitsIff(token: string, url: string, version: string, headers: seq<string>, stale: string)
    requires Without(token, ' ') && Without(url, ' ') && Without(version, '\r') && headers != []
    requires forall h :: 0 <= h < |headers| ==> HeaderLine(headers[h])
    ensures var head := Head(token, url, version, headers);
      Parse(Fresh(), head + stale, |head|).Ok? <==> |url| <= URL_SIZE
  {
    var head := Head(token, url, version, headers);
    if |url| <= URL_SIZE {
      RequestRoundTrip(token, url, version, headers, stale);
    } else {
      LongUrl(token, url, version, headers, stale);
    }
  }

  lemma LongUrl(token: string, url: string, version: string, headers: seq<string>, stale: string)
    requires Without(token, ' ') && Without(url, ' ') && URL_SIZE < |url|
    ensures var head := Head(token, url, version, headers); Parse(Fresh(), head + stale, |head|) == Failed
  {
    var head := Head(token, url, version, headers);
    var buf, n, u := head + stale, |head|, |token| + 1;
    Layout(token, url, version, headers, buf, stale);
    assert TokenAndUrl(buf, token, url) && u + |url| < n && 4 <= |buf|;
    hide Head, Lines, ProtoAndVersion, MethodOf, Rest, ScanFrom, Parse;
    ReadToken(buf, n, |token|);
    CopyFault(Fresh().(methd := MethodOf(buf), status := Url), buf, n, u, |url|);
  }

  lemma CopyFault(r: Request, buf: string, nread: nat, i: nat, n: nat)
    requires Holds(buf, nread) && |r.url| == URL_SIZE && r.status == Url && URL_SIZE < n && i + n < nread
    requires Without(buf[i..i + n], ' ') && buf[i + n] == ' '
    ensures Rest(buf, nread, At(r, i, i)) == Failed
  {
    hide ScanFrom, Rest;
    SliceWithout(buf, i, n, ' ');
    Skip(r, buf, nread, i, i + n, i);
    ScanFault(r, buf, nread, i + n, i);
  }

  /** A body, with the line feed in front of it, is copied into 128 bytes and cut into
      pieces: the request is parsed if and only if it fits and every piece has a value. */
  lemma BodyFitsIff(token: string, url: string, version: string, headers: seq<string>, body: string, stale: string)
    requires WellFormed(token, url, version, headers) && headers != [] && body != ""
    requires Find(body, '\0') == |body| && stale != "" && stale[0] == '\0'
    ensures var head := Head(token, url, version, headers);
      Parse(Fresh(), head + body + stale, |head| + |body|).Ok? <==>
        |body| + 1 <= 128 && AddParams(map[], "\n" + body).Some?
  {
    hide *;
    if |body| < 128 && AddParams(map[], "\n" + body).Some? {
      ReadRequestWithBody(token, url, version, headers, body, stale);
    } else {
      UnfitBody(token, url, version, headers, body, stale);
    }
  }

  lemma UnfitBody(token: string, url: string, version: string, headers: seq<string>, body: string, stale: string)
    requires WellFormed(token, url, version, headers) && headers != [] && body != ""
    requires Find(body, '\0') == |body| && stale != "" && stale[0] == '\0'
    requires 128 <= |body| || AddParams(map[], "\n" + body).None?
    ensures var head := Head(token, url, version, headers);
      Parse(Fresh(), head + body + stale, |head| + |body|) == Failed
  {
    var head := Head(token, url, version, headers);
    var buf, n, m := head + body + stale, |head| + |body|, |head|;
    hide Head, Parse, Rest, MethodOf, AddParams, Fresh, Find, WellFormed, AfterLine;
    ReadHeadOfBody(token, url, version, headers, body, stale);
    AfterLineFacts(buf, url);
    BodyFaults(AfterLine(buf, url).(status := Content), buf, n, m, body);
  }

  lemma BodyFaults(r: Request, buf: string, nread: nat, m: nat, body: string)
    requires Holds(buf, nread) && |r.url| == URL_SIZE && r.status == Content && r.params == map[] && 2 <= m < nread
    requires buf[m - 2..m] == "\r\n" && nread == m + |body| < |buf| && buf[m..nread] == body && buf[nread] == '\0'
    requires Find(body, '\0') == |body| && (128 <= |body| || AddParams(map[], "\n" + body).None?)
    ensures Rest(buf, nread, At(r, m - 2, m - 1)) == Failed
  {
    BodyString(buf, nread, m, body);
    hide AddParams, Find, ScanFrom, Rest;
    ScanFault(r, buf, nread, m - 2, m - 1);
  }
}
