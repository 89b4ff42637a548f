/**
 Parsing a request that was printed according to the grammar of sections 2.1 and 3
 of RFC 9112 and arrives in one read.
 */
module RequestText {
  import opened Options
  import opened HttpParams
  import opened HttpRequest

  predicate Without(s: string, c: char) {
    forall k :: 0 <= k < |s| ==> s[k] != c
  }

  /** The header lines and the empty line. */
  function Lines(headers: seq<string>): (s: string)
    ensures 2 <= |s|
  {
    if headers == [] then "\r\n" else headers[0] + "\r\n" + Lines(headers[1..])
  }

  /** Request line, header lines and the empty line. */
  function Head(token: string, url: string, version: string, headers: seq<string>): string {
    token + (" " + (url + (" " + Back(version, Lines(headers)))))
  }

  predicate HeaderLine(h: string) {
    h != "" && Without(h, '\r')
  }

  predicate WellFormed(token: string, url: string, version: string, headers: seq<string>) {
    && Without(token, ' ') && Without(url, ' ') && |url| <= URL_SIZE && Without(version, '\r')
    && forall h :: 0 <= h < |headers| ==> HeaderLine(headers[h])
  }

  // ---------------------------------------------------------- single tokens

  /** What the loop makes of the rest of the input from a point on. */
  function Rest(buf: string, nread: nat, p: Point): Outcome {
    if p.At? && Holds(buf, nread) && InToken(p.r, p.i, p.begin)
      then ScanFrom(p.r, buf, nread, p.i, p.begin)
      else Failed
  }

  /** The character that ends the token of a state. */
  function Delimiter(s: Status): char
    requires s in {Methord, Url, Proto, Version, RequestHead}
  {
    match s
    case Methord => ' '
    case Url => ' '
    case Proto => '/'
    case _ => '\r'
  }

  /** Bytes that do not end the token leave everything but the cursor alone. */
  lemma {:induction false} Skip(r: Request, buf: string, nread: nat, i: nat, j: nat, begin: nat)
    requires Holds(buf, nread) && InToken(r, i, begin) && i <= j <= nread
    requires r.status in {Methord, Url, Proto, Version, RequestHead}
    requires forall k :: i <= k < j ==> buf[k] != Delimiter(r.status)
    ensures InToken(r, j, begin) && Rest(buf, nread, At(r, i, begin)) == Rest(buf, nread, At(r, j, begin))
    decreases j - i
  {
    if i < j {
      ScanStep(r, buf, nread, i, begin, At(r, i + 1, begin));
      hide ScanFrom, Rest;
      Skip(r, buf, nread, i + 1, j, begin);
    }
  }

  lemma ScanStep(r: Request, buf: string, nread: nat, i: nat, begin: nat, p: Point)
    requires Holds(buf, nread) && InToken(r, i, begin) && i < nread && p == Iterate(r, buf, nread, i, begin) && p.At?
    ensures Rest(buf, nread, At(r, i, begin)) == Rest(buf, nread, p)
  {
  }

  lemma SliceWithout(buf: string, i: nat, n: nat, c: char)
    requires i + n <= |buf| && Without(buf[i..i + n], c)
    ensures forall k :: i <= k < i + n ==> buf[k] != c
  {
    assert forall k :: i <= k < i + n ==> buf[i..i + n][k - i] == buf[k];
  }

  /** The method found by the two comparisons at the start of the buffer. */
  function MethodOf(buf: string): Option<Method>
    requires 4 <= |buf|
  {
    if StartsWith(buf, 0, "GET") then Some(GET)
    else if StartsWith(buf, 0, "POST") then Some(POST)
    else None
  }

  lemma ReadToken(buf: string, nread: nat, n: nat)
    requires Holds(buf, nread) && 4 <= |buf| && n < nread && Without(buf[..n], ' ') && buf[n] == ' '
    ensures Parse(Fresh(), buf, nread) ==
      Rest(buf, nread, At(Fresh().(methd := MethodOf(buf), status := Url), n + 1, n + 1))
  {
    var r := Fresh().(status := Methord);
    assert Iterate(Fresh(), buf, nread, 0, 0) == Iterate(r, buf, nread, 0, 0);
    assert Rest(buf, nread, At(Fresh(), 0, 0)) == Rest(buf, nread, At(r, 0, 0));
    assert buf[0..0 + n] == buf[..n];
    hide ScanFrom, Rest;
    SliceWithout(buf, 0, n, ' ');
    Skip(r, buf, nread, 0, n, 0);
    ScanStep(r, buf, nread, n, 0, At(r.(methd := MethodOf(buf), status := Url), n + 1, n + 1));
  }

  lemma ReadUrl(r: Request, buf: string, nread: nat, i: nat, n: nat)
    requires Holds(buf, nread) && |r.url| == URL_SIZE && r.status == Url && n <= URL_SIZE && i + n < nread
    requires Without(buf[i..i + n], ' ') && buf[i + n] == ' '
    ensures Rest(buf, nread, At(r, i, i)) ==
      Rest(buf, nread, At(r.(url := buf[i..i + n] + r.url[n..], status := Proto), i + n + 1, i + n + 1))
  {
    hide ScanFrom, Rest;
    SliceWithout(buf, i, n, ' ');
    Skip(r, buf, nread, i, i + n, i);
    ScanStep(r, buf, nread, i + n, i, At(r.(url := buf[i..i + n] + r.url[n..], status := Proto), i + n + 1, i + n + 1));
  }

  lemma ReadProto(r: Request, buf: string, nread: nat, i: nat)
    requires Holds(buf, nread) && |r.url| == URL_SIZE && r.status == Proto && i + 4 < nread
    requires buf[i..i + 4] == "HTTP" && buf[i + 4] == '/'
    ensures Rest(buf, nread, At(r, i, i)) ==
      Rest(buf, nread, At(r.(proto := Some(HTTP), status := Version), i + 5, i + 5))
  {
    hide ScanFrom, Rest;
    SliceWithout(buf, i, 4, '/');
    Skip(r, buf, nread, i, i + 4, i);
    ScanStep(r, buf, nread, i + 4, i, At(r.(proto := Some(HTTP), status := Version), i + 5, i + 5));
  }

  lemma ReadVersion(r: Request, buf: string, nread: nat, i: nat, n: nat)
    requires Holds(buf, nread) && |r.url| == URL_SIZE && r.status == Version && i + n + 1 < nread
    requires Without(buf[i..i + n], '\r') && buf[i + n] == '\r' && buf[i + n + 1] == '\n'
    ensures Rest(buf, nread, At(r, i, i)) ==
      Rest(buf, nread, At(r.(status := RequestHead), i + n + 2, i + n + 2))
  {
    hide ScanFrom, Rest;
    SliceWithout(buf, i, n, '\r');
    Skip(r, buf, nread, i, i + n, i);
    ScanStep(r, buf, nread, i + n, i, At(r.(status := RequestHead), i + n + 2, i + n + 2));
  }

  // ----------------------------------------------------------- header lines

  /** One header line that is followed by another one. */
  lemma ReadHeader(r: Request, buf: string, nread: nat, i: nat, n: nat, begin: nat)
    requires Holds(buf, nread) && |r.url| == URL_SIZE && r.status == RequestHead && i + n + 2 < nread
    requires Without(buf[i..i + n], '\r') && buf[i + n] == '\r' && buf[i + n + 1] == '\n' && buf[i + n + 2] != '\r'
    ensures Rest(buf, nread, At(r, i, begin)) == Rest(buf, nread, At(r, i + n + 2, i + n + 2))
  {
    hide ScanFrom, Rest;
    SliceWithout(buf, i, n, '\r');
    Skip(r, buf, nread, i, i + n, begin);
    ScanStep(r, buf, nread, i + n, begin, At(r, i + n + 2, i + n + 2));
  }

  /** The last header line: the look-ahead recognises the empty line, and the
      request is finished if nothing follows it. */
  lemma ReadLastHeader(r: Request, buf: string, nread: nat, i: nat, n: nat, begin: nat)
    requires Holds(buf, nread) && |r.url| == URL_SIZE && r.status == RequestHead && i + n + 3 < nread
    requires Without(buf[i..i + n], '\r')
    requires buf[i + n] == '\r' && buf[i + n + 1] == '\n' && buf[i + n + 2] == '\r' && buf[i + n + 3] == '\n'
    ensures Rest(buf, nread, At(r, i, begin)) ==
      Rest(buf, nread, At(r.(status := if i + n + 4 == nread then Finish else Content), i + n + 2, i + n + 3))
  {
    hide ScanFrom, Rest;
    SliceWithout(buf, i, n, '\r');
    Skip(r, buf, nread, i, i + n, begin);
    var r' := r.(status := if i + n + 4 == nread then Finish else Content);
    ScanStep(r, buf, nread, i + n, begin, At(r', i + n + 2, i + n + 3));
  }

  /** Lines that may follow the position at which the machine reads a header: the first
      one may be the rest of a line, and empty. */
  predicate RestOfLines(headers: seq<string>) {
    headers != [] && Without(headers[0], '\r') && forall h :: 1 <= h < |headers| ==> HeaderLine(headers[h])
  }

  lemma WholeLines(headers: seq<string>)
    requires headers != [] && forall h :: 0 <= h < |headers| ==> HeaderLine(headers[h])
    ensures RestOfLines(headers)
  {
    assert HeaderLine(headers[0]);
  }

  /** All header lines and the empty line; body is what follows in the buffer. */
  lemma {:induction false} ReadHeaders(r: Request, buf: string, nread: nat, i: nat, begin: nat,
                                       headers: seq<string>, end: nat)
    requires Holds(buf, nread) && |r.url| == URL_SIZE && r.status == RequestHead
    requires RestOfLines(headers)
    requires i <= end <= nread && buf[i..end] == Lines(headers)
    ensures i + 2 <= end
    ensures Rest(buf, nread, At(r, i, begin)) ==
      Rest(buf, nread, At(r.(status := if end == nread then Finish else Content), end - 2, end - 1))
    decreases |headers|
  {
    var h := headers[0];
    if |headers| == 1 {
      assert Lines(headers) == h + "\r\n" + "\r\n";
      hide ScanFrom, Rest, Without, Lines;
      OnlyLine(r, buf, nread, i, begin, h, end);
    } else {
      NextLine(headers[1..]);
      assert forall k :: 0 <= k < |headers[1..]| ==> headers[1..][k] == headers[k + 1];
      assert Lines(headers) == h + "\r\n" + Lines(headers[1..]);
      hide ScanFrom, Rest, Without, Lines;
      OneLine(r, buf, nread, i, begin, h, Lines(headers[1..]), end);
      ReadHeaders(r, buf, nread, i + |h| + 2, i + |h| + 2, headers[1..], end);
    }
  }

  /** Header lines and empty line up to the end of the input. */
  lemma HeadersToFinish(r: Request, buf: string, n: nat, i: nat, begin: nat, headers: seq<string>)
    requires Holds(buf, n) && |r.url| == URL_SIZE && r.status == RequestHead && RestOfLines(headers)
    requires i <= n && buf[i..n] == Lines(headers)
    ensures Rest(buf, n, At(r, i, begin)) == Ok(r.(status := Finish))
  {
    hide ScanFrom, Rest, Lines, RestOfLines;
    ReadHeaders(r, buf, n, i, begin, headers, n);
    FinishIsAbsorbing(r.(status := Finish), buf, n, n - 2, n - 1);
    AtFinish(r.(status := Finish), buf, n, n - 2, n - 1);
  }

  lemma OneLine(r: Request, buf: string, nread: nat, i: nat, begin: nat, h: string, rest: string, end: nat)
    requires Holds(buf, nread) && |r.url| == URL_SIZE && r.status == RequestHead && Without(h, '\r')
    requires i <= end <= nread && buf[i..end] == h + "\r\n" + rest && rest != "" && rest[0] != '\r'
    ensures var next := i + |h| + 2;
      && next <= end && buf[next..end] == rest
      && Rest(buf, nread, At(r, i, begin)) == Rest(buf, nread, At(r, next, next))
  {
    CutLine(buf, i, end, h, rest);
    assert Without(buf[i..i + |h|], '\r');
    hide Rest, Without;
    ReadHeader(r, buf, nread, i, |h|, begin);
  }

  lemma OnlyLine(r: Request, buf: string, nread: nat, i: nat, begin: nat, h: string, end: nat)
    requires Holds(buf, nread) && |r.url| == URL_SIZE && r.status == RequestHead && Without(h, '\r')
    requires i <= end <= nread && buf[i..end] == h + "\r\n" + "\r\n"
    ensures i + |h| + 4 == end
    ensures Rest(buf, nread, At(r, i, begin)) ==
      Rest(buf, nread, At(r.(status := if end == nread then Finish else Content), end - 2, end - 1))
  {
    CutLine(buf, i, end, h, "\r\n");
    assert |buf[i..end]| == |h| + 4;
    assert Without(buf[i..i + |h|], '\r');
    hide Rest, Without;
    ReadLastHeader(r, buf, nread, i, |h|, begin);
  }

  /** A header line does not look like the empty line. */
  lemma NextLine(headers: seq<string>)
    requires headers != [] && HeaderLine(headers[0])
    ensures Lines(headers)[0] != '\r'
  {
    assert Lines(headers)[0] == headers[0][0];
  }

  /** A line at the front of a stretch of the buffer. */
  lemma CutLine(buf: string, i: nat, end: nat, line: string, rest: string)
    requires i <= end <= |buf| && buf[i..end] == line + "\r\n" + rest
    ensures var n := |line|;
      && i + n + 2 <= end && buf[i..i + n] == line
      && buf[i + n] == '\r' && buf[i + n + 1] == '\n' && buf[i + n + 2..end] == rest
      && (|rest| > 0 ==> i + n + 2 < end && buf[i + n + 2] == rest[0])
      && (|rest| > 1 ==> i + n + 3 < end && buf[i + n + 3] == rest[1])
  {
    var n, s := |line|, buf[i..end];
    assert buf[i..i + n] == s[..n];
    assert buf[i + n] == s[n] && buf[i + n + 1] == s[n + 1];
    assert buf[i + n + 2..end] == s[n + 2..];
    if |rest| > 0 { assert buf[i + n + 2] == s[n + 2] == rest[0]; }
    if |rest| > 1 { assert buf[i + n + 3] == s[n + 3] == rest[1]; }
  }

  // ------------------------------------------------------- whole requests

  lemma CutFront(buf: string, i: nat, front: string, rest: string, extra: string)
    requires i <= |buf| && buf[i..] == front + rest + extra
    ensures i + |front| <= |buf| && buf[i..i + |front|] == front && buf[i + |front|..] == rest + extra
    ensures |front| > 0 ==> buf[i] == front[0]
    ensures |front| > 1 ==> buf[i + 1] == front[1]
  {
    var s := buf[i..];
    assert s[..|front|] == front && s[|front|..] == rest + extra;
    assert buf[i..i + |front|] == s[..|front|] && buf[i + |front|..] == s[|front|..];
    if |front| > 0 { assert buf[i] == s[0]; }
    if |front| > 1 { assert buf[i + 1] == s[1]; }
  }

  /** Method token and URL, each followed by a space, at the front of the buffer. */
  predicate TokenAndUrl(buf: string, token: string, url: string) {
    var a := |token|; var b := a + 1 + |url|;
    && b < |buf| && buf[..a] == token && buf[a] == ' ' && buf[a + 1..a + 1 + |url|] == url && buf[b] == ' '
  }

  /** Protocol and version, ended by a line break, at position i. */
  predicate ProtoAndVersion(buf: string, i: nat, version: string) {
    var n := |version|;
    && i + 5 + n + 1 < |buf| && buf[i..i + 4] == "HTTP" && buf[i + 4] == '/'
    && buf[i + 5..i + 5 + n] == version && buf[i + 5 + n] == '\r' && buf[i + 5 + n + 1] == '\n'
  }

  /** Protocol, version, line break, and the lines after that. */
  function Back(version: string, lines: string): string {
    "HTTP" + ("/" + (version + ("\r\n" + lines)))
  }

  lemma LayoutFront(token: string, url: string, back: string, buf: string, extra: string)
    requires buf == token + (" " + (url + (" " + back))) + extra
    ensures var i := |token| + |url| + 2;
      i <= |buf| && TokenAndUrl(buf, token, url) && buf[i..] == back + extra
  {
    var a := |token|;
    assert buf[0..] == buf;
    CutFront(buf, 0, token, " " + (url + (" " + back)), extra);
    CutFront(buf, a, " ", url + (" " + back), extra);
    CutFront(buf, a + 1, url, " " + back, extra);
    CutFront(buf, a + 1 + |url|, " ", back, extra);
  }

  lemma LayoutBack(version: string, lines: string, buf: string, i: nat, extra: string)
    requires i <= |buf| && buf[i..] == Back(version, lines) + extra
    ensures var c := i + 7 + |version|;
      c <= |buf| && ProtoAndVersion(buf, i, version) && buf[c..] == lines + extra
  {
    var n, s1 := |version|, "\r\n" + lines;
    CutFront(buf, i, "HTTP", "/" + (version + s1), extra);
    CutFront(buf, i + 4, "/", version + s1, extra);
    CutFront(buf, i + 5, version, s1, extra);
    CutFront(buf, i + 5 + n, "\r\n", lines, extra);
  }

  /** Where the pieces of a printed request lie in a buffer that starts with it. */
  lemma Layout(token: string, url: string, version: string, headers: seq<string>, buf: string, extra: string)
    requires buf == Head(token, url, version, headers) + extra
    ensures var i := |token| + |url| + 2; var c := i + 7 + |version|;
      && c + |Lines(headers)| == |Head(token, url, version, headers)| <= |buf|
      && TokenAndUrl(buf, token, url) && ProtoAndVersion(buf, i, version)
      && buf[c..] == Lines(headers) + extra
  {
    hide Lines, TokenAndUrl, ProtoAndVersion;
    LayoutFront(token, url, Back(version, Lines(headers)), buf, extra);
    LayoutBack(version, Lines(headers), buf, |token| + |url| + 2, extra);
  }

  /** The request after its request line. */
  function AfterLine(buf: string, url: string): Request
    requires 4 <= |buf| && |url| <= URL_SIZE
  {
    Request(RequestHead, MethodOf(buf), Some(HTTP), url + Fresh().url[|url|..], map[])
  }

  lemma AfterLineFacts(buf: string, url: string)
    requires 4 <= |buf| && |url| <= URL_SIZE
    ensures var r := AfterLine(buf, url);
      && r.status == RequestHead && |r.url| == URL_SIZE && r.methd == MethodOf(buf) && r.proto == Some(HTTP)
      && r.url == url + Fresh().url[|url|..] && r.params == map[]
  {
  }

  lemma ReadTokenAndUrl(token: string, url: string, buf: string, nread: nat)
    requires Without(token, ' ') && Without(url, ' ') && |url| <= URL_SIZE && Holds(buf, nread) && 4 <= |buf|
    requires TokenAndUrl(buf, token, url) && |token| + 1 + |url| < nread
    ensures var i := |token| + |url| + 2;
      Parse(Fresh(), buf, nread) ==
      Rest(buf, nread, At(Request(Proto, MethodOf(buf), None, url + Fresh().url[|url|..], map[]), i, i))
  {
    hide ScanFrom, Rest, Without, Parse, MethodOf;
    ReadToken(buf, nread, |token|);
    ReadUrl(Fresh().(methd := MethodOf(buf), status := Url), buf, nread, |token| + 1, |url|);
  }

  lemma ReadProtoAndVersion(r: Request, version: string, buf: string, nread: nat, i: nat)
    requires |r.url| == URL_SIZE && r.status == Proto && Without(version, '\r') && Holds(buf, nread)
    requires ProtoAndVersion(buf, i, version) && i + 5 + |version| + 1 < nread
    ensures var c := i + 7 + |version|;
      Rest(buf, nread, At(r, i, i)) ==
      Rest(buf, nread, At(r.(proto := Some(HTTP), status := RequestHead), c, c))
  {
    hide ScanFrom, Rest, Without;
    ReadProto(r, buf, nread, i);
    ReadVersion(r.(proto := Some(HTTP), status := Version), buf, nread, i + 5, |version|);
  }

  lemma ReadRequestLine(token: string, url: string, version: string, headers: seq<string>,
                        buf: string, nread: nat, extra: string)
    requires WellFormed(token, url, version, headers) && Holds(buf, nread)
    requires buf == Head(token, url, version, headers) + extra && |Head(token, url, version, headers)| <= nread
    ensures var i := |token| + |url| + |version| + 9;
      && i + |Lines(headers)| == |Head(token, url, version, headers)|
      && i <= nread && buf[i..] == Lines(headers) + extra
      && Parse(Fresh(), buf, nread) == Rest(buf, nread, At(AfterLine(buf, url), i, i))
  {
    Layout(token, url, version, headers, buf, extra);
    var i := |token| + |url| + 2;
    var r := Request(Proto, MethodOf(buf), None, url + Fresh().url[|url|..], map[]);
    hide ScanFrom, Rest, Without, Lines, Head, MethodOf, Parse, TokenAndUrl, ProtoAndVersion;
    ReadTokenAndUrl(token, url, buf, nread);
    ReadProtoAndVersion(r, version, buf, nread, i);
  }

  /** The two bytes behind a line break that the look-ahead may touch are there. */
  predicate LookAheadInside(stale: string) {
    stale != "" && (stale[0] == '\r' ==> 1 < |stale|)
  }

  /** Round trip: a printed request that arrives in one read is parsed into the method
      that the two comparisons find at its start, its URL and its protocol, whatever
      stale bytes follow it in the buffer; and it is recognised as finished exactly
      when it has a header line. Only without header lines the look-ahead needs stale
      bytes. */
  lemma RequestRoundTrip(token: string, url: string, version: string, headers: seq<string>, stale: string)
    requires WellFormed(token, url, version, headers)
    ensures var head := Head(token, url, version, headers); var buf := head + stale;
      var o := Parse(Fresh(), buf, |head|);
      && 4 <= |buf| && (o.Ok? <==> headers != [] || LookAheadInside(stale))
      && (o.Ok? ==>
          && o.r.methd == MethodOf(buf) && o.r.proto == Some(HTTP)
          && o.r.url == url + Fresh().url[|url|..] && o.r.params == map[]
          && (o.r.status == Finish <==> headers != []))
  {
    var head := Head(token, url, version, headers);
    var buf, n := head + stale, |head|;
    ReadRequestLine(token, url, version, headers, buf, n, stale);
    WellFormedHeaders(token, url, version, headers);
    AfterLineFacts(buf, url);
    hide Head, MethodOf, Parse, ScanFrom, Rest, WellFormed, HeaderLine, AfterLine, Fresh;
    var i, r := |token| + |url| + |version| + 9, AfterLine(buf, url);
    FrontOf(buf, i, n, Lines(headers), stale);
    if headers != [] {
      hide Lines;
      HeadersToFinish(r, buf, n, i, i, headers);
    } else {
      NoHeader(r, buf, n, i);
      assert buf[n..] == stale;
    }
  }

  lemma AtFinish(r: Request, buf: string, nread: nat, i: nat, begin: nat)
    requires Holds(buf, nread) && InToken(r, i, begin) && ScanFrom(r, buf, nread, i, begin) == Ok(r)
    ensures Rest(buf, nread, At(r, i, begin)) == Ok(r)
  {
  }

  lemma FrontOf(buf: string, i: nat, n: nat, front: string, extra: string)
    requires i <= |buf| && buf[i..] == front + extra && n == i + |front|
    ensures n <= |buf| && buf[i..n] == front
  {
    assert buf[i..n] == buf[i..][..n - i];
  }

  /** Without a header line the empty line is taken for the end of one, and the
      look-ahead behind it cannot reach FINISH. */
  lemma NoHeader(r: Request, buf: string, nread: nat, i: nat)
    requires Holds(buf, nread) && |r.url| == URL_SIZE && r.status == RequestHead && i + 2 == nread
    requires buf[i..nread] == "\r\n"
    ensures var o := Rest(buf, nread, At(r, i, i));
      && (o.Ok? <==> LookAheadInside(buf[nread..]))
      && (o.Ok? ==> o.r.status in {RequestHead, Content} && o.r == r.(status := o.r.status))
  {
    assert buf[i] == buf[i..nread][0] && buf[i + 1] == buf[i..nread][1];
    var p := Iterate(r, buf, nread, i, i);
    if p.At? {
      assert p.i == nread && Rest(buf, nread, At(p.r, p.i, p.begin)) == Ok(p.r);
    }
  }

  function Name(m: Method): string {
    match m
    case GET => "GET"
    case POST => "POST"
  }

  /** The two methods the parser knows are recognised. */
  lemma KnownMethodRoundTrip(m: Method, url: string, version: string, headers: seq<string>, stale: string)
    requires WellFormed(Name(m), url, version, headers) && headers != []
    ensures var head := Head(Name(m), url, version, headers);
      var o := Parse(Fresh(), head + stale, |head|);
      && o.Ok? && o.r.status == Finish && o.r.methd == Some(m) && o.r.proto == Some(HTTP)
      && o.r.url[..|url|] == url && (forall k :: |url| <= k < URL_SIZE ==> o.r.url[k] == '\0')
  {
    var head := Head(Name(m), url, version, headers);
    var buf := head + stale;
    RequestRoundTrip(Name(m), url, version, headers, stale);
    Layout(Name(m), url, version, headers, buf, stale);
    assert buf[0..|Name(m)|] == Name(m);
    if m == POST {
      assert buf[0] == 'P';
      assert buf[0..3][0] == buf[0];
    }
  }

  // ------------------------------------------------------------- the body

  /** What precedes the body in the string handed to get_params: the line feed of
      the empty line. */
  lemma ReadBody(r: Request, buf: string, nread: nat, m: nat, body: string)
    requires Holds(buf, nread) && |r.url| == URL_SIZE && r.status == Content && 2 <= m < nread && nread - m < 128
    requires buf[m - 2..m] == "\r\n" && nread == m + |body| < |buf| && buf[m..nread] == body && buf[nread] == '\0'
    requires Find(body, '\0') == |body|
    requires AddParams(r.params, "\n" + body).Some?
    ensures Rest(buf, nread, At(r, m - 2, m - 1)) ==
      Ok(r.(params := AddParams(r.params, "\n" + body).value, status := Finish))
  {
    BodyString(buf, nread, m, body);
    hide AddParams, Find;
    var r' := r.(params := AddParams(r.params, "\n" + body).value, status := Finish);
    assert Iterate(r, buf, nread, m - 2, m - 1) == At(r', m - 1, m - 1);
    FinishIsAbsorbing(r', buf, nread, m - 1, m - 1);
  }

  lemma BodyString(buf: string, nread: nat, m: nat, body: string)
    requires nread < |buf| && 2 <= m <= nread && buf[m - 2..m] == "\r\n"
    requires nread == m + |body| && buf[m..nread] == body && buf[nread] == '\0' && Find(body, '\0') == |body|
    ensures buf[m - 2] == '\r' && CString(buf[m - 1..]) == "\n" + body && Terminated(buf[m - 1..])
  {
    assert buf[m - 2] == buf[m - 2..m][0] && buf[m - 1] == buf[m - 2..m][1];
    var s := buf[m - 1..];
    assert s == [buf[m - 1]] + buf[m..nread] + buf[nread..];
    assert forall k :: 0 <= k < |body| ==> s[k + 1] == body[k];
    FindAt(s, '\0', 1 + |body|);
  }

  /** The list whose first key has a line feed in front of it. */
  function WithLineFeed(kvs: seq<Pair>): (ls: seq<Pair>)
    requires kvs != []
    ensures |ls| == |kvs|
  {
    [Pair("\n" + kvs[0].key, kvs[0].value)] + kvs[1..]
  }

  lemma LineFeedJoins(kvs: seq<Pair>)
    requires kvs != [] && AllClean(kvs)
    ensures AllClean(WithLineFeed(kvs)) && Join(WithLineFeed(kvs)) == "\n" + Join(kvs)
  {
    var ls := WithLineFeed(kvs);
    assert ls[1..] == kvs[1..];
    assert Piece(ls[0]) == "\n" + Piece(kvs[0]);
    assert Clean(kvs[0]);
    assert Clean(ls[0]) by {
      assert forall k :: 0 <= k < |ls[0].key| ==> ls[0].key[k] == if k == 0 then '\n' else kvs[0].key[k - 1];
    }
    if |kvs| > 1 {
      assert "\n" + (Piece(kvs[0]) + "&" + Join(kvs[1..])) == ("\n" + Piece(kvs[0])) + "&" + Join(kvs[1..]);
    }
  }

  /** Later pairs bind the first key, and the first key with a line feed in front of
      it, to the value of the first pair. */
  predicate FirstKeyRebound(kvs: seq<Pair>)
    requires kvs != []
  {
    var f, k, v := FirstBindings(kvs[1..]), kvs[0].key, kvs[0].value;
    k in f && f[k] == v && "\n" + k in f && f["\n" + k] == v
  }

  lemma UpdatesAgree(f: map<string, string>, k: string, l: string, v: string)
    requires k != l
    ensures f[l := v] == f[k := v] <==> k in f && f[k] == v && l in f && f[l] == v
  {
    if f[l := v] == f[k := v] {
      assert k in f[k := v] && l in f[l := v] && f[k := v][k] == v && f[l := v][l] == v;
    }
  }

  /** The line feed in front of the first key does not change the bindings exactly
      when later pairs make up for it. */
  lemma LineFeedHarmlessIff(kvs: seq<Pair>)
    requires kvs != []
    ensures FirstBindings(WithLineFeed(kvs)) == FirstBindings(kvs) <==> FirstKeyRebound(kvs)
  {
    var k := kvs[0].key;
    assert WithLineFeed(kvs)[1..] == kvs[1..];
    assert |"\n" + k| == |k| + 1;
    UpdatesAgree(FirstBindings(kvs[1..]), k, "\n" + k, kvs[0].value);
  }

  lemma {:induction false} UnboundKey(kvs: seq<Pair>, k: string)
    requires forall a :: 0 <= a < |kvs| ==> kvs[a].key != k
    ensures k !in FirstBindings(kvs)
  {
    if kvs != [] {
      assert forall a :: 0 <= a < |kvs[1..]| ==> kvs[1..][a] == kvs[a + 1];
      UnboundKey(kvs[1..], k);
    }
  }

  /** No key has a line feed in it. */
  predicate KeysOfOneLine(kvs: seq<Pair>) {
    forall a :: 0 <= a < |kvs| ==> Without(kvs[a].key, '\n')
  }

  lemma OneLineNeverRebound(kvs: seq<Pair>)
    requires kvs != [] && KeysOfOneLine(kvs)
    ensures !FirstKeyRebound(kvs)
  {
    var l := "\n" + kvs[0].key;
    assert l[0] == '\n';
    forall a | 0 <= a < |kvs[1..]| ensures kvs[1..][a].key != l {
      assert kvs[1..][a] == kvs[a + 1] && Without(kvs[a + 1].key, '\n');
    }
    UnboundKey(kvs[1..], l);
  }

  /** A request with a body of parameters, in one read: the parameters are the first
      bindings of the list with a line feed in front of the first key. They are the
      first bindings of the list itself if and only if later pairs make up for that,
      which they never do when no key contains a line feed. */
  lemma BodyRoundTrip(token: string, url: string, version: string, headers: seq<string>,
                      kvs: seq<Pair>, stale: string)
    requires WellFormed(token, url, version, headers) && headers != []
    requires kvs != [] && AllClean(kvs) && Without(Join(kvs), '\0') && |Join(kvs)| < 128
    requires stale != "" && stale[0] == '\0'
    ensures var head := Head(token, url, version, headers);
      var o := Parse(Fresh(), head + Join(kvs) + stale, |head| + |Join(kvs)|);
      && o.Ok? && o.r.status == Finish && o.r.params == FirstBindings(WithLineFeed(kvs))
      && (o.r.params == FirstBindings(kvs) <==> FirstKeyRebound(kvs))
      && (KeysOfOneLine(kvs) ==> o.r.params != FirstBindings(kvs))
      && o.r.url == url + Fresh().url[|url|..]
  {
    hide *;
    BodyIsString(kvs);
    LineFeedJoins(kvs);
    ParamsRoundTrip(WithLineFeed(kvs));
    LineFeedHarmlessIff(kvs);
    if KeysOfOneLine(kvs) { OneLineNeverRebound(kvs); }
    ReadRequestWithBody(token, url, version, headers, Join(kvs), stale);
  }

  lemma ReadRequestWithBody(token: string, url: string, version: string, headers: seq<string>, body: string,
                            stale: string)
    requires WellFormed(token, url, version, headers) && headers != [] && body != "" && |body| < 128
    requires Find(body, '\0') == |body| && AddParams(map[], "\n" + body).Some?
    requires stale != "" && stale[0] == '\0'
    ensures var head := Head(token, url, version, headers);
      var buf, n := head + body + stale, |head| + |body|;
      && |url| <= URL_SIZE && Holds(buf, n) && |Fresh().url| == URL_SIZE
      && var o := Parse(Fresh(), buf, n);
         && o.Ok? && o.r.status == Finish && AddParams(map[], "\n" + body) == Some(o.r.params)
         && o.r.url == url + Fresh().url[|url|..]
  {
    var head := Head(token, url, version, headers);
    var buf, n := head + body + stale, |head| + |body|;
    hide Head, Parse, MethodOf, ScanFrom, Rest, AddParams, Find, Without, WellFormed;
    ReadHeadOfBody(token, url, version, headers, body, stale);
    AfterLineFacts(buf, url);
    hide AfterLine, Fresh;
    ReadBody(AfterLine(buf, url).(status := Content), buf, n, |head|, body);
  }

  /** The head of a request with a body: the parser is left at the empty line. */
  lemma ReadHeadOfBody(token: string, url: string, version: string, headers: seq<string>, body: string, stale: string)
    requires WellFormed(token, url, version, headers) && headers != [] && body != "" && stale != ""
    ensures var head := Head(token, url, version, headers);
      var buf, n, m := head + body + stale, |head| + |body|, |head|;
      && 2 <= m && |url| <= URL_SIZE
      && buf[m - 2..m] == "\r\n" && buf[m..n] == body && buf[n] == stale[0]
      && Parse(Fresh(), buf, n) == Rest(buf, n, At(AfterLine(buf, url).(status := Content), m - 2, m - 1))
  {
    var head := Head(token, url, version, headers);
    var buf, n, m := head + body + stale, |head| + |body|, |head|;
    hide Head, Parse, MethodOf, ScanFrom, Rest, Lines, Without, WellFormed, HeaderLine, AfterLine;
    ThreeParts(head, body, stale);
    ReadRequestLine(token, url, version, headers, buf, n, body + stale);
    var i := |token| + |url| + |version| + 9;
    FrontOf(buf, i, m, Lines(headers), body + stale);
    BodyLayout(head, i, headers);
    WellFormedHeaders(token, url, version, headers);
    AfterLineFacts(buf, url);
    ReadHeaders(AfterLine(buf, url), buf, n, i, i, headers, m);
  }

  lemma WellFormedHeaders(token: string, url: string, version: string, headers: seq<string>)
    requires WellFormed(token, url, version, headers)
    ensures |url| <= URL_SIZE && forall h :: 0 <= h < |headers| ==> HeaderLine(headers[h])
    ensures headers != [] ==> RestOfLines(headers)
  {
    hide Without;
    if headers != [] { WholeLines(headers); }
  }

  lemma BodyIsString(kvs: seq<Pair>)
    requires kvs != [] && Without(Join(kvs), '\0')
    ensures Find(Join(kvs), '\0') == |Join(kvs)| && Join(kvs) != ""
  {
    FindAt(Join(kvs), '\0', |Join(kvs)|);
    assert Piece(kvs[0])[|kvs[0].key|] == '=';
  }

  lemma ThreeParts(head: string, body: string, stale: string)
    requires stale != ""
    ensures var buf, m := head + body + stale, |head|;
      && buf == head + (body + stale)
      && buf[m..m + |body|] == body && buf[m + |body|] == stale[0]
      && forall j :: 0 <= j <= m ==> buf[j..m] == head[j..]
  {
  }

  lemma BodyLayout(head: string, i: nat, headers: seq<string>)
    requires i + |Lines(headers)| == |head| && head[i..] == Lines(headers)
    ensures |head| >= 2 && head[|head| - 2..] == "\r\n"
  {
    LinesEnd(headers);
    assert head[|head| - 2..] == head[i..][|Lines(headers)| - 2..];
  }

  lemma {:induction false} LinesEnd(headers: seq<string>)
    ensures Lines(headers)[|Lines(headers)| - 2..] == "\r\n"
  {
    if headers != [] {
      LinesEnd(headers[1..]);
      var l, rest := Lines(headers), Lines(headers[1..]);
      assert l[|l| - 2..] == rest[|rest| - 2..];
    }
  }
}
