/**
 A request that arrives in several reads. The fields of the request survive from
 one call of the state machine to the next, the start of the current token does
 not: every call begins a new token.
 */
module RequestChunks {
  import opened Options
  import opened HttpParams
  import opened HttpRequest
  import opened RequestText

  /** The state is in the middle of a token whose first byte it has to remember. */
  predicate Remembers(s: Status) {
    s in {Start, Methord, Url, Proto}
  }

  /** Positions in a buffer and in the same buffer without its first n bytes. */
  predicate Shifted(p: Point, q: Point, n: nat) {
    if p.At? then q.At? && q.r == p.r && p.i == q.i + n && (Remembers(p.r.status) ==> p.begin == q.begin + n)
    else q.Fault?
  }

  lemma SameSlice(buf: string, n: nat, from: nat, to: nat)
    requires n <= from <= to <= |buf|
    ensures buf[n..][from - n..to - n] == buf[from..to] && buf[n..][to - n..] == buf[to..]
  {
  }

  lemma MethordShift(r: Request, buf: string, nread: nat, n: nat, i: nat, b: nat)
    requires Holds(buf, nread) && n <= i < nread && n + b <= i && |r.url| == URL_SIZE
    ensures Holds(buf[n..], nread - n)
    ensures Shifted(MethordStep(r, buf, nread, i, n + b), MethordStep(r, buf[n..], nread - n, i - n, b), n)
  {
    if n + b + 3 <= |buf| { SameSlice(buf, n, n + b, n + b + 3); }
    if n + b + 4 <= |buf| { SameSlice(buf, n, n + b, n + b + 4); }
  }

  lemma TokenShift(r: Request, buf: string, nread: nat, n: nat, i: nat, b: nat)
    requires Holds(buf, nread) && n <= i < nread && n + b <= i && |r.url| == URL_SIZE && r.status in {Url, Proto}
    ensures Holds(buf[n..], nread - n)
    ensures Shifted(Iterate(r, buf, nread, i, n + b), Iterate(r, buf[n..], nread - n, i - n, b), n)
  {
    hide AddParams, CString, MethordStep, Terminated;
    SameSlice(buf, n, n + b, i);
    if n + b + 4 <= |buf| { SameSlice(buf, n, n + b, n + b + 4); }
  }

  lemma LineShift(r: Request, buf: string, nread: nat, n: nat, i: nat, begin: nat, b: nat)
    requires Holds(buf, nread) && n <= i < nread && |r.url| == URL_SIZE && r.status in {Version, RequestHead}
    ensures Holds(buf[n..], nread - n)
    ensures Shifted(Iterate(r, buf, nread, i, begin), Iterate(r, buf[n..], nread - n, i - n, b), n)
  {
    hide AddParams, CString, MethordStep, Terminated;
  }

  lemma ContentShift(r: Request, buf: string, nread: nat, n: nat, i: nat, begin: nat, b: nat)
    requires Holds(buf, nread) && n <= i < nread && |r.url| == URL_SIZE && r.status in {Content, Finish, Error}
    ensures Holds(buf[n..], nread - n)
    ensures Shifted(Iterate(r, buf, nread, i, begin), Iterate(r, buf[n..], nread - n, i - n, b), n)
  {
    hide AddParams, CString, MethordStep, Terminated;
    SameSlice(buf, n, i, i + 1);
  }

  /** An iteration looks at nothing before the token it is in. */
  lemma IterateShift(r: Request, buf: string, nread: nat, n: nat, i: nat, begin: nat, b: nat)
    requires Holds(buf, nread) && n <= i < nread && InToken(r, i, begin) && InToken(r, i - n, b)
    requires Remembers(r.status) ==> begin == b + n
    ensures Holds(buf[n..], nread - n)
    ensures Shifted(Iterate(r, buf, nread, i, begin), Iterate(r, buf[n..], nread - n, i - n, b), n)
  {
    match r.status
    case Start => MethordShift(r, buf, nread, n, i, b);
    case Methord => MethordShift(r, buf, nread, n, i, b);
    case Url => TokenShift(r, buf, nread, n, i, b);
    case Proto => TokenShift(r, buf, nread, n, i, b);
    case Version => LineShift(r, buf, nread, n, i, begin, b);
    case RequestHead => LineShift(r, buf, nread, n, i, begin, b);
    case _ => ContentShift(r, buf, nread, n, i, begin, b);
  }

  lemma {:induction false} ScanShift(r: Request, buf: string, nread: nat, n: nat, i: nat, begin: nat, b: nat)
    requires Holds(buf, nread) && n <= nread && n <= i && InToken(r, i, begin) && InToken(r, i - n, b)
    requires Remembers(r.status) ==> begin == b + n
    ensures Holds(buf[n..], nread - n)
    ensures ScanFrom(r, buf, nread, i, begin) == ScanFrom(r, buf[n..], nread - n, i - n, b)
    decreases nread - i
  {
    hide Iterate, AddParams, CString;
    if i < nread {
      IterateShift(r, buf, nread, n, i, begin, b);
      var p, q := Iterate(r, buf, nread, i, begin), Iterate(r, buf[n..], nread - n, i - n, b);
      if p.At? {
        ScanShift(p.r, buf, nread, n, p.i, p.begin, q.begin);
      }
    }
  }

  /** A call that starts at byte n of the input does what the previous call would
      have done with the rest of it, provided that no token is cut in two. */
  lemma ResumeAtBoundary(r: Request, buf: string, nread: nat, n: nat, begin: nat)
    requires Holds(buf, nread) && n <= nread && InToken(r, n, begin)
    requires Remembers(r.status) ==> begin == n
    ensures Holds(buf[n..], nread - n) && Parse(r, buf[n..], nread - n) == ScanFrom(r, buf, nread, n, begin)
  {
    ScanShift(r, buf, nread, n, n, begin, 0);
  }

  // ---------------------------------------------------------- two reads as one

  /** None of the last four bytes of the first n ends a token or a line. */
  predicate QuietEnd(buf: string, n: nat)
    requires n <= |buf|
  {
    forall k :: 0 <= k < n <= k + 4 ==> buf[k] != ' ' && buf[k] != '/' && buf[k] != '\r'
  }

  /** Passes before such an end do not look behind it. */
  lemma SamePass(r: Request, buf: string, n: nat, whole: string, nread: nat, i: nat, begin: nat)
    requires i < n <= nread && Holds(buf, n) && Holds(whole, nread) && buf[..n] == whole[..n] && QuietEnd(buf, n)
    requires InToken(r, i, begin) && r.status != Content
    ensures Iterate(r, buf, n, i, begin) == Iterate(r, whole, nread, i, begin)
    ensures var p := Iterate(r, buf, n, i, begin); p.At? ==> p.i <= n
  {
    assert forall k :: 0 <= k < n ==> buf[k] == buf[..n][k] == whole[k];
    if Remembers(r.status) {
      assert buf[begin..i] == whole[begin..i];
      if begin + 4 <= n {
        assert buf[begin..begin + 3] == whole[begin..begin + 3];
        assert buf[begin..begin + 4] == whole[begin..begin + 4];
      }
    }
  }

  /** The first read goes as far in the whole input as on its own. */
  lemma {:induction false} FirstRead(r: Request, buf: string, n: nat, whole: string, nread: nat, i: nat, begin: nat)
    returns (begin': nat)
    requires i <= n <= nread && Holds(buf, n) && Holds(whole, nread) && buf[..n] == whole[..n] && QuietEnd(buf, n)
    requires InToken(r, i, begin) && r.status != Error
    requires var o := ScanFrom(r, buf, n, i, begin); o.Ok? && o.r.status in {Version, RequestHead}
    ensures var r' := ScanFrom(r, buf, n, i, begin).r;
      InToken(r', n, begin') && ScanFrom(r, whole, nread, i, begin) == ScanFrom(r', whole, nread, n, begin')
    decreases n - i
  {
    begin' := begin;
    if i < n {
      ScanAdvances(r, buf, n, i, begin);
      SamePass(r, buf, n, whole, nread, i, begin);
      var p := Iterate(r, buf, n, i, begin);
      hide Iterate;
      begin' := FirstRead(p.r, buf, n, whole, nread, p.i, p.begin);
    }
  }

  /** Two reads are parsed as one if the first call returns VERSION or REQUEST_HEAD
      and its last four bytes end neither a token nor a line. */
  lemma TwoReadsAsOne(r: Request, c: Chunk, d: Chunk)
    requires Holds(c.buf, c.nread) && Holds(d.buf, d.nread) && |r.url| == URL_SIZE && r.status != Error
    requires var o := Parse(r, c.buf, c.nread); o.Ok? && o.r.status in {Version, RequestHead}
    requires QuietEnd(c.buf, c.nread)
    ensures ParseAll(r, [c, d]) == Parse(r, c.buf[..c.nread] + d.buf, c.nread + d.nread)
  {
    var n := c.nread;
    var whole, nread := c.buf[..n] + d.buf, n + d.nread;
    var begin := FirstRead(r, c.buf, n, whole, nread, 0, 0);
    var r' := Parse(r, c.buf, n).r;
    ResumeAtBoundary(r', whole, nread, n, begin);
    assert whole[n..] == d.buf;
    TwoChunks(r, c, d);
  }

  /** A body that arrives in the read after the head is dropped, whatever it is: the
      request is finished at the end of its head. */
  lemma BodyInSecondReadDropped(token: string, url: string, version: string, headers: seq<string>,
                                stale: string, body: Chunk)
    requires WellFormed(token, url, version, headers) && headers != [] && Holds(body.buf, body.nread)
    ensures var head := Head(token, url, version, headers);
      var o := ParseAll(Fresh(), [Chunk(head + stale, |head|), body]);
      && o.Ok? && o == Parse(Fresh(), head + stale, |head|)
      && o.r.status == Finish && o.r.params == map[]
  {
    RequestRoundTrip(token, url, version, headers, stale);
    var head := Head(token, url, version, headers);
    var c := Chunk(head + stale, |head|);
    hide Head;
    TwoChunks(Fresh(), c, body);
    FinishIsAbsorbing(Parse(Fresh(), c.buf, c.nread).r, body.buf, body.nread, 0, 0);
  }

  // ------------------------------------------------------------ a split URL

  /** What is left of a printed request after the first part of its URL. */
  function Tail(url2: string, version: string, headers: seq<string>): string {
    url2 + (" " + Back(version, Lines(headers)))
  }

  /** The first read ends inside the URL. */
  lemma ReadFirstPart(token: string, url1: string, stale: string)
    requires Without(token, ' ') && Without(url1, ' ') && 4 <= |token + " " + url1 + stale|
    ensures var first := token + " " + url1; var buf := first + stale;
      4 <= |buf| && Parse(Fresh(), buf, |first|) == Ok(Fresh().(methd := MethodOf(buf), status := Url))
  {
    var first, n := token + " " + url1, |token|;
    var buf := first + stale;
    var r := Fresh().(methd := MethodOf(buf), status := Url);
    assert buf[..n] == token && buf[n] == ' ';
    assert forall k :: 0 <= k < |url1| ==> buf[n + 1 + k] == url1[k];
    ReadToken(buf, |first|, n);
    forall k | n + 1 <= k < |first| ensures buf[k] != ' ' {
      assert buf[k] == url1[k - n - 1];
    }
    Skip(r, buf, |first|, n + 1, |first|, n + 1);
  }

  /** Where the pieces of the second part lie. */
  lemma TailLayout(url2: string, version: string, headers: seq<string>, stale: string)
    requires |url2| <= URL_SIZE
    ensures var n := |Tail(url2, version, headers)|; var i := |url2| + 1; var c := i + 7 + |version|;
      var buf := Tail(url2, version, headers) + stale;
      && c + 2 <= n && buf[0..|url2|] == url2 && buf[|url2|] == ' '
      && ProtoAndVersion(buf, i, version) && buf[c..n] == Lines(headers)
  {
    var lines, i := Lines(headers), |url2| + 1;
    var buf, c := Tail(url2, version, headers) + stale, i + 7 + |version|;
    hide Lines, ProtoAndVersion;
    assert buf[0..] == buf && buf == url2 + (" " + Back(version, lines)) + stale;
    CutFront(buf, 0, url2, " " + Back(version, lines), stale);
    CutFront(buf, |url2|, " ", Back(version, lines), stale);
    LayoutBack(version, lines, buf, i, stale);
    assert c + |lines| == |Tail(url2, version, headers)|;
    FrontOf(buf, c, c + |lines|, lines, stale);
  }

  lemma ReadToEnd(r: Request, version: string, headers: seq<string>, buf: string, n: nat, i: nat)
    requires r.status == Proto && |r.url| == URL_SIZE && Without(version, '\r') && Holds(buf, n)
    requires headers != [] && forall h :: 0 <= h < |headers| ==> HeaderLine(headers[h])
    requires ProtoAndVersion(buf, i, version)
    requires var c := i + 7 + |version|; c + 2 <= n && buf[c..n] == Lines(headers)
    ensures Rest(buf, n, At(r, i, i)) == Ok(r.(proto := Some(HTTP), status := Finish))
  {
    var c, r' := i + 7 + |version|, r.(proto := Some(HTTP), status := RequestHead);
    hide *;
    WholeLines(headers);
    ReadProtoAndVersion(r, version, buf, n, i);
    HeadersToFinish(r', buf, n, c, c, headers);
  }

  /** The second read, from the middle of the URL on. */
  lemma ReadSecondPart(r: Request, url2: string, version: string, headers: seq<string>, stale: string)
    requires r.status == Url && |r.url| == URL_SIZE
    requires |url2| <= URL_SIZE && Without(url2, ' ') && Without(version, '\r')
    requires headers != [] && (forall h :: 0 <= h < |headers| ==> HeaderLine(headers[h]))
    ensures var second := Tail(url2, version, headers);
      Parse(r, second + stale, |second|) ==
      Ok(r.(url := url2 + r.url[|url2|..], proto := Some(HTTP), status := Finish))
  {
    var second, i := Tail(url2, version, headers), |url2| + 1;
    var buf, n := second + stale, |second|;
    TailLayout(url2, version, headers, stale);
    assert Parse(r, buf, n) == Rest(buf, n, At(r, 0, 0));
    hide Lines, ScanFrom, Without, HeaderLine, Tail, Rest, Parse, ProtoAndVersion;
    ReadUrl(r, buf, n, 0, |url2|);
    ReadToEnd(r.(url := url2 + r.url[|url2|..], status := Proto), version, headers, buf, n, i);
  }

  lemma ZerosDoNotHide(url1: string, url2: string)
    requires Without(url1 + url2, '\0') && |url1 + url2| <= URL_SIZE
    ensures url2 + Fresh().url[|url2|..] == url1 + url2 + Fresh().url[|url1 + url2|..] <==> url1 == ""
  {
    var short, long := url2 + Fresh().url[|url2|..], url1 + url2 + Fresh().url[|url1 + url2|..];
    if url1 == "" {
      assert url1 + url2 == url2;
    } else {
      assert short[|url2|] == '\0';
      assert long[|url2|] == (url1 + url2)[|url2|];
    }
  }

  /** A request whose URL arrives in two reads is still parsed to its end, but the
      URL that is stored is the part from the second read; it is the URL that one
      read would have stored if and only if nothing of it came with the first. */
  lemma SplitUrlRoundTrip(token: string, url1: string, url2: string, version: string, headers: seq<string>,
                          stale1: string, stale2: string)
    requires WellFormed(token, url1 + url2, version, headers) && headers != [] && Without(url1 + url2, '\0')
    requires 4 <= |token + " " + url1 + stale1|
    ensures var first, second := token + " " + url1, Tail(url2, version, headers);
      && first + second == Head(token, url1 + url2, version, headers)
      && var o := ParseAll(Fresh(), [Chunk(first + stale1, |first|), Chunk(second + stale2, |second|)]);
         && o.Ok? && o.r.status == Finish && o.r.proto == Some(HTTP) && o.r.params == map[]
         && 4 <= |first + stale1| && o.r.methd == MethodOf(first + stale1)
         && o.r.url == url2 + Fresh().url[|url2|..]
         && (o.r.url == url1 + url2 + Fresh().url[|url1 + url2|..] <==> url1 == "")
  {
    var url, first, second := url1 + url2, token + " " + url1, Tail(url2, version, headers);
    assert first + second == Head(token, url, version, headers);
    assert Without(url1, ' ') by { assert forall k :: 0 <= k < |url1| ==> url1[k] == url[k]; }
    assert Without(url2, ' ') by { assert forall k :: 0 <= k < |url2| ==> url2[k] == url[|url1| + k]; }
    ReadFirstPart(token, url1, stale1);
    var r := Fresh().(methd := MethodOf(first + stale1), status := Url);
    ReadSecondPart(r, url2, version, headers, stale2);
    ZerosDoNotHide(url1, url2);
    TwoChunks(Fresh(), Chunk(first + stale1, |first|), Chunk(second + stale2, |second|));
  }

  lemma TwoChunks(r: Request, c: Chunk, d: Chunk)
    requires Holds(c.buf, c.nread) && Holds(d.buf, d.nread) && |r.url| == URL_SIZE
    ensures Readable([c, d])
    ensures var o := Parse(r, c.buf, c.nread);
      ParseAll(r, [c, d]) == if o.Ok? then Parse(o.r, d.buf, d.nread) else Failed
  {
    assert [c, d][1..] == [d] && [d][1..] == [];
    assert Readable([d]) && Readable([]);
    var o := Parse(r, c.buf, c.nread);
    hide Parse;
    if o.Ok? {
      assert ParseAll(o.r, [d]) == Parse(o.r, d.buf, d.nread);
    }
  }
}
