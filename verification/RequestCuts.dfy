/**
 A printed request that is cut in two at any position: exactly when the two reads
 give what one read gives. The answer depends on the state that the first call
 returns, on how far it read, and in one case on the byte that comes next.
 */
module RequestCuts {
  import opened Options
  import opened HttpParams
  import opened HttpRequest
  import opened RequestText
  import opened RequestChunks

  // ------------------------------------------------------------ the second read

  /** Where a request printed without body ends up. */
  function Done(r: Request): Request {
    r.(status := Finish)
  }

  /** From the middle of the header lines, if the last line end and the empty line are
      still to come. */
  lemma HeadersToEnd(r: Request, headers: seq<string>, stale: string)
    requires r.status == RequestHead && |r.url| == URL_SIZE && RestOfLines(headers)
    ensures Parse(r, Lines(headers) + stale, |Lines(headers)|) == Ok(Done(r))
  {
    var n := |Lines(headers)|;
    var buf := Lines(headers) + stale;
    assert buf[0..n] == Lines(headers);
    assert Parse(r, buf, n) == Rest(buf, n, At(r, 0, 0));
    HeadersToFinish(r, buf, n, 0, 0, headers);
  }

  /** The machine is still before or in the empty line. */
  lemma LessThanALine(r: Request, rest: string, stale: string)
    requires r.status == RequestHead && |r.url| == URL_SIZE && rest in ["", "\n", "\r\n", "\n\r\n"]
    ensures var o := Parse(r, rest + stale, |rest|); o.Ok? ==> o.r.status != Finish
  {
    var n, buf := |rest|, rest + stale;
    assert Parse(r, buf, n) == Rest(buf, n, At(r, 0, 0));
    if rest == "\r\n" {
      assert buf[0..n] == "\r\n";
      NoHeader(r, buf, n, 0);
    } else if rest != "" {
      assert buf[0] == '\n';
      ScanStep(r, buf, n, 0, 0, At(r, 1, 0));
      if rest == "\n\r\n" {
        assert buf[1..n] == "\r\n";
        hide ScanFrom;
        BeginForgotten(r, buf, n, 1, 0, 1);
        NoHeader(r, buf, n, 1);
      }
    }
  }

  /** Past the protocol the start of the token does not matter. */
  lemma {:induction false} BeginForgotten(r: Request, buf: string, nread: nat, i: nat, b: nat, c: nat)
    requires Holds(buf, nread) && |r.url| == URL_SIZE && !Remembers(r.status)
    ensures Rest(buf, nread, At(r, i, b)) == Rest(buf, nread, At(r, i, c))
    decreases nread - i
  {
    if i < nread {
      var p, q := Iterate(r, buf, nread, i, b), Iterate(r, buf, nread, i, c);
      if p.At? {
        assert q.At? && q.r == p.r && q.i == p.i && !Remembers(p.r.status);
        BeginForgotten(p.r, buf, nread, p.i, p.begin, q.begin);
      }
    }
  }

  /** From the version on, with the given part of it still to come. */
  lemma VersionToEnd(r: Request, version: string, headers: seq<string>, stale: string)
    requires r.status == Version && |r.url| == URL_SIZE && Without(version, '\r')
    requires forall h :: 0 <= h < |headers| ==> HeaderLine(headers[h])
    ensures var text := version + ("\r\n" + Lines(headers)); var o := Parse(r, text + stale, |text|);
      if headers != [] then o == Ok(Done(r)) else o.Ok? ==> o.r.status != Finish
  {
    var text, i := version + ("\r\n" + Lines(headers)), |version| + 2;
    var buf, n, r' := text + stale, |text|, r.(status := RequestHead);
    assert headers != [] ==> RestOfLines(headers);
    assert buf[0..|version|] == version && buf[|version|] == '\r' && buf[|version| + 1] == '\n';
    assert buf[i..n] == Lines(headers);
    assert Parse(r, buf, n) == Rest(buf, n, At(r, 0, 0));
    assert headers == [] ==> Lines(headers) == "\r\n";
    hide ScanFrom, Rest, Lines, HeaderLine, RestOfLines, Parse, Without;
    ReadVersion(r, buf, n, 0, |version|);
    if headers != [] {
      HeadersToFinish(r', buf, n, i, i, headers);
    } else {
      NoHeader(r', buf, n, i);
    }
  }

  /** Parameters that were read are there. */
  lemma {:induction false} SomeParam(m: map<string, string>, s: string) returns (k: string)
    requires AddParams(m, s).Some?
    ensures k in AddParams(m, s).value
    decreases |s|
  {
    hide AddParams, Find, Insert;
    AddParamsStep(m, s);
    var q := Find(s, '&');
    var piece := s[..q];
    var e := Find(piece, '=');
    var m' := Insert(m, piece[..e], piece[e + 1..]);
    if q < |s| {
      k := SomeParam(m', s[q + 1..]);
    } else {
      k := piece[..e];
      assert k in m' by { InsertHas(m, k, piece[e + 1..]); }
    }
  }

  lemma InsertHas(m: map<string, string>, k: string, v: string)
    ensures k in Insert(m, k, v)
  {
  }

  /** The look-ahead has taken stale bytes for the empty line: what comes next is taken
      for the body, unless it is a line feed. */
  lemma ContentToEnd(r: Request, text: string, stale: string)
    requires r.status == Content && |r.url| == URL_SIZE && r.params == map[]
    ensures Parse(r, text + stale, |text|) == Ok(Done(r)) <==> text != "" && text[0] == '\n'
  {
    var n, buf := |text|, text + stale;
    if text != "" {
      var p := Iterate(r, buf, n, 0, 0);
      assert buf[0] == text[0];
      if p.At? {
        FinishIsAbsorbing(p.r, buf, n, p.i, p.begin);
        if text[0] != '\n' {
          var k := SomeParam(r.params, CString(buf[1..]));
        }
      }
    }
  }

  // ------------------------------------------------------------- the first read

  /** A line end followed by an empty line. */
  predicate BlankAt(buf: string, j: nat) {
    j + 4 <= |buf| && buf[j] == '\r' && buf[j + 1] == '\n' && buf[j + 2] == '\r' && buf[j + 3] == '\n'
  }

  /** No empty line ends before position n. */
  predicate NoBlank(buf: string, i: nat, n: nat) {
    forall j: nat :: i <= j && j + 4 < n ==> !BlankAt(buf, j)
  }

  lemma {:induction false} BlankOnlyAtEnd(headers: seq<string>, j: nat)
    requires forall h :: 0 <= h < |headers| ==> HeaderLine(headers[h])
    requires BlankAt(Lines(headers), j)
    ensures j + 4 == |Lines(headers)|
  {
    if headers != [] {
      var h, rest, l, n := headers[0], Lines(headers[1..]), Lines(headers), |headers[0]|;
      assert HeaderLine(h) && l == h + "\r\n" + rest && |l| == n + 2 + |rest|;
      assert (forall k :: 0 <= k < n ==> l[k] == h[k]) && l[n + 1] == '\n';
      assert forall k :: 0 <= k < |rest| ==> l[n + 2 + k] == rest[k];
      if |headers| > 1 {
        NextLine(headers[1..]);
      }
      if j >= n + 2 {
        assert BlankAt(rest, j - n - 2);
        BlankOnlyAtEnd(headers[1..], j - n - 2);
      }
    }
  }

  /** Reading part of the header lines changes nothing but the state. */
  lemma {:induction false} PartOfHeaders(r: Request, buf: string, n: nat, i: nat, begin: nat)
    requires Holds(buf, n) && |r.url| == URL_SIZE && r.status == RequestHead && NoBlank(buf, i, n)
    ensures var o := ScanFrom(r, buf, n, i, begin);
      o.Ok? ==> o.r == r.(status := o.r.status) && o.r.status in {RequestHead, Content, Finish}
    decreases n - i
  {
    if i < n {
      var p := Iterate(r, buf, n, i, begin);
      assert p.At? && p.r.status == Content ==> BlankAt(buf, i);
      if p.At? {
        if p.r.status == RequestHead {
          PartOfHeaders(p.r, buf, n, p.i, p.begin);
        } else if p.r.status == Finish {
          FinishIsAbsorbing(p.r, buf, n, p.i, p.begin);
        }
      }
    }
  }

  lemma PartOfHeadersRest(r: Request, buf: string, n: nat, i: nat)
    requires Holds(buf, n) && |r.url| == URL_SIZE && r.status == RequestHead && NoBlank(buf, i, n)
    ensures var o := Rest(buf, n, At(r, i, i));
      o.Ok? ==> o.r == r.(status := o.r.status) && o.r.status in {RequestHead, Content, Finish}
  {
    PartOfHeaders(r, buf, n, i, i);
    hide ScanFrom;
  }

  // ----------------------------------------------------------- where the cut is

  /** A concatenation without its first characters. */
  lemma Drop(a: string, b: string, k: nat)
    ensures k <= |a| ==> (a + b)[k..] == a[k..] + b
    ensures k <= |b| ==> (a + b)[|a| + k..] == b[k..]
  {
  }

  /** What the two reads have to give: the request as one read gives it. */
  function Whole(token: string, url: string, version: string, headers: seq<string>, stale: string): Outcome {
    Parse(Fresh(), Head(token, url, version, headers) + stale, |Head(token, url, version, headers)|)
  }

  function TwoReads(head: string, n: nat, stale1: string, stale2: string): Outcome
    requires n <= |head|
  {
    ParseAll(Fresh(), [Chunk(head[..n] + stale1, n), Chunk(head[n..] + stale2, |head| - n)])
  }

  function FirstOf(head: string, n: nat, stale1: string): Outcome
    requires n <= |head|
  {
    Parse(Fresh(), head[..n] + stale1, n)
  }

  lemma Twice(head: string, n: nat, stale1: string, stale2: string)
    requires n <= |head|
    ensures var o := FirstOf(head, n, stale1);
      TwoReads(head, n, stale1, stale2) ==
      if o.Ok? then Parse(o.r, head[n..] + stale2, |head| - n) else Failed
  {
    hide Parse, ParseAll;
    TwoChunks(Fresh(), Chunk(head[..n] + stale1, n), Chunk(head[n..] + stale2, |head| - n));
  }

  /** Positions behind the two spaces, the slash, and the version. */
  function UrlAt(token: string): nat {
    |token| + 1
  }

  function ProtoAt(token: string, url: string): nat {
    |token| + |url| + 2
  }

  function VersionAt(token: string, url: string): nat {
    |token| + |url| + 7
  }

  function LineEndAt(token: string, url: string, version: string): nat {
    |token| + |url| + |version| + 7
  }

  /** The state that a call returns, if it stays in its buffer. */
  function StateOf(o: Outcome): Option<Status> {
    if o.Ok? then Some(o.r.status) else None
  }

  /** The condition, given the state that the first call returns. A first call that leaves
      the buffer is never harmless. */
  predicate Harmless(first: Option<Status>, token: string, url: string, version: string, headers: seq<string>,
                     n: nat, stale2: string)
    requires n <= |Head(token, url, version, headers)|
  {
    var head := Head(token, url, version, headers);
    && first.Some?
    && match first.value
       case Start => true
       case Methord => 4 <= |head| && 4 <= |head[n..] + stale2| && MethodOf(head[n..] + stale2) == MethodOf(head)
       case Url => n == UrlAt(token)
       case Proto => n == ProtoAt(token, url)
       case Version => n <= LineEndAt(token, url, version) || 2 <= |headers|
       case RequestHead => n + 4 <= |head|
       case Content => n < |head| && head[n] == '\n'
       case _ => true
  }

  predicate SameIffHarmless(token: string, url: string, version: string, headers: seq<string>,
                            n: nat, stale1: string, stale2: string)
    requires n <= |Head(token, url, version, headers)|
  {
    var head := Head(token, url, version, headers);
    TwoReads(head, n, stale1, stale2) == Whole(token, url, version, headers, stale2)
    <==> Harmless(StateOf(FirstOf(head, n, stale1)), token, url, version, headers, n, stale2)
  }

  // ---------------------------------------------------------- layout of the parts

  /** Where the pieces lie in the request itself. */
  lemma HeadLayout(token: string, url: string, version: string, headers: seq<string>)
    ensures var head := Head(token, url, version, headers);
      var p, h := ProtoAt(token, url), LineEndAt(token, url, version) + 2;
      && TokenAndUrl(head, token, url) && ProtoAndVersion(head, p, version)
      && h + |Lines(headers)| == |head| && head[h..] == Lines(headers)
  {
    var head := Head(token, url, version, headers);
    assert head + "" == head;
    Layout(token, url, version, headers, head, "");
    assert Lines(headers) + "" == Lines(headers);
  }

  /** What follows the two spaces, the slash and the version. */
  lemma Behind(token: string, url: string, version: string, headers: seq<string>)
    ensures var head := Head(token, url, version, headers);
      && LineEndAt(token, url, version) <= |head|
      && head[UrlAt(token)..] == Tail(url, version, headers)
      && head[ProtoAt(token, url)..] == Back(version, Lines(headers))
      && head[VersionAt(token, url)..] == version + ("\r\n" + Lines(headers))
      && head[LineEndAt(token, url, version)..] == "\r\n" + Lines(headers)
  {
    var head, tail, lines := Head(token, url, version, headers), Tail(url, version, headers), Lines(headers);
    var back, line := Back(version, lines), version + ("\r\n" + lines);
    assert head == token + (" " + tail) && tail == url + (" " + back) && back == "HTTP" + ("/" + line);
    hide Head, Tail, Back, Lines;
    BehindUrl(token, tail);
    BehindUrl(url, back);
    BehindProto(line);
    Drop(version, "\r\n" + lines, 0);
    Suffix(head, UrlAt(token), ProtoAt(token, url));
    Suffix(head, ProtoAt(token, url), VersionAt(token, url));
    Suffix(head, VersionAt(token, url), LineEndAt(token, url, version));
  }

  lemma BehindUrl(url: string, back: string)
    ensures (url + (" " + back))[|url| + 1..] == back
  {
    Drop(url, " " + back, 1);
    Drop(" ", back, 0);
  }

  lemma BehindProto(rest: string)
    ensures ("HTTP" + ("/" + rest))[5..] == rest
  {
    Drop("HTTP", "/" + rest, 1);
    Drop("/", rest, 0);
  }

  lemma Suffix(s: string, a: nat, n: nat)
    requires a <= n <= |s|
    ensures s[n..] == s[a..][n - a..]
  {
  }

  lemma SuffixInMethod(token: string, url: string, version: string, headers: seq<string>, n: nat)
    requires n <= |token|
    ensures n <= |Head(token, url, version, headers)|
    ensures Head(token, url, version, headers)[n..] == Head(token[n..], url, version, headers)
  {
    Drop(token, " " + (url + (" " + Back(version, Lines(headers)))), n);
    hide Lines, Back;
  }

  lemma SuffixInUrl(token: string, url: string, version: string, headers: seq<string>, n: nat)
    requires UrlAt(token) <= n <= UrlAt(token) + |url|
    ensures n <= |Head(token, url, version, headers)|
    ensures Head(token, url, version, headers)[n..] == Tail(url[n - UrlAt(token)..], version, headers)
  {
    var back := Back(version, Lines(headers));
    Behind(token, url, version, headers);
    Drop(url, " " + back, n - UrlAt(token));
    hide Head, Lines, Back;
    Suffix(Head(token, url, version, headers), UrlAt(token), n);
  }

  lemma SuffixInProto(token: string, url: string, version: string, headers: seq<string>, n: nat)
    requires ProtoAt(token, url) <= n <= ProtoAt(token, url) + 4
    ensures n <= |Head(token, url, version, headers)|
    ensures Head(token, url, version, headers)[n..]
         == "HTTP"[n - ProtoAt(token, url)..] + ("/" + (version + ("\r\n" + Lines(headers))))
  {
    Behind(token, url, version, headers);
    Drop("HTTP", "/" + (version + ("\r\n" + Lines(headers))), n - ProtoAt(token, url));
    hide Head, Lines;
    Suffix(Head(token, url, version, headers), ProtoAt(token, url), n);
  }

  lemma SuffixInVersion(token: string, url: string, version: string, headers: seq<string>, n: nat)
    requires VersionAt(token, url) <= n <= LineEndAt(token, url, version)
    ensures n <= |Head(token, url, version, headers)|
    ensures Head(token, url, version, headers)[n..]
         == version[n - VersionAt(token, url)..] + ("\r\n" + Lines(headers))
  {
    Behind(token, url, version, headers);
    Drop(version, "\r\n" + Lines(headers), n - VersionAt(token, url));
    hide Head, Lines;
    Suffix(Head(token, url, version, headers), VersionAt(token, url), n);
  }

  lemma SuffixInLines(token: string, url: string, version: string, headers: seq<string>, n: nat)
    requires LineEndAt(token, url, version) < n <= |Head(token, url, version, headers)|
    ensures var e := LineEndAt(token, url, version);
      && |Head(token, url, version, headers)| == e + 2 + |Lines(headers)|
      && Head(token, url, version, headers)[n..] ==
         if n == e + 1 then "\n" + Lines(headers) else Lines(headers)[n - e - 2..]
  {
    var e, lines := LineEndAt(token, url, version), Lines(headers);
    Behind(token, url, version, headers);
    hide Head, Lines;
    Suffix(Head(token, url, version, headers), e, n);
    if n == e + 1 {
      Drop("\r\n", lines, 1);
      assert "\r\n"[1..] == "\n";
    } else {
      Drop("\r\n", lines, n - e - 2);
    }
  }

  /** A stretch in the common part of two buffers. */
  lemma SameStretch(buf: string, head: string, n: nat, a: nat, b: nat)
    requires a <= b <= n <= |buf| && n <= |head| && buf[..n] == head[..n]
    ensures buf[a..b] == head[a..b] && (a < n ==> buf[a] == head[a])
  {
    assert buf[a..b] == buf[..n][a..b] && head[a..b] == head[..n][a..b];
    if a < n { assert buf[a] == buf[..n][a] && head[a] == head[..n][a]; }
  }

  lemma PrefixMethod(token: string, url: string, version: string, headers: seq<string>, n: nat, stale: string)
    requires |token| < n <= |Head(token, url, version, headers)|
    ensures var buf := Head(token, url, version, headers)[..n] + stale;
      n <= |buf| && buf[..n] == Head(token, url, version, headers)[..n]
      && buf[..|token|] == token && buf[|token|] == ' '
  {
    var head := Head(token, url, version, headers);
    var buf := head[..n] + stale;
    HeadLayout(token, url, version, headers);
    hide Head;
    SameStretch(buf, head, n, 0, |token|);
    SameStretch(buf, head, n, |token|, n);
  }

  lemma PrefixUrl(token: string, url: string, version: string, headers: seq<string>, n: nat, stale: string)
    requires ProtoAt(token, url) <= n <= |Head(token, url, version, headers)|
    ensures var buf := Head(token, url, version, headers)[..n] + stale;
      n <= |buf| && buf[..n] == Head(token, url, version, headers)[..n] && TokenAndUrl(buf, token, url)
  {
    var head, u := Head(token, url, version, headers), UrlAt(token);
    var buf := head[..n] + stale;
    HeadLayout(token, url, version, headers);
    hide Head;
    SameStretch(buf, head, n, 0, |token|);
    SameStretch(buf, head, n, |token|, n);
    SameStretch(buf, head, n, u, u + |url|);
    SameStretch(buf, head, n, u + |url|, n);
  }

  /** The protocol and the slash, as far as they were read. */
  lemma PrefixProto(token: string, url: string, version: string, headers: seq<string>, n: nat, stale: string)
    requires ProtoAt(token, url) <= n <= |Head(token, url, version, headers)|
    ensures var buf := Head(token, url, version, headers)[..n] + stale;
      var p := ProtoAt(token, url);
      && (n <= p + 4 ==> buf[p..n] == "HTTP"[..n - p])
      && (p + 5 <= n ==> buf[p..p + 4] == "HTTP" && buf[p + 4] == '/')
  {
    var head, p := Head(token, url, version, headers), ProtoAt(token, url);
    var buf := head[..n] + stale;
    HeadLayout(token, url, version, headers);
    hide Head;
    assert buf[..n] == head[..n];
    if n <= p + 4 {
      SameStretch(buf, head, n, p, n);
      assert head[p..n] == head[p..p + 4][..n - p];
    } else {
      SameStretch(buf, head, n, p, p + 4);
      SameStretch(buf, head, n, p + 4, n);
    }
  }

  lemma PrefixVersion(token: string, url: string, version: string, headers: seq<string>, n: nat, stale: string)
    requires VersionAt(token, url) <= n <= |Head(token, url, version, headers)|
    ensures var buf := Head(token, url, version, headers)[..n] + stale;
      var v, e := VersionAt(token, url), LineEndAt(token, url, version);
      && (n <= e ==> buf[v..n] == version[..n - v])
      && (e < n ==> buf[v..e] == version && buf[e] == '\r')
      && (e + 2 <= n ==> ProtoAndVersion(buf, ProtoAt(token, url), version))
  {
    var head, v, e := Head(token, url, version, headers), VersionAt(token, url), LineEndAt(token, url, version);
    var buf := head[..n] + stale;
    HeadLayout(token, url, version, headers);
    PrefixProto(token, url, version, headers, n, stale);
    hide Head;
    assert buf[..n] == head[..n];
    if n <= e {
      SameStretch(buf, head, n, v, n);
      assert head[v..n] == head[v..e][..n - v];
    } else {
      SameStretch(buf, head, n, v, e);
      SameStretch(buf, head, n, e, n);
      if e + 2 <= n { SameStretch(buf, head, n, e + 1, n); }
    }
  }

  // --------------------------------------------------------------- one read

  function WholeRequest(token: string, url: string, version: string, headers: seq<string>): Request
    requires 4 <= |Head(token, url, version, headers)| && |url| <= URL_SIZE
  {
    Request(Finish, MethodOf(Head(token, url, version, headers)), Some(HTTP), url + Fresh().url[|url|..], map[])
  }

  lemma SameStart(a: string, b: string)
    requires 4 <= |a| && 4 <= |b| && a[..4] == b[..4]
    ensures MethodOf(a) == MethodOf(b)
  {
    assert a[0..3] == a[..4][..3] && b[0..3] == b[..4][..3];
    assert a[0..4] == a[..4] && b[0..4] == b[..4];
  }

  lemma WholeIs(token: string, url: string, version: string, headers: seq<string>, stale: string)
    requires WellFormed(token, url, version, headers) && headers != []
    ensures 4 <= |Head(token, url, version, headers)|
    ensures Whole(token, url, version, headers, stale) == Ok(WholeRequest(token, url, version, headers))
  {
    var head := Head(token, url, version, headers);
    HeadLayout(token, url, version, headers);
    RequestRoundTrip(token, url, version, headers, stale);
    assert (head + stale)[..4] == head[..4];
    SameStart(head + stale, head);
    hide Parse, Head, MethodOf, Fresh;
  }

  // -------------------------------------------------- cuts in the request line

  lemma CutInMethod(token: string, url: string, version: string, headers: seq<string>,
                    n: nat, stale1: string, stale2: string)
    requires WellFormed(token, url, version, headers) && headers != [] && n <= |token|
    ensures n <= |Head(token, url, version, headers)|
    ensures SameIffHarmless(token, url, version, headers, n, stale1, stale2)
  {
    var head := Head(token, url, version, headers);
    HeadLayout(token, url, version, headers);
    SuffixInMethod(token, url, version, headers, n);
    Twice(head, n, stale1, stale2);
    WholeIs(token, url, version, headers, stale2);
    var buf := head[..n] + stale1;
    if n == 0 {
      assert FirstOf(head, n, stale1) == Ok(Fresh());
      assert head[0..] == head;
    } else {
      assert forall k :: 0 <= k < n ==> buf[k] == token[k];
      NoSpaceYet(buf, n);
      RestOfMethod(token[n..], url, version, headers, stale2);
      var rest := Head(token[n..], url, version, headers);
      assert (rest + stale2)[..4] == rest[..4];
      SameStart(rest + stale2, rest);
      hide Head, Parse, MethodOf, Whole, TwoReads, WellFormed;
    }
  }

  lemma NoSpaceYet(buf: string, n: nat)
    requires 0 < n <= |buf| && forall k :: 0 <= k < n ==> buf[k] != ' '
    ensures Parse(Fresh(), buf, n) == Ok(Fresh().(status := Methord))
  {
    var r := Fresh().(status := Methord);
    assert Iterate(Fresh(), buf, n, 0, 0) == At(r, 1, 0);
    Skip(r, buf, n, 1, n, 0);
  }

  lemma RestOfMethod(token: string, url: string, version: string, headers: seq<string>, stale: string)
    requires WellFormed(token, url, version, headers) && headers != []
    ensures var head := Head(token, url, version, headers);
      4 <= |head|
      && Parse(Fresh().(status := Methord), head + stale, |head|) == Ok(WholeRequest(token, url, version, headers))
  {
    var head := Head(token, url, version, headers);
    WholeIs(token, url, version, headers, stale);
    var r := Fresh().(status := Methord);
    hide Head;
    assert Iterate(Fresh(), head + stale, |head|, 0, 0) == Iterate(r, head + stale, |head|, 0, 0);
  }

  /** If the first read ends behind the method, the comparisons stayed inside. */
  lemma FourBytes(token: string, buf: string, n: nat)
    requires Without(token, ' ') && |token| < n <= |buf| && buf[..|token|] == token && buf[|token|] == ' '
    requires Parse(Fresh(), buf, n).Ok?
    ensures 4 <= |buf|
  {
    var r, a := Fresh().(status := Methord), |token|;
    assert Iterate(Fresh(), buf, n, 0, 0) == Iterate(r, buf, n, 0, 0);
    assert Rest(buf, n, At(Fresh(), 0, 0)) == Rest(buf, n, At(r, 0, 0));
    assert buf[0..0 + a] == buf[..a];
    SliceWithout(buf, 0, a, ' ');
    Skip(r, buf, n, 0, a, 0);
    assert Iterate(r, buf, n, a, 0).At?;
    assert MethodInside(buf, 0);
  }

  /** Behind the method both comparisons have their answer. */
  lemma SameMethod(token: string, head: string, buf: string, n: nat)
    requires Without(token, ' ') && |token| < n <= |head| && n <= |buf| && 4 <= |head| && 4 <= |buf|
    requires head[..n] == buf[..n] && head[..|token|] == token && head[|token|] == ' '
    ensures MethodOf(buf) == MethodOf(head)
  {
    var a := |token|;
    assert forall k :: 0 <= k < n ==> head[k] == head[..n][k] == buf[k];
    if 4 <= n {
      assert head[..4] == buf[..4];
      SameStart(buf, head);
    } else {
      assert head[0..3][a] == ' ' && buf[0..3][a] == ' ';
      assert head[0..4][a] == ' ' && buf[0..4][a] == ' ';
    }
  }

  lemma EnoughBytes(token: string, url: string, version: string, headers: seq<string>, n: nat, stale: string)
    requires WellFormed(token, url, version, headers) && |token| < n <= |Head(token, url, version, headers)|
    requires FirstOf(Head(token, url, version, headers), n, stale).Ok?
    ensures 4 <= |Head(token, url, version, headers)[..n] + stale|
  {
    PrefixMethod(token, url, version, headers, n, stale);
    hide Head;
    FourBytes(token, Head(token, url, version, headers)[..n] + stale, n);
  }

  lemma CutInUrl(token: string, url: string, version: string, headers: seq<string>,
                 n: nat, stale1: string, stale2: string)
    requires WellFormed(token, url, version, headers) && headers != [] && Without(url, '\0')
    requires UrlAt(token) <= n <= UrlAt(token) + |url|
    ensures n <= |Head(token, url, version, headers)|
    ensures SameIffHarmless(token, url, version, headers, n, stale1, stale2)
  {
    var head, k := Head(token, url, version, headers), n - UrlAt(token);
    SuffixInUrl(token, url, version, headers, n);
    Twice(head, n, stale1, stale2);
    WholeIs(token, url, version, headers, stale2);
    if FirstOf(head, n, stale1).Ok? {
      var url1, url2 := url[..k], url[k..];
      EnoughBytes(token, url, version, headers, n, stale1);
      UrlParts(token, url, version, headers, n, stale1);
      var r := FirstOf(head, n, stale1).r;
      ReadSecondPart(r, url2, version, headers, stale2);
      ZerosDoNotHide(url1, url2);
      assert url == url1 + url2;
      hide Head, Parse, MethodOf, Without, Fresh, Tail, Lines, ParseAll, WellFormed, HeaderLine;
    }
  }

  lemma UrlParts(token: string, url: string, version: string, headers: seq<string>, n: nat, stale: string)
    requires WellFormed(token, url, version, headers) && UrlAt(token) <= n <= UrlAt(token) + |url|
    requires n <= |Head(token, url, version, headers)| && 4 <= |Head(token, url, version, headers)|
    requires 4 <= |Head(token, url, version, headers)[..n] + stale|
    ensures var head, k := Head(token, url, version, headers), n - UrlAt(token);
      && Without(url[..k], ' ') && Without(url[k..], ' ')
      && FirstOf(head, n, stale) == Ok(Fresh().(methd := MethodOf(head), status := Url))
  {
    var head, k := Head(token, url, version, headers), n - UrlAt(token);
    var buf := head[..n] + stale;
    HeadLayout(token, url, version, headers);
    PrefixMethod(token, url, version, headers, n, stale);
    assert head[..n] == token + " " + url[..k] by { UrlPrefix(token, url, version, headers, n); }
    hide Head, Lines;
    SameMethod(token, head, buf, n);
    ReadFirstPart(token, url[..k], stale);
  }

  lemma UrlPrefix(token: string, url: string, version: string, headers: seq<string>, n: nat)
    requires UrlAt(token) <= n <= UrlAt(token) + |url| && n <= |Head(token, url, version, headers)|
    ensures Head(token, url, version, headers)[..n] == token + " " + url[..n - UrlAt(token)]
  {
    var back := Back(version, Lines(headers));
    hide Lines, Back;
    assert Head(token, url, version, headers) == (token + " " + url) + (" " + back);
    assert (token + " " + url)[..n] == token + " " + url[..n - UrlAt(token)];
  }

  /** The method, the URL and nothing else stored. */
  function LineSoFar(head: string, url: string, status: Status, proto: Option<Protocol>): Request
    requires 4 <= |head| && |url| <= URL_SIZE
  {
    Request(status, MethodOf(head), proto, url + Fresh().url[|url|..], map[])
  }

  /** A first read that ends behind the second space gets to the protocol. */
  lemma UpToProto(token: string, url: string, version: string, headers: seq<string>, n: nat, stale: string)
    requires WellFormed(token, url, version, headers) && ProtoAt(token, url) <= n
    requires n <= |Head(token, url, version, headers)| && 4 <= |Head(token, url, version, headers)|
    requires 4 <= |Head(token, url, version, headers)[..n] + stale|
    ensures var head, p := Head(token, url, version, headers), ProtoAt(token, url);
      FirstOf(head, n, stale) == Rest(head[..n] + stale, n, At(LineSoFar(head, url, Proto, None), p, p))
  {
    var head := Head(token, url, version, headers);
    var buf := head[..n] + stale;
    HeadLayout(token, url, version, headers);
    PrefixMethod(token, url, version, headers, n, stale);
    PrefixUrl(token, url, version, headers, n, stale);
    hide Head, Lines;
    SameMethod(token, head, buf, n);
    hide MethodOf, Rest, Parse, Fresh, Without;
    ReadTokenAndUrl(token, url, buf, n);
  }

  lemma InsideProto(r: Request, buf: string, n: nat, p: nat)
    requires Holds(buf, n) && |r.url| == URL_SIZE && r.status == Proto && p <= n <= p + 4
    requires buf[p..n] == "HTTP"[..n - p]
    ensures Rest(buf, n, At(r, p, p)) == Ok(r)
  {
    assert forall k :: 0 <= k < n - p ==> buf[p..n][k] == "HTTP"[k];
    SliceWithout(buf, p, n - p, '/');
    Skip(r, buf, n, p, n, p);
  }

  /** The rest of the protocol's name alone is not recognised. */
  lemma LostProto(r: Request, k: nat, rest: string, stale: string)
    requires r.status == Proto && |r.url| == URL_SIZE && r.proto == None && 1 <= k <= 4
    ensures var text := "HTTP"[k..] + ("/" + rest);
      var o := Parse(r, text + stale, |text|); o.Ok? ==> o.r.proto == None
  {
    var text := "HTTP"[k..] + ("/" + rest);
    var buf, n, j := text + stale, |text|, 4 - k;
    assert buf[0..0 + j] == "HTTP"[k..] && buf[j] == '/';
    SliceWithout(buf, 0, j, '/');
    Skip(r, buf, n, 0, j, 0);
    var p := Iterate(r, buf, n, j, 0);
    if p.At? {
      assert p.r == r.(status := Version);
      ScanAdvances(p.r, buf, n, p.i, p.begin);
    }
    assert Parse(r, buf, n) == Rest(buf, n, At(r, j, 0));
  }

  lemma CutInProto(token: string, url: string, version: string, headers: seq<string>,
                   n: nat, stale1: string, stale2: string)
    requires WellFormed(token, url, version, headers) && headers != []
    requires ProtoAt(token, url) <= n <= ProtoAt(token, url) + 4
    ensures n <= |Head(token, url, version, headers)|
    ensures SameIffHarmless(token, url, version, headers, n, stale1, stale2)
  {
    var head, p := Head(token, url, version, headers), ProtoAt(token, url);
    SuffixInProto(token, url, version, headers, n);
    Twice(head, n, stale1, stale2);
    WholeIs(token, url, version, headers, stale2);
    if FirstOf(head, n, stale1).Ok? {
      EnoughBytes(token, url, version, headers, n, stale1);
      UpToProto(token, url, version, headers, n, stale1);
      PrefixUrl(token, url, version, headers, n, stale1);
      PrefixProto(token, url, version, headers, n, stale1);
      var r := LineSoFar(head, url, Proto, None);
      InsideProto(r, head[..n] + stale1, n, p);
      if n == p {
        ProtoToEnd(r, version, headers, stale2);
      } else {
        LostProto(r, n - p, version + ("\r\n" + Lines(headers)), stale2);
      }
      hide Head, Parse, MethodOf, Fresh, Lines, ParseAll, WellFormed, HeaderLine, Rest;
    }
  }

  lemma ProtoToEnd(r: Request, version: string, headers: seq<string>, stale: string)
    requires r.status == Proto && |r.url| == URL_SIZE && Without(version, '\r')
    requires headers != [] && forall h :: 0 <= h < |headers| ==> HeaderLine(headers[h])
    ensures var text := "HTTP" + ("/" + (version + ("\r\n" + Lines(headers))));
      "HTTP"[0..] + ("/" + (version + ("\r\n" + Lines(headers)))) == text
      && Parse(r, text + stale, |text|) == Ok(r.(proto := Some(HTTP), status := Finish))
  {
    var text := Back(version, Lines(headers));
    var buf, n, c := text + stale, |text|, 7 + |version|;
    assert buf[0..] == text + stale;
    LayoutBack(version, Lines(headers), buf, 0, stale);
    assert c + |Lines(headers)| == n;
    FrontOf(buf, c, n, Lines(headers), stale);
    assert "HTTP"[0..] == "HTTP";
    assert Parse(r, buf, n) == Rest(buf, n, At(r, 0, 0));
    hide ScanFrom, Rest, Lines, HeaderLine, Without, ProtoAndVersion, Parse;
    ReadToEnd(r, version, headers, buf, n, 0);
  }

  /** A first read that ends behind the slash gets to the version. */
  lemma UpToVersion(token: string, url: string, version: string, headers: seq<string>, n: nat, stale: string)
    requires WellFormed(token, url, version, headers) && VersionAt(token, url) <= n
    requires n <= |Head(token, url, version, headers)| && 4 <= |Head(token, url, version, headers)|
    requires 4 <= |Head(token, url, version, headers)[..n] + stale|
    ensures var head, v := Head(token, url, version, headers), VersionAt(token, url);
      FirstOf(head, n, stale) == Rest(head[..n] + stale, n, At(LineSoFar(head, url, Version, Some(HTTP)), v, v))
  {
    var head, p := Head(token, url, version, headers), ProtoAt(token, url);
    var buf := head[..n] + stale;
    UpToProto(token, url, version, headers, n, stale);
    PrefixUrl(token, url, version, headers, n, stale);
    PrefixProto(token, url, version, headers, n, stale);
    hide Head, MethodOf, Rest, Parse, Fresh, Without, WellFormed;
    ReadProto(LineSoFar(head, url, Proto, None), buf, n, p);
  }

  lemma InsideVersion(r: Request, buf: string, n: nat, v: nat, part: string)
    requires Holds(buf, n) && |r.url| == URL_SIZE && r.status == Version && v + |part| == n
    requires buf[v..n] == part && Without(part, '\r')
    ensures Rest(buf, n, At(r, v, v)) == Ok(r)
  {
    SliceWithout(buf, v, n - v, '\r');
    Skip(r, buf, n, v, n, v);
  }

  lemma CutInVersion(token: string, url: string, version: string, headers: seq<string>,
                     n: nat, stale1: string, stale2: string)
    requires WellFormed(token, url, version, headers) && headers != []
    requires VersionAt(token, url) <= n <= LineEndAt(token, url, version)
    ensures n <= |Head(token, url, version, headers)|
    ensures SameIffHarmless(token, url, version, headers, n, stale1, stale2)
  {
    var head, v := Head(token, url, version, headers), VersionAt(token, url);
    SuffixInVersion(token, url, version, headers, n);
    Twice(head, n, stale1, stale2);
    WholeIs(token, url, version, headers, stale2);
    if FirstOf(head, n, stale1).Ok? {
      UpToVersion(token, url, version, headers, n, stale1);
      PrefixUrl(token, url, version, headers, n, stale1);
      PrefixVersion(token, url, version, headers, n, stale1);
      var r, k := LineSoFar(head, url, Version, Some(HTTP)), n - v;
      assert Without(version[..k], '\r') && Without(version[k..], '\r');
      InsideVersion(r, head[..n] + stale1, n, v, version[..k]);
      VersionToEnd(r, version[k..], headers, stale2);
      hide Head, Parse, MethodOf, Fresh, Lines, ParseAll, WellFormed, HeaderLine, Rest;
    }
  }

  // -------------------------------------------------- cuts at and behind the line end

  lemma AtLineEnd(r: Request, buf: string, n: nat, v: nat, part: string)
    requires Holds(buf, n) && |r.url| == URL_SIZE && r.status == Version && v + |part| + 1 == n
    requires buf[v..v + |part|] == part && Without(part, '\r') && buf[n - 1] == '\r'
    ensures var o := Rest(buf, n, At(r, v, v));
      o.Ok? ==> o.r == r.(status := o.r.status) && o.r.status in {Version, RequestHead}
  {
    SliceWithout(buf, v, |part|, '\r');
    Skip(r, buf, n, v, n - 1, v);
    var p := Iterate(r, buf, n, n - 1, v);
    if p.At? {
      assert Rest(buf, n, At(p.r, p.i, p.begin)) == Ok(p.r);
      ScanStep(r, buf, n, n - 1, v, p);
    }
  }

  lemma CutAtLineEnd(token: string, url: string, version: string, headers: seq<string>,
                     n: nat, stale1: string, stale2: string)
    requires WellFormed(token, url, version, headers) && headers != []
    requires n == LineEndAt(token, url, version) + 1
    ensures n <= |Head(token, url, version, headers)|
    ensures SameIffHarmless(token, url, version, headers, n, stale1, stale2)
  {
    var head, v, lines := Head(token, url, version, headers), VersionAt(token, url), Lines(headers);
    HeadLayout(token, url, version, headers);
    SuffixInLines(token, url, version, headers, n);
    Twice(head, n, stale1, stale2);
    WholeIs(token, url, version, headers, stale2);
    if FirstOf(head, n, stale1).Ok? {
      UpToVersion(token, url, version, headers, n, stale1);
      PrefixUrl(token, url, version, headers, n, stale1);
      PrefixVersion(token, url, version, headers, n, stale1);
      var r := LineSoFar(head, url, Version, Some(HTTP));
      AtLineEnd(r, head[..n] + stale1, n, v, version);
      AfterLineFeed(FirstOf(head, n, stale1).r, headers, stale2);
      hide Head, Parse, MethodOf, Fresh, Lines, ParseAll, WellFormed, HeaderLine, Rest, RestOfLines, Without;
    }
  }

  /** A line feed in front of the first header line. */
  lemma LineFeedFirst(headers: seq<string>)
    requires headers != [] && forall h :: 0 <= h < |headers| ==> HeaderLine(headers[h])
    ensures RestOfLines(["\n" + headers[0]] + headers[1..])
    ensures Without("\n" + headers[0], '\r')
    ensures forall h :: 0 <= h < |headers[1..]| ==> HeaderLine(headers[1..][h])
  {
    var hs := ["\n" + headers[0]] + headers[1..];
    assert HeaderLine(headers[0]);
    assert Without(hs[0], '\r');
    hide HeaderLine, Without;
    assert forall k :: 0 <= k < |headers[1..]| ==> headers[1..][k] == headers[k + 1];
    assert forall k :: 1 <= k < |hs| ==> hs[k] == headers[k];
  }

  lemma LineFeedText(headers: seq<string>)
    requires headers != []
    ensures Lines(["\n" + headers[0]] + headers[1..]) == "\n" + Lines(headers) && 4 <= |Lines(headers)|
    ensures "\n" + Lines(headers) == "\n" + headers[0] + ("\r\n" + Lines(headers[1..]))
  {
    var hs := ["\n" + headers[0]] + headers[1..];
    assert hs[1..] == headers[1..];
    LinesOf(headers);
    LinesOf(hs);
    hide *;
    FrontAssociates(headers[0], Lines(headers[1..]));
  }

  lemma AfterLineFeed(r: Request, headers: seq<string>, stale: string)
    requires |r.url| == URL_SIZE && r.status in {Version, RequestHead}
    requires headers != [] && forall h :: 0 <= h < |headers| ==> HeaderLine(headers[h])
    ensures 4 <= |Lines(headers)|
    ensures var text := "\n" + Lines(headers);
      Parse(r, text + stale, |text|) == Ok(Done(r)) <==> r.status == RequestHead || 2 <= |headers|
  {
    LineFeedFirst(headers);
    LineFeedText(headers);
    hide Lines, Without, HeaderLine, RestOfLines, Parse;
    if r.status == Version {
      VersionToEnd(r, "\n" + headers[0], headers[1..], stale);
    } else {
      HeadersToEnd(r, ["\n" + headers[0]] + headers[1..], stale);
    }
  }

  lemma LinesOf(headers: seq<string>)
    requires headers != []
    ensures Lines(headers) == headers[0] + "\r\n" + Lines(headers[1..]) && 2 <= |Lines(headers[1..])|
  {
  }

  lemma FrontAssociates(h: string, rest: string)
    ensures ("\n" + h) + "\r\n" + rest == "\n" + (h + "\r\n" + rest)
    ensures "\n" + (h + "\r\n" + rest) == "\n" + h + ("\r\n" + rest)
  {
  }

  /** What is left of the lines, if the last line end and the empty line are whole. */
  lemma {:induction false} RestOf(headers: seq<string>, m: nat) returns (hs: seq<string>)
    requires forall h :: 0 <= h < |headers| ==> HeaderLine(headers[h])
    requires headers != [] && m + 4 <= |Lines(headers)|
    ensures RestOfLines(hs) && Lines(hs) == Lines(headers)[m..]
    decreases |headers|
  {
    var h, more := headers[0], headers[1..];
    var rest := Lines(more);
    assert HeaderLine(h) && Lines(headers) == h + "\r\n" + rest;
    assert forall k :: 0 <= k < |more| ==> more[k] == headers[k + 1];
    if m <= |h| {
      hs := [h[m..]] + more;
      assert hs[1..] == more && Lines(hs) == h[m..] + "\r\n" + rest;
      assert (h + "\r\n" + rest)[m..] == h[m..] + "\r\n" + rest;
    } else if m == |h| + 1 {
      assert more != [];
      LineFeedFirst(more);
      LineFeedText(more);
      hs := ["\n" + more[0]] + more[1..];
      assert (h + "\r\n" + rest)[m..] == "\n" + rest;
    } else {
      hs := RestOf(more, m - |h| - 2);
      assert (h + "\r\n" + rest)[m..] == rest[m - |h| - 2..];
    }
  }

  /** Otherwise it is less than that. */
  lemma LittleLeft(headers: seq<string>, m: nat)
    requires headers != [] && m <= |Lines(headers)| < m + 4
    ensures Lines(headers)[m..] in ["", "\n", "\r\n", "\n\r\n"]
  {
    BlankAtEnd(headers);
    var l := Lines(headers);
    assert l[m..] == l[|l| - 4..][m + 4 - |l|..];
  }

  lemma {:induction false} BlankAtEnd(headers: seq<string>)
    requires headers != []
    ensures 4 <= |Lines(headers)| && Lines(headers)[|Lines(headers)| - 4..] == "\r\n\r\n"
    decreases |headers|
  {
    var l, rest := Lines(headers), Lines(headers[1..]);
    assert l == headers[0] + "\r\n" + rest;
    if |headers| > 1 {
      BlankAtEnd(headers[1..]);
      assert l[|l| - 4..] == rest[|rest| - 4..];
    } else {
      assert l[|l| - 4..] == "\r\n\r\n";
    }
  }

  lemma NoBlankYet(headers: seq<string>, head: string, buf: string, n: nat, h: nat)
    requires forall k :: 0 <= k < |headers| ==> HeaderLine(headers[k])
    requires h <= n <= |head| && head[h..] == Lines(headers) && n <= |buf| && buf[..n] == head[..n]
    ensures NoBlank(buf, h, n)
  {
    forall j: nat | h <= j && j + 4 < n ensures !BlankAt(buf, j) {
      if BlankAt(buf, j) {
        assert forall k :: j <= k < j + 4 ==> buf[k] == buf[..n][k] == head[k] == head[h..][k - h];
        BlankOnlyAtEnd(headers, j - h);
      }
    }
  }

  /** What a first call that ends in the header lines leaves. */
  lemma UpToHeaders(token: string, url: string, version: string, headers: seq<string>, n: nat, stale: string)
    requires WellFormed(token, url, version, headers)
    requires LineEndAt(token, url, version) + 2 <= n <= |Head(token, url, version, headers)|
    requires 4 <= |Head(token, url, version, headers)| && FirstOf(Head(token, url, version, headers), n, stale).Ok?
    ensures var head := Head(token, url, version, headers);
      var r := FirstOf(head, n, stale).r;
      r == LineSoFar(head, url, r.status, Some(HTTP)) && r.status in {RequestHead, Content, Finish}
  {
    var head, h := Head(token, url, version, headers), LineEndAt(token, url, version) + 2;
    var buf, v := head[..n] + stale, VersionAt(token, url);
    HeadLayout(token, url, version, headers);
    UpToVersion(token, url, version, headers, n, stale);
    PrefixVersion(token, url, version, headers, n, stale);
    assert n <= |buf| && buf[..n] == head[..n];
    assert Without(version, '\r') && forall k :: 0 <= k < |headers| ==> HeaderLine(headers[k]);
    assert buf[v..v + |version|] == version;
    assert buf[v + |version|] == '\r' && buf[v + |version| + 1] == '\n';
    hide Head, Lines, MethodOf, Fresh, WellFormed, HeaderLine, Rest, Parse, NoBlank, Without, ProtoAndVersion;
    NoBlankYet(headers, head, buf, n, h);
    LineThenHeaders(LineSoFar(head, url, Version, Some(HTTP)), buf, n, v, version);
  }

  lemma LineThenHeaders(r: Request, buf: string, n: nat, v: nat, version: string)
    requires Holds(buf, n) && |r.url| == URL_SIZE && r.status == Version && v + |version| + 2 <= n
    requires buf[v..v + |version|] == version && Without(version, '\r')
    requires buf[v + |version|] == '\r' && buf[v + |version| + 1] == '\n' && NoBlank(buf, v + |version| + 2, n)
    ensures var o := Rest(buf, n, At(r, v, v));
      o.Ok? ==> o.r == r.(status := o.r.status) && o.r.status in {RequestHead, Content, Finish}
  {
    hide Rest, NoBlank, Without;
    ReadVersion(r, buf, n, v, |version|);
    PartOfHeadersRest(r.(status := RequestHead), buf, n, v + |version| + 2);
  }

  lemma FailedCut(token: string, url: string, version: string, headers: seq<string>,
                  n: nat, stale1: string, stale2: string)
    requires WellFormed(token, url, version, headers) && headers != []
    requires n <= |Head(token, url, version, headers)|
    requires FirstOf(Head(token, url, version, headers), n, stale1).Failed?
    ensures SameIffHarmless(token, url, version, headers, n, stale1, stale2)
  {
    var head := Head(token, url, version, headers);
    Twice(head, n, stale1, stale2);
    WholeIs(token, url, version, headers, stale2);
    hide Head, Whole, FirstOf, TwoReads, WholeRequest, Parse, WellFormed;
  }

  lemma CutInHeaders(token: string, url: string, version: string, headers: seq<string>,
                     n: nat, stale1: string, stale2: string)
    requires WellFormed(token, url, version, headers) && headers != []
    requires LineEndAt(token, url, version) + 2 <= n <= |Head(token, url, version, headers)|
    ensures SameIffHarmless(token, url, version, headers, n, stale1, stale2)
  {
    hide *;
    if FirstOf(Head(token, url, version, headers), n, stale1).Failed? {
      FailedCut(token, url, version, headers, n, stale1, stale2);
    } else {
      var r := CutInLines(token, url, version, headers, n, stale1);
      HeadersAreLines(token, url, version, headers);
      SuffixInLines(token, url, version, headers, n);
      SecondInHeaders(r, headers, n - LineEndAt(token, url, version) - 2, stale2);
      Conclude(token, url, version, headers, n, stale1, stale2, r);
    }
  }

  lemma CutInLines(token: string, url: string, version: string, headers: seq<string>, n: nat, stale: string)
    returns (r: Request)
    requires WellFormed(token, url, version, headers) && headers != []
    requires LineEndAt(token, url, version) + 2 <= n <= |Head(token, url, version, headers)|
    requires FirstOf(Head(token, url, version, headers), n, stale).Ok?
    ensures FirstOf(Head(token, url, version, headers), n, stale) == Ok(r)
    ensures |r.url| == URL_SIZE && r.params == map[] && r.status in {RequestHead, Content, Finish}
    ensures |url| <= URL_SIZE && 4 <= |Head(token, url, version, headers)|
    ensures Done(r) == WholeRequest(token, url, version, headers)
  {
    r := FirstOf(Head(token, url, version, headers), n, stale).r;
    WholeIs(token, url, version, headers, stale);
    UpToHeaders(token, url, version, headers, n, stale);
    hide Head, FirstOf, Whole, Parse, MethodOf;
  }

  /** The iff for a cut in the header lines, from what the second call makes of the rest. */
  lemma Conclude(token: string, url: string, version: string, headers: seq<string>,
                 n: nat, stale1: string, stale2: string, r: Request)
    requires WellFormed(token, url, version, headers) && headers != []
    requires n <= |Head(token, url, version, headers)| && 4 <= |Head(token, url, version, headers)| && |url| <= URL_SIZE
    requires FirstOf(Head(token, url, version, headers), n, stale1) == Ok(r)
    requires |r.url| == URL_SIZE && r.status in {RequestHead, Content, Finish}
    requires Done(r) == WholeRequest(token, url, version, headers)
    requires var head := Head(token, url, version, headers);
      Parse(r, head[n..] + stale2, |head[n..]|) == Ok(Done(r)) <==>
      match r.status
      case RequestHead => 4 <= |head[n..]|
      case Content => head[n..] != "" && head[n..][0] == '\n'
      case _ => true
    ensures SameIffHarmless(token, url, version, headers, n, stale1, stale2)
  {
    var head := Head(token, url, version, headers);
    Twice(head, n, stale1, stale2);
    WholeIs(token, url, version, headers, stale2);
    hide Head, Whole, FirstOf, TwoReads, WholeRequest, Done, Parse, WellFormed, MethodOf;
    assert |head[n..]| == |head| - n;
    assert n < |head| ==> head[n..][0] == head[n];
  }

  lemma HeadersAreLines(token: string, url: string, version: string, headers: seq<string>)
    requires WellFormed(token, url, version, headers)
    ensures Without(version, '\r') && forall k :: 0 <= k < |headers| ==> HeaderLine(headers[k])
    ensures |url| <= URL_SIZE && (headers != [] ==> AllLines(headers))
  {
    hide Without, HeaderLine;
  }

  lemma SecondInHeaders(r: Request, headers: seq<string>, m: nat, stale: string)
    requires |r.url| == URL_SIZE && r.params == map[] && r.status in {RequestHead, Content, Finish}
    requires headers != [] && m <= |Lines(headers)| && forall h :: 0 <= h < |headers| ==> HeaderLine(headers[h])
    ensures var rest := Lines(headers)[m..];
      Parse(r, rest + stale, |rest|) == Ok(Done(r)) <==>
      match r.status
      case RequestHead => 4 <= |rest|
      case Content => rest != "" && rest[0] == '\n'
      case _ => true
  {
    var rest := Lines(headers)[m..];
    if r.status == RequestHead {
      RestOfHeaders(r, headers, m, stale);
    } else if r.status == Content {
      ContentToEnd(r, rest, stale);
    } else {
      FinishIsAbsorbing(r, rest + stale, |rest|, 0, 0);
    }
    hide Lines, HeaderLine;
  }

  /** From the state REQUEST_HEAD the end is found exactly if the last line end and the
      empty line are still to come. */
  lemma RestOfHeaders(r: Request, headers: seq<string>, m: nat, stale: string)
    requires r.status == RequestHead && |r.url| == URL_SIZE && headers != [] && m <= |Lines(headers)|
    requires forall h :: 0 <= h < |headers| ==> HeaderLine(headers[h])
    ensures var rest := Lines(headers)[m..];
      Parse(r, rest + stale, |rest|) == Ok(Done(r)) <==> m + 4 <= |Lines(headers)|
  {
    if m + 4 <= |Lines(headers)| {
      var hs := RestOf(headers, m);
      HeadersToEnd(r, hs, stale);
    } else {
      LittleLeft(headers, m);
      LessThanALine(r, Lines(headers)[m..], stale);
    }
    hide Lines, Parse;
  }

  // ------------------------------------------------ the state of the first call

  /** The state after the first m bytes of the header lines, with the stale bytes that
      the look-ahead takes for what comes next; None if it leaves the buffer. */
  function LinesState(headers: seq<string>, m: nat, stale: string): Option<Status>
    requires m <= |Lines(headers)|
  {
    if headers == [] then None
    else
      var end := |headers[0]|;
      if m <= end then Some(RequestHead)
      else if m == end + 1 then
        if stale == "" then None
        else if stale[0] != '\n' then Some(RequestHead)
        else BlankAhead(stale[1..])
      else if m == end + 2 then BlankAhead(stale)
      else if 1 < |headers| then LinesState(headers[1..], m - end - 2, stale)
      else if m == end + 3 then
        if stale == "" then None else Some(if stale[0] == '\n' then Finish else RequestHead)
      else Some(Finish)
  }

  /** Behind a line end: an empty line in the stale bytes is taken for the real one. */
  function BlankAhead(stale: string): Option<Status> {
    if stale == "" then None
    else if stale[0] != '\r' then Some(RequestHead)
    else if |stale| == 1 then None
    else Some(if stale[1] == '\n' then Content else RequestHead)
  }

  /** The state that the first call returns, read off the request, the cut and the stale
      bytes. */
  function FirstState(token: string, url: string, version: string, headers: seq<string>,
                      n: nat, stale: string): Option<Status>
    requires n <= |Head(token, url, version, headers)|
  {
    HeadLayout(token, url, version, headers);
    var e := LineEndAt(token, url, version);
    if n == 0 then Some(Start)
    else if n <= |token| then Some(Methord)
    else if n + |stale| < 4 then None
    else if n < ProtoAt(token, url) then Some(Url)
    else if n < VersionAt(token, url) then Some(Proto)
    else if n <= e then Some(Version)
    else if n == e + 1 then
      if stale == "" then None else Some(if stale[0] == '\n' then RequestHead else Version)
    else LinesState(headers, n - e - 2, stale)
  }

  lemma ScanEnds(r: Request, buf: string, n: nat, i: nat, begin: nat)
    requires Holds(buf, n) && InToken(r, i, begin) && i < n
    requires var p := Iterate(r, buf, n, i, begin); p.At? ==> n <= p.i
    ensures var p := Iterate(r, buf, n, i, begin);
      Rest(buf, n, At(r, i, begin)) == if p.At? then Ok(p.r) else Failed
  {
    var p := Iterate(r, buf, n, i, begin);
    if p.At? {
      assert ScanFrom(p.r, buf, n, p.i, p.begin) == Ok(p.r);
    }
    hide Iterate;
  }

  /** The line end is the last thing read, or its first half. */
  lemma AtLinesEnd(r: Request, buf: string, n: nat, i: nat, begin: nat, stale: string)
    requires Holds(buf, n) && |r.url| == URL_SIZE && r.status == RequestHead && i < n <= i + 2
    requires buf[i] == '\r' && (i + 1 < n ==> buf[i + 1] == '\n') && buf[n..] == stale
    ensures StateOf(Rest(buf, n, At(r, i, begin))) ==
      if n == i + 2 then BlankAhead(stale)
      else if stale == "" then None
      else if stale[0] != '\n' then Some(RequestHead)
      else BlankAhead(stale[1..])
  {
    assert forall k :: 0 <= k < |stale| ==> buf[n + k] == stale[k];
    ScanEnds(r, buf, n, i, begin);
  }

  /** All but the last byte of the empty line was read. */
  lemma AtBlankMiddle(r: Request, buf: string, n: nat, i: nat, begin: nat, stale: string)
    requires Holds(buf, n) && |r.url| == URL_SIZE && r.status == RequestHead && n == i + 3
    requires buf[i] == '\r' && buf[i + 1] == '\n' && buf[i + 2] == '\r' && buf[n..] == stale
    ensures StateOf(Rest(buf, n, At(r, i, begin))) ==
      if stale == "" then None else Some(if stale[0] == '\n' then Finish else RequestHead)
  {
    var p := Iterate(r, buf, n, i, begin);
    if stale == "" {
      ScanEnds(r, buf, n, i, begin);
    } else {
      assert buf[n] == stale[0];
      ScanStep(r, buf, n, i, begin, p);
      ScanEnds(p.r, buf, n, p.i, p.begin);
    }
  }

  /** The input from i to n is the beginning of the lines, and no more was read. */
  predicate LinesRead(buf: string, i: nat, n: nat, headers: seq<string>, stale: string) {
    && i <= n <= |buf| && n - i <= |Lines(headers)|
    && buf[i..n] == Lines(headers)[..n - i] && buf[n..] == stale
  }

  predicate AllLines(headers: seq<string>) {
    headers != [] && forall h :: 0 <= h < |headers| ==> HeaderLine(headers[h])
  }

  lemma {:induction false} LinesStateIs(r: Request, buf: string, n: nat, i: nat, begin: nat,
                                        headers: seq<string>, stale: string)
    requires |r.url| == URL_SIZE && r.status == RequestHead && AllLines(headers) && LinesRead(buf, i, n, headers, stale)
    ensures n - i <= |Lines(headers)|
    ensures StateOf(Rest(buf, n, At(r, i, begin))) == LinesState(headers, n - i, stale)
    decreases |headers|
  {
    hide *;
    NotEmpty(buf, i, n, headers, stale);
    if n - i <= |headers[0]| + 2 || |headers| == 1 {
      StateHere(r, buf, n, i, begin, headers, stale);
    } else {
      StateFurther(r, buf, n, i, begin, headers, stale);
      LinesStateIs(r, buf, n, i + |headers[0]| + 2, i + |headers[0]| + 2, headers[1..], stale);
    }
  }

  lemma NotEmpty(buf: string, i: nat, n: nat, headers: seq<string>, stale: string)
    requires AllLines(headers) && LinesRead(buf, i, n, headers, stale)
    ensures headers != [] && i <= n && n - i <= |Lines(headers)|
  {
  }

  lemma StateHere(r: Request, buf: string, n: nat, i: nat, begin: nat, headers: seq<string>, stale: string)
    requires |r.url| == URL_SIZE && r.status == RequestHead && AllLines(headers) && LinesRead(buf, i, n, headers, stale)
    requires n - i <= |headers[0]| + 2 || |headers| == 1
    ensures n - i <= |Lines(headers)|
    ensures StateOf(Rest(buf, n, At(r, i, begin))) == LinesState(headers, n - i, stale)
  {
    LineFacts(headers, n - i);
    LinesOf(headers);
    LinesStateStep(headers, n - i, stale);
    assert n <= |buf| && Holds(buf, n) && buf[n..] == stale;
    assert buf[i..n] == Lines(headers)[..n - i];
    hide *;
    OneLineState(r, buf, n, i, begin, headers[0], Lines(headers[1..]), stale);
  }

  lemma StateFurther(r: Request, buf: string, n: nat, i: nat, begin: nat, headers: seq<string>, stale: string)
    requires |r.url| == URL_SIZE && r.status == RequestHead && AllLines(headers) && LinesRead(buf, i, n, headers, stale)
    requires 1 < |headers| && |headers[0]| + 3 <= n - i
    ensures n - i <= |Lines(headers)|
    ensures var next := i + |headers[0]| + 2;
      && Rest(buf, n, At(r, i, begin)) == Rest(buf, n, At(r, next, next))
      && AllLines(headers[1..]) && LinesRead(buf, next, n, headers[1..], stale)
      && n - next <= |Lines(headers[1..])|
      && LinesState(headers, n - i, stale) == LinesState(headers[1..], n - next, stale)
  {
    hide *;
    NotEmpty(buf, i, n, headers, stale);
    FirstLineRead(buf, i, n, headers, stale);
    LinesFollow(headers);
    LinesStateStep(headers, n - i, stale);
    NextLineRead(r, buf, n, i, begin, headers[0]);
  }

  lemma LinesFollow(headers: seq<string>)
    requires AllLines(headers) && 1 < |headers|
    ensures AllLines(headers[1..]) && Without(headers[0], '\r')
    ensures Lines(headers[1..]) != "" && Lines(headers[1..])[0] != '\r'
  {
    LineFacts(headers, 0);
  }

  lemma FirstLineRead(buf: string, i: nat, n: nat, headers: seq<string>, stale: string)
    requires headers != [] && LinesRead(buf, i, n, headers, stale) && |headers[0]| + 3 <= n - i
    ensures var e, rest := i + |headers[0]|, Lines(headers[1..]);
      && Holds(buf, n) && n <= |buf|
      && buf[i..e] == headers[0] && buf[e] == '\r' && buf[e + 1] == '\n'
      && n - e - 2 <= |rest| && LinesRead(buf, e + 2, n, headers[1..], stale)
      && rest != "" && buf[e + 2] == rest[0]
  {
    LinesOf(headers);
    hide Lines;
    TextFurther(buf, i, n, headers[0], Lines(headers[1..]));
  }

  /** Behind the first line. */
  lemma TextFurther(buf: string, i: nat, n: nat, h: string, rest: string)
    requires i <= n <= |buf| && n - i <= |h + "\r\n" + rest| && buf[i..n] == (h + "\r\n" + rest)[..n - i]
    requires |h| + 3 <= n - i
    ensures var e := i + |h|;
      && buf[i..e] == h && buf[e] == '\r' && buf[e + 1] == '\n' && rest != "" && buf[e + 2] == rest[0]
      && n - e - 2 <= |rest| && buf[e + 2..n] == rest[..n - e - 2]
  {
    LinePieces(h, rest, buf, i, n);
  }

  lemma NextLineRead(r: Request, buf: string, n: nat, i: nat, begin: nat, h: string)
    requires Holds(buf, n) && n <= |buf| && |r.url| == URL_SIZE && r.status == RequestHead && i + |h| + 3 <= n
    requires Without(h, '\r') && buf[i..i + |h|] == h
    requires buf[i + |h|] == '\r' && buf[i + |h| + 1] == '\n' && buf[i + |h| + 2] != '\r'
    ensures var next := i + |h| + 2; Rest(buf, n, At(r, i, begin)) == Rest(buf, n, At(r, next, next))
  {
    hide *;
    ReadHeader(r, buf, n, i, |h|, begin);
  }

  lemma OneLineState(r: Request, buf: string, n: nat, i: nat, begin: nat, h: string, rest: string, stale: string)
    requires Holds(buf, n) && |r.url| == URL_SIZE && r.status == RequestHead && i <= n && buf[n..] == stale
    requires Without(h, '\r') && (n - i <= |h| ==> Without(h[..n - i], '\r')) && n <= |buf|
    requires n - i <= |h + "\r\n" + rest| && buf[i..n] == (h + "\r\n" + rest)[..n - i]
    requires n - i <= |h| + 2 || rest == "\r\n"
    ensures var m, end := n - i, |h|;
      StateOf(Rest(buf, n, At(r, i, begin))) ==
      if m <= end then Some(RequestHead)
      else if m == end + 1 then
        if stale == "" then None else if stale[0] != '\n' then Some(RequestHead) else BlankAhead(stale[1..])
      else if m == end + 2 then BlankAhead(stale)
      else if m == end + 3 then
        if stale == "" then None else Some(if stale[0] == '\n' then Finish else RequestHead)
      else Some(Finish)
  {
    hide *;
    LinePieces(h, rest, buf, i, n);
    if n - i <= |h| {
      LineText(r, buf, n, i, begin, h[..n - i]);
      KeepsState(r);
    } else {
      LineText(r, buf, n, i, begin, h);
      if n - i <= |h| + 2 {
        AtLinesEnd(r, buf, n, i + |h|, begin, stale);
      } else {
        LastLineState(r, buf, n, i + |h|, begin, stale);
      }
    }
  }

  lemma LineFacts(headers: seq<string>, m: nat)
    requires headers != [] && forall h :: 0 <= h < |headers| ==> HeaderLine(headers[h])
    ensures var h := headers[0]; Without(h, '\r') && (m <= |h| ==> Without(h[..m], '\r'))
    ensures forall h :: 0 <= h < |headers[1..]| ==> HeaderLine(headers[1..][h])
    ensures if |headers| == 1 then Lines(headers[1..]) == "\r\n" else Lines(headers[1..])[0] != '\r'
  {
    assert HeaderLine(headers[0]);
    assert forall k :: 0 <= k < |headers[1..]| ==> headers[1..][k] == headers[k + 1];
    if 1 < |headers| { NextLine(headers[1..]); }
    hide HeaderLine;
  }

  lemma LinesStateStep(headers: seq<string>, m: nat, stale: string)
    requires headers != [] && m <= |Lines(headers)|
    ensures var end := |headers[0]|;
      |Lines(headers)| == end + 2 + |Lines(headers[1..])| &&
      LinesState(headers, m, stale) ==
      if m <= end then Some(RequestHead)
      else if m == end + 1 then
        if stale == "" then None else if stale[0] != '\n' then Some(RequestHead) else BlankAhead(stale[1..])
      else if m == end + 2 then BlankAhead(stale)
      else if 1 < |headers| then LinesState(headers[1..], m - end - 2, stale)
      else if m == end + 3 then
        if stale == "" then None else Some(if stale[0] == '\n' then Finish else RequestHead)
      else Some(Finish)
  {
    hide BlankAhead;
  }

  lemma KeepsState(r: Request)
    ensures StateOf(Ok(r)) == Some(r.status)
  {
  }

  /** The empty line was read, or all but its last byte. */
  lemma LastLineState(r: Request, buf: string, n: nat, e: nat, begin: nat, stale: string)
    requires Holds(buf, n) && |r.url| == URL_SIZE && r.status == RequestHead && buf[n..] == stale
    requires e + 3 <= n <= e + 4 && buf[e] == '\r' && buf[e + 1] == '\n'
    requires buf[e + 2..n] == "\r\n"[..n - e - 2]
    ensures StateOf(Rest(buf, n, At(r, e, begin))) ==
      if n == e + 4 then Some(Finish)
      else if stale == "" then None
      else Some(if stale[0] == '\n' then Finish else RequestHead)
  {
    assert buf[e + 2] == buf[e + 2..n][0];
    hide Rest, ScanFrom;
    if n == e + 3 {
      AtBlankMiddle(r, buf, n, e, begin, stale);
    } else {
      assert buf[e + 3] == buf[e + 2..n][1];
      assert buf[e..e] == "";
      ReadLastHeader(r, buf, n, e, 0, begin);
      FinishIsAbsorbing(Done(r), buf, n, e + 2, e + 3);
      AtFinish(Done(r), buf, n, e + 2, e + 3);
    }
  }

  /** The text of a line as far as it was read. */
  lemma LineText(r: Request, buf: string, n: nat, i: nat, begin: nat, part: string)
    requires Holds(buf, n) && |r.url| == URL_SIZE && r.status == RequestHead && i + |part| <= n
    requires buf[i..i + |part|] == part && Without(part, '\r')
    ensures Rest(buf, n, At(r, i, begin)) == Rest(buf, n, At(r, i + |part|, begin))
    ensures i + |part| == n ==> Rest(buf, n, At(r, i, begin)) == Ok(r)
  {
    SliceWithout(buf, i, |part|, '\r');
    Skip(r, buf, n, i, i + |part|, begin);
  }

  /** A line, its end and what follows, as far as they were read. */
  lemma LinePieces(h: string, rest: string, buf: string, i: nat, n: nat)
    requires i <= n <= |buf| && n - i <= |h + "\r\n" + rest| && buf[i..n] == (h + "\r\n" + rest)[..n - i]
    ensures var m, e := n - i, i + |h|;
      if m <= |h| then buf[i..n] == h[..m]
      else
        && buf[i..e] == h && buf[e] == '\r' && (|h| + 2 <= m ==> buf[e + 1] == '\n')
        && (|h| + 2 <= m ==> buf[e + 2..n] == rest[..m - |h| - 2])
        && (|h| + 3 <= m ==> buf[e + 2] == rest[0])
  {
    var s, m, e := h + "\r\n" + rest, n - i, i + |h|;
    assert forall k :: 0 <= k < m ==> buf[i + k] == buf[i..n][k] == s[k];
    if |h| < m {
      assert buf[i..e] == buf[i..n][..|h|] == s[..|h|] == h;
      assert buf[e] == s[|h|];
      if |h| + 2 <= m {
        assert buf[e + 1] == s[|h| + 1];
        assert buf[e + 2..n] == buf[i..n][|h| + 2..];
        assert s[..m][|h| + 2..] == rest[..m - |h| - 2];
      }
    }
  }

  lemma StateInMethod(token: string, url: string, version: string, headers: seq<string>, n: nat, stale: string)
    requires WellFormed(token, url, version, headers) && 0 < n <= |token|
    ensures n <= |Head(token, url, version, headers)|
    ensures StateOf(FirstOf(Head(token, url, version, headers), n, stale)) == Some(Methord)
  {
    var head := Head(token, url, version, headers);
    HeadLayout(token, url, version, headers);
    assert forall k :: 0 <= k < n ==> (head[..n] + stale)[k] == head[..|token|][k] == token[k];
    hide Head, Parse;
    NoSpaceYet(head[..n] + stale, n);
  }

  lemma StateInProto(token: string, url: string, version: string, headers: seq<string>, n: nat, stale: string)
    requires WellFormed(token, url, version, headers) && ProtoAt(token, url) <= n < VersionAt(token, url)
    requires n <= |Head(token, url, version, headers)| && 4 <= |Head(token, url, version, headers)|
    requires 4 <= |Head(token, url, version, headers)[..n] + stale|
    ensures StateOf(FirstOf(Head(token, url, version, headers), n, stale)) == Some(Proto)
  {
    var head := Head(token, url, version, headers);
    UpToProto(token, url, version, headers, n, stale);
    PrefixProto(token, url, version, headers, n, stale);
    hide Head, MethodOf, Fresh, Parse, Rest;
    InsideProto(LineSoFar(head, url, Proto, None), head[..n] + stale, n, ProtoAt(token, url));
  }

  lemma StateInVersion(token: string, url: string, version: string, headers: seq<string>, n: nat, stale: string)
    requires WellFormed(token, url, version, headers)
    requires VersionAt(token, url) <= n <= LineEndAt(token, url, version) + 1
    requires n <= |Head(token, url, version, headers)| && 4 <= |Head(token, url, version, headers)|
    ensures StateOf(FirstOf(Head(token, url, version, headers), n, stale)) ==
      if n <= LineEndAt(token, url, version) then Some(Version)
      else if stale == "" then None else Some(if stale[0] == '\n' then RequestHead else Version)
  {
    var head, v, e := Head(token, url, version, headers), VersionAt(token, url), LineEndAt(token, url, version);
    var buf, r := head[..n] + stale, LineSoFar(head, url, Version, Some(HTTP));
    UpToVersion(token, url, version, headers, n, stale);
    PrefixVersion(token, url, version, headers, n, stale);
    assert n <= |buf| && buf[n..] == stale;
    HeadersAreLines(token, url, version, headers);
    hide Head, Lines, Fresh, MethodOf, Parse, WellFormed, Rest, HeaderLine;
    if n <= e {
      assert Without(version[..n - v], '\r');
      InsideVersion(r, buf, n, v, version[..n - v]);
    } else {
      LineEndState(r, buf, n, v, version, stale);
    }
  }

  lemma StateInLines(token: string, url: string, version: string, headers: seq<string>, n: nat, stale: string)
    requires WellFormed(token, url, version, headers) && headers != []
    requires LineEndAt(token, url, version) + 2 <= n <= |Head(token, url, version, headers)|
    requires 4 <= |Head(token, url, version, headers)|
    ensures |Head(token, url, version, headers)| == LineEndAt(token, url, version) + 2 + |Lines(headers)|
    ensures StateOf(FirstOf(Head(token, url, version, headers), n, stale))
         == LinesState(headers, n - LineEndAt(token, url, version) - 2, stale)
  {
    hide *;
    var head, v := Head(token, url, version, headers), VersionAt(token, url);
    Positions(token, url, version, n);
    HeadersAreLines(token, url, version, headers);
    LineSoFarFacts(head, url);
    LinesPrefix(token, url, version, headers, n, stale);
    UpToVersion(token, url, version, headers, n, stale);
    LineThenState(LineSoFar(head, url, Version, Some(HTTP)), head[..n] + stale, n, v, version, headers, stale);
  }

  lemma LineSoFarFacts(head: string, url: string)
    requires 4 <= |head| && |url| <= URL_SIZE
    ensures var r := LineSoFar(head, url, Version, Some(HTTP)); r.status == Version && |r.url| == URL_SIZE
  {
  }

  /** The end of the request line and the lines as far as they were read. */
  lemma LinesPrefix(token: string, url: string, version: string, headers: seq<string>, n: nat, stale: string)
    requires LineEndAt(token, url, version) + 2 <= n <= |Head(token, url, version, headers)|
    ensures var buf := Head(token, url, version, headers)[..n] + stale;
      var v, e := VersionAt(token, url), LineEndAt(token, url, version);
      && e == v + |version| && |Head(token, url, version, headers)| == e + 2 + |Lines(headers)|
      && n <= |buf| && Holds(buf, n)
      && buf[v..e] == version && buf[e] == '\r' && buf[e + 1] == '\n'
      && LinesRead(buf, e + 2, n, headers, stale)
  {
    var head, e := Head(token, url, version, headers), LineEndAt(token, url, version);
    var buf := head[..n] + stale;
    HeadLayout(token, url, version, headers);
    PrefixVersion(token, url, version, headers, n, stale);
    assert buf[e + 1] == '\n';
    hide Head, Lines, TokenAndUrl, ProtoAndVersion;
    assert n <= |buf| && buf[..n] == head[..n] && buf[n..] == stale;
    SameStretch(buf, head, n, e + 2, n);
    assert head[e + 2..n] == head[e + 2..][..n - e - 2];
  }

  lemma LineThenState(r: Request, buf: string, n: nat, v: nat, version: string, headers: seq<string>, stale: string)
    requires |r.url| == URL_SIZE && r.status == Version && Without(version, '\r') && AllLines(headers)
    requires var e := v + |version|;
      && e + 2 <= n <= |buf| && buf[v..e] == version && buf[e] == '\r' && buf[e + 1] == '\n'
      && Holds(buf, n) && LinesRead(buf, e + 2, n, headers, stale)
    ensures n - v - |version| - 2 <= |Lines(headers)|
    ensures StateOf(Rest(buf, n, At(r, v, v))) == LinesState(headers, n - v - |version| - 2, stale)
  {
    var h := v + |version| + 2;
    hide *;
    ReadVersion(r, buf, n, v, |version|);
    LinesStateIs(r.(status := RequestHead), buf, n, h, h, headers, stale);
  }

  /** The first call returns that state. */
  lemma FirstStateIs(token: string, url: string, version: string, headers: seq<string>, n: nat, stale: string)
    requires WellFormed(token, url, version, headers) && headers != []
    requires n <= |Head(token, url, version, headers)|
    ensures StateOf(FirstOf(Head(token, url, version, headers), n, stale))
         == FirstState(token, url, version, headers, n, stale)
  {
    var head := Head(token, url, version, headers);
    WholeIs(token, url, version, headers, stale);
    assert n == 0 ==> FirstOf(head, n, stale) == Ok(Fresh()) && Fresh().status == Start;
    assert |head[..n] + stale| == n + |stale|;
    hide Head, Lines, Parse, FirstOf, Whole, WholeRequest, MethodOf, LinesState, WellFormed, Fresh;
    if n == 0 {
    } else if n <= |token| {
      StateInMethod(token, url, version, headers, n, stale);
    } else if n + |stale| < 4 {
      if FirstOf(head, n, stale).Ok? { EnoughBytes(token, url, version, headers, n, stale); }
    } else if n < ProtoAt(token, url) {
      UrlParts(token, url, version, headers, n, stale);
    } else if n < VersionAt(token, url) {
      StateInProto(token, url, version, headers, n, stale);
    } else if n <= LineEndAt(token, url, version) + 1 {
      StateInVersion(token, url, version, headers, n, stale);
    } else {
      StateInLines(token, url, version, headers, n, stale);
    }
  }

  lemma LineEndState(r: Request, buf: string, n: nat, v: nat, part: string, stale: string)
    requires Holds(buf, n) && |r.url| == URL_SIZE && r.status == Version && v + |part| + 1 == n && buf[n..] == stale
    requires buf[v..v + |part|] == part && Without(part, '\r') && buf[n - 1] == '\r'
    ensures StateOf(Rest(buf, n, At(r, v, v))) ==
      if stale == "" then None else Some(if stale[0] == '\n' then RequestHead else Version)
  {
    SliceWithout(buf, v, |part|, '\r');
    Skip(r, buf, n, v, n - 1, v);
    assert stale != "" ==> buf[n] == stale[0];
    ScanEnds(r, buf, n, n - 1, v);
  }

  /** A printed request that is cut in two at any position, with any stale bytes behind
      either read: the two reads give exactly what one read gives if and only if the
      cut is harmless, which can be read off the request, the cut and the stale bytes. */
  lemma TwoReadsIff(token: string, url: string, version: string, headers: seq<string>,
                    n: nat, stale1: string, stale2: string)
    requires WellFormed(token, url, version, headers) && headers != [] && Without(url, '\0')
    requires n <= |Head(token, url, version, headers)|
    ensures var head := Head(token, url, version, headers);
      TwoReads(head, n, stale1, stale2) == Whole(token, url, version, headers, stale2)
      <==> Harmless(FirstState(token, url, version, headers, n, stale1), token, url, version, headers, n, stale2)
  {
    AtAnyPosition(token, url, version, headers, n, stale1, stale2);
    FirstStateIs(token, url, version, headers, n, stale1);
    hide Head, TwoReads, Whole, Harmless, FirstState, FirstOf;
  }

  lemma AtAnyPosition(token: string, url: string, version: string, headers: seq<string>,
                      n: nat, stale1: string, stale2: string)
    requires WellFormed(token, url, version, headers) && headers != [] && Without(url, '\0')
    requires n <= |Head(token, url, version, headers)|
    ensures SameIffHarmless(token, url, version, headers, n, stale1, stale2)
  {
    hide *;
    Positions(token, url, version, n);
    if n <= |token| {
      CutInMethod(token, url, version, headers, n, stale1, stale2);
    } else if n <= UrlAt(token) + |url| {
      CutInUrl(token, url, version, headers, n, stale1, stale2);
    } else if n <= ProtoAt(token, url) + 4 {
      CutInProto(token, url, version, headers, n, stale1, stale2);
    } else if n <= LineEndAt(token, url, version) {
      CutInVersion(token, url, version, headers, n, stale1, stale2);
    } else if n == LineEndAt(token, url, version) + 1 {
      CutAtLineEnd(token, url, version, headers, n, stale1, stale2);
    } else {
      CutInHeaders(token, url, version, headers, n, stale1, stale2);
    }
  }

  lemma Positions(token: string, url: string, version: string, n: nat)
    ensures UrlAt(token) == |token| + 1 && ProtoAt(token, url) == UrlAt(token) + |url| + 1
    ensures VersionAt(token, url) == ProtoAt(token, url) + 5
    ensures LineEndAt(token, url, version) == VersionAt(token, url) + |version|
  {
  }
}
