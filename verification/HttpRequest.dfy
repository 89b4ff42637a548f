/**
 The resumable HTTP request parser: one call of the state machine per chunk of
 input. The functions say what the loop over the bytes computes; the class does it
 in place.
 */
module HttpRequest {
  import opened Options
  import opened HttpParams

  datatype Status = Start | Methord | Url | Proto | Version | RequestHead | Content | Finish | Error

  datatype Method = GET | POST
  datatype Protocol = HTTP | HTTPS

  const URL_SIZE := 64

  /** The fields of a request. Method and protocol are not initialised by the
      program, which is None here. */
  datatype Request = Request(
    status: Status, methd: Option<Method>, proto: Option<Protocol>, url: string,
    params: map<string, string>)

  function Fresh(): Request {
    Request(Start, None, None, seq(URL_SIZE, _ => '\0'), map[])
  }

  /** After one iteration of the loop: where it goes on, or a fault: the program
      reads or writes outside an array, or follows a null pointer. */
  datatype Point = At(r: Request, i: nat, begin: nat) | Fault

  /** memcmp of the bytes at b with a constant. */
  predicate StartsWith(buf: string, b: nat, word: string)
    requires b + |word| <= |buf|
  {
    buf[b..b + |word|] == word
  }

  /** The caller's buffer: nread bytes were read into it. The look-ahead may touch the
      bytes after them. */
  predicate Holds(buf: string, nread: nat) {
    nread <= |buf|
  }

  /** The two comparisons with a method name stay inside the buffer. */
  predicate MethodInside(buf: string, b: nat) {
    b + 3 <= |buf| && (StartsWith(buf, b, "GET") || b + 4 <= |buf|)
  }

  /** The current token starts at or before the cursor. */
  predicate InToken(r: Request, i: nat, begin: nat) {
    |r.url| == URL_SIZE && (r.status in {Start, Methord, Url, Proto} ==> begin <= i)
  }

  /** The body of the loop, followed by the increment of i. */
  function Iterate(r: Request, buf: string, nread: nat, i: nat, begin: nat): (p: Point)
    requires Holds(buf, nread) && i < nread && InToken(r, i, begin)
    ensures p.At? ==> i < p.i && InToken(p.r, p.i, p.begin)
  {
    match r.status
    case Start =>
      MethordStep(r, buf, nread, i, begin)
    case Methord =>
      MethordStep(r, buf, nread, i, begin)
    case Url =>
      if buf[i] == ' ' then
        if i - begin > URL_SIZE then Fault
        else At(r.(url := buf[begin..i] + r.url[i - begin..], status := Proto), i + 1, i + 1)
      else At(r, i + 1, begin)
    case Proto =>
      if buf[i] == '/' then
        if begin + 4 > |buf| then Fault else
        var proto :=
          if StartsWith(buf, begin, "HTTP") && i - begin == 4 then Some(HTTP)
          else if StartsWith(buf, begin, "HTTP") && i - begin == 5 then Some(HTTPS)
          else r.proto;
        At(r.(proto := proto, status := Version), i + 1, i + 1)
      else At(r, i + 1, begin)
    case Version =>
      if buf[i] == '\r' then
        if i + 1 >= |buf| then Fault
        else if buf[i + 1] == '\n' then At(r.(status := RequestHead), i + 2, i + 2)
        else At(r, i + 2, begin)
      else At(r, i + 1, begin)
    case RequestHead =>
      if buf[i] == '\r' then
        if i + 1 >= |buf| then Fault
        else if buf[i + 1] == '\n' then
          if i + 2 >= |buf| then Fault
          else if buf[i + 2] == '\r' then
            if i + 3 >= |buf| then Fault
            else if buf[i + 3] == '\n' then
              At(r.(status := if i + 3 == nread - 1 || i + 3 == nread then Finish else Content), i + 2, i + 3)
            else At(r, i + 2, i + 3)
          else At(r, i + 2, i + 2)
        else At(r, i + 2, begin)
      else At(r, i + 1, begin)
    case Content =>
      if buf[i] == '\n' then At(r.(status := Finish), i + 1, begin)
      else
        // get_params copies the rest into an array of 128 bytes first
        var params := AddParams(r.params, CString(buf[i + 1..]));
        if nread - i - 1 > 128 || !Terminated(buf[i + 1..]) || params.None? then Fault
        else At(r.(params := params.value, status := Finish), i + 1, begin)
    case Finish => At(r, i + 1, begin)
    case Error => At(r, i + 1, begin)
  }

  /** The states READ_HTTP_START and METHORD; the error state stored for an unknown
      method is overwritten at once. */
  function MethordStep(r: Request, buf: string, nread: nat, i: nat, begin: nat): (p: Point)
    requires Holds(buf, nread) && i < nread && begin <= i && |r.url| == URL_SIZE
    ensures p.At? ==> i < p.i && InToken(p.r, p.i, p.begin)
  {
    if buf[i] == ' ' then
      if !MethodInside(buf, begin) then Fault else
      var m :=
        if StartsWith(buf, begin, "GET") then Some(GET)
        else if StartsWith(buf, begin, "POST") then Some(POST)
        else r.methd;
      At(r.(methd := m, status := Url), i + 1, i + 1)
    else At(r.(status := Methord), i + 1, begin)
  }

  datatype Outcome = Ok(r: Request) | Failed

  /** The rest of the loop. */
  function ScanFrom(r: Request, buf: string, nread: nat, i: nat, begin: nat): (o: Outcome)
    requires Holds(buf, nread) && InToken(r, i, begin)
    ensures o.Ok? ==> |o.r.url| == URL_SIZE
    decreases nread - i
  {
    if i >= nread then Ok(r)
    else
      match Iterate(r, buf, nread, i, begin)
      case Fault => Failed
      case At(r', i', begin') => ScanFrom(r', buf, nread, i', begin')
  }

  /** One call of read_http_status_machine. */
  function Parse(r: Request, buf: string, nread: nat): (o: Outcome)
    requires Holds(buf, nread) && |r.url| == URL_SIZE
    ensures o.Ok? ==> |o.r.url| == URL_SIZE
  {
    ScanFrom(r, buf, nread, 0, 0)
  }

  // ------------------------------------------------------------ whole runs

  function Phase(s: Status): nat {
    match s
    case Start => 0
    case Methord => 1
    case Url => 2
    case Proto => 3
    case Version => 4
    case RequestHead => 5
    case Content => 6
    case Finish => 7
    case Error => 8
  }

  /** What no later byte undoes. */
  ghost predicate Advances(r: Request, r': Request) {
    && Phase(r.status) <= Phase(r'.status) && r'.status != Error
    && (r.status == Finish ==> r' == r)
    && (Phase(r.status) > Phase(Methord) ==> r'.methd == r.methd)
    && (Phase(r.status) > Phase(Url) ==> r'.url == r.url)
    && (Phase(r.status) > Phase(Proto) ==> r'.proto == r.proto)
    && (Phase(r'.status) < Phase(Finish) ==> r'.params == r.params)
  }

  lemma IterateAdvances(r: Request, buf: string, nread: nat, i: nat, begin: nat)
    requires Holds(buf, nread) && i < nread && InToken(r, i, begin) && r.status != Error
    ensures var p := Iterate(r, buf, nread, i, begin); p.At? ==> Advances(r, p.r)
  {
  }

  lemma {:induction false} ScanAdvances(r: Request, buf: string, nread: nat, i: nat, begin: nat)
    requires Holds(buf, nread) && InToken(r, i, begin) && r.status != Error
    ensures var o := ScanFrom(r, buf, nread, i, begin); o.Ok? ==> Advances(r, o.r)
    decreases nread - i
  {
    if i < nread {
      IterateAdvances(r, buf, nread, i, begin);
      var p := Iterate(r, buf, nread, i, begin);
      hide Iterate;
      if p.At? {
        ScanAdvances(p.r, buf, nread, p.i, p.begin);
      }
    }
  }

  /** A chunk: a buffer and how many of its bytes were read. */
  datatype Chunk = Chunk(buf: string, nread: nat)

  predicate Readable(chunks: seq<Chunk>) {
    forall c :: 0 <= c < |chunks| ==> Holds(chunks[c].buf, chunks[c].nread)
  }

  /** Feeding chunk after chunk to the state machine. */
  function ParseAll(r: Request, chunks: seq<Chunk>): (o: Outcome)
    requires Readable(chunks) && |r.url| == URL_SIZE
    decreases |chunks|
  {
    if chunks == [] then Ok(r)
    else
      var o := Parse(r, chunks[0].buf, chunks[0].nread);
      if o.Failed? then Failed else ParseAll(o.r, chunks[1..])
  }

  /** Over any sequence of chunks the phase never moves backwards, ERROR is never
      reported, fields that were read are not overwritten by a later phase, and
      FINISH is absorbing and freezes the request. */
  lemma {:induction false} ChunksAdvance(r: Request, chunks: seq<Chunk>)
    requires Readable(chunks) && |r.url| == URL_SIZE && r.status != Error
    ensures var o := ParseAll(r, chunks); o.Ok? ==> Advances(r, o.r)
    decreases |chunks|
  {
    if chunks != [] {
      ScanAdvances(r, chunks[0].buf, chunks[0].nread, 0, 0);
      var o := Parse(r, chunks[0].buf, chunks[0].nread);
      if o.Ok? {
        ChunksAdvance(o.r, chunks[1..]);
      }
    }
  }

  /** A finished request accepts any further input without a fault. */
  lemma {:induction false} FinishIsAbsorbing(r: Request, buf: string, nread: nat, i: nat, begin: nat)
    requires Holds(buf, nread) && InToken(r, i, begin) && r.status == Finish
    ensures ScanFrom(r, buf, nread, i, begin) == Ok(r)
    decreases nread - i
  {
    if i < nread {
      FinishIsAbsorbing(r, buf, nread, i + 1, begin);
    }
  }

  // -------------------------------------------------------- the class itself

  class HttpRequest {
    var rhs: Status
    var methd: Option<Method>
    var proto: Option<Protocol>
    var url: array<char>
    var content: map<string, string>

    ghost predicate Valid()
      reads this
    {
      url.Length == URL_SIZE
    }

    ghost function View(): (r: Request)
      reads this, url
      requires Valid()
      ensures |r.url| == URL_SIZE
    {
      Request(rhs, methd, proto, url[..], content)
    }

    constructor ()
      ensures Valid() && fresh(url) && View() == Fresh()
    {
      rhs, methd, proto, content := Start, None, None, map[];
      url := new char[URL_SIZE](_ => '\0');
    }

    /** read_http_status_machine, on any input on which it stays inside its arrays. The
        parameters are cut out of the buffer, which is not looked at after that. */
    method ReadHttpStatusMachine(buf: array<char>, nread: nat) returns (status: Status)
      requires Valid() && buf != url
      requires Holds(buf[..], nread)
      requires Parse(View(), buf[..], nread).Ok?
      modifies this, url, buf
      ensures Valid() && url == old(url)
      ensures Ok(View()) == Parse(old(View()), old(buf[..]), nread)
      ensures status == rhs
    {
      ghost var text, result := buf[..], Parse(View(), buf[..], nread);
      var begin, i := 0, 0;
      while i < nread
        invariant Valid() && url == old(url) && buf.Length == |text|
        invariant InToken(View(), i, begin)
        invariant rhs != Finish ==> buf[..] == text
        invariant result.Ok? && ScanFrom(View(), text, nread, i, begin) == result
        decreases nread - i
      {
        i, begin := Step(buf, nread, i, begin, text);
      }
      status := rhs;
    }

    /** The switch in the loop, and the increment. */
    method Step(buf: array<char>, nread: nat, i0: nat, begin0: nat, ghost text: string) returns (i: nat, begin: nat)
      requires Valid() && buf != url && buf.Length == |text|
      requires Holds(text, nread) && i0 < nread && InToken(View(), i0, begin0)
      requires rhs != Finish ==> buf[..] == text
      requires Iterate(View(), text, nread, i0, begin0).At?
      modifies this, url, buf
      ensures Valid() && url == old(url)
      ensures At(View(), i, begin) == Iterate(old(View()), text, nread, i0, begin0)
      ensures rhs != Finish ==> buf[..] == text
    {
      hide AddParams, CString, Find, StartsWith, Terminated, MethodInside;
      i, begin := i0, begin0;
      match rhs {
        case Start =>
          rhs := Methord;
          begin := ReadMethord(buf, i, begin);
        case Methord =>
          begin := ReadMethord(buf, i, begin);
        case Url =>
          if buf[i] == ' ' {
            StoreUrl(buf, begin, i);
            begin := i + 1;
            rhs := Proto;
          }
        case Proto =>
          if buf[i] == '/' {
            StoreProto(buf, begin, i);
            begin := i + 1;
            rhs := Version;
          }
        case Version =>
          if buf[i] == '\r' {
            i := i + 1;
            if buf[i] == '\n' {
              begin := i + 1;
              rhs := RequestHead;
            }
          }
        case RequestHead =>
          if buf[i] == '\r' {
            i := i + 1;
            if buf[i] == '\n' {
              begin := i + 1;
              if buf[begin] == '\r' {
                begin := begin + 1;
                if buf[begin] == '\n' {
                  rhs := Content;
                  if begin == nread - 1 || begin == nread { rhs := Finish; }
                }
              }
            }
          }
        case Content =>
          if buf[i] != '\n' {
            assert buf[i + 1..] == text[i + 1..];
            content := GetParams(buf, i + 1, content);
          }
          rhs := Finish;
        case Finish =>
        case Error =>
      }
      i := i + 1;
    }

    /** memcpy into the url field: only a prefix of it is overwritten. */
    method StoreUrl(buf: array<char>, begin: nat, i: nat)
      requires Valid() && buf != url && begin <= i < buf.Length && i - begin <= URL_SIZE
      modifies url
      ensures url[..] == buf[begin..i] + old(url[..])[i - begin..]
    {
      forall k | 0 <= k < i - begin {
        url[k] := buf[begin + k];
      }
    }

    method StoreProto(buf: array<char>, begin: nat, i: nat)
      requires begin <= i && begin + 4 <= buf.Length
      modifies this`proto
      ensures proto ==
        if StartsWith(buf[..], begin, "HTTP") && i - begin == 4 then Some(HTTP)
        else if StartsWith(buf[..], begin, "HTTP") && i - begin == 5 then Some(HTTPS)
        else old(proto)
    {
      assert buf[..][begin..begin + 4] == buf[begin..begin + 4];
      if buf[begin..begin + 4] == "HTTP" && i - begin == 4 {
        proto := Some(HTTP);
      } else if buf[begin..begin + 4] == "HTTP" && i - begin == 5 {
        proto := Some(HTTPS);
      }
    }

    method ReadMethord(buf: array<char>, i: nat, begin0: nat) returns (begin: nat)
      requires begin0 <= i < buf.Length && Valid() && buf != url && rhs == Methord
      requires MethordStep(View(), buf[..], i + 1, i, begin0).At?
      modifies this`methd, this`rhs
      ensures At(View(), i + 1, begin) == MethordStep(old(View()), buf[..], i + 1, i, begin0)
    {
      begin := begin0;
      if buf[i] == ' ' {
        if buf[begin..begin + 3] == "GET" {
          methd := Some(GET);
        } else if buf[begin..begin + 4] == "POST" {
          methd := Some(POST);
        } else {
          rhs := Error;
        }
        begin := i + 1;
        rhs := Url;
      }
    }
  }
}
