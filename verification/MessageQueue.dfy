/**
 The message-queue frame: built with a checksum by the client, checked by the
 server, and passed through a buffer whose push_back never advances its length.
 */
module MessageQueue {
  import opened Options

  type byte = x: int | 0 <= x < 256

  const BUFSIZE := 1024
  const PUBLISH: byte := 1

  // ------------------------------------------------------------------ buffer

  /** Size after a push_back of n bytes: the buffer doubles, once, when more than
      two thirds of it would be in use. */
  function SizeFor(size: nat, len: nat, n: nat): nat {
    if n + len > 2 * size / 3 then 2 * size else size
  }

  /** memcpy to position p of the array. */
  method Copy(a: array<byte>, p: nat, buf: seq<byte>)
    requires p + |buf| <= a.Length
    modifies a
    ensures a[..] == old(a[..p]) + buf + old(a[p + |buf|..])
  {
    forall i | 0 <= i < |buf| {
      a[p + i] := buf[i];
    }
  }

  class Buffer {
    var ptr: array<byte>
    var len: nat

    ghost predicate Valid()
      reads this
    {
      len <= ptr.Length
    }

    constructor ()
      ensures Valid() && fresh(ptr) && len == 0
      ensures ptr[..] == Zeros(BUFSIZE)
    {
      ptr := new byte[BUFSIZE](_ => 0);
      len := 0;
    }

    /** The new block is zeroed and receives the first len bytes of the old one. */
    method Expand()
      requires Valid()
      modifies this
      ensures Valid() && fresh(ptr) && len == old(len)
      ensures ptr[..] == old(ptr[..len]) + Zeros(2 * old(ptr.Length) - len)
    {
      var block := new byte[2 * ptr.Length](_ => 0);
      forall i | 0 <= i < len {
        block[i] := ptr[i];
      }
      ptr := block;
    }

    /** Copies buf to the position given by len and leaves len as it is; earlier
        bytes from there on are overwritten, or lost when the buffer grows. */
    method PushBack(buf: seq<byte>)
      requires Valid() && len + |buf| <= SizeFor(ptr.Length, len, |buf|)
      modifies this, ptr
      ensures Valid() && len == old(len)
      ensures ptr == old(ptr) || fresh(ptr)
      ensures ptr[..] == Pushed(old(ptr[..]), len, buf)
      ensures ptr.Length == if 3 * (len + |buf|) > 2 * old(ptr.Length) then 2 * old(ptr.Length) else old(ptr.Length)
    {
      if |buf| + len > 2 * ptr.Length / 3 {
        Expand();
      }
      ghost var block := ptr[..];
      assert Pushed(old(ptr[..]), len, buf) == block[..len] + buf + block[len + |buf|..];
      Copy(ptr, len, buf);
      PushedPieces(old(ptr[..]), len, buf);
    }
  }

  /** The pieces of the buffer after a push_back, and when it grows. */
  lemma PushedPieces(content: seq<byte>, len: nat, buf: seq<byte>)
    requires len <= |content| && len + |buf| <= SizeFor(|content|, len, |buf|)
    ensures var r, grown := Pushed(content, len, buf), 3 * (len + |buf|) > 2 * |content|;
      && |r| == (if grown then 2 * |content| else |content|) && len + |buf| <= |r|
      && r[..len] == content[..len] && r[len..len + |buf|] == buf
      && r[len + |buf|..] == if grown then Zeros(|r| - len - |buf|) else content[len + |buf|..]
  {
    GrowsIff(|content|, len, |buf|);
    hide SizeFor;
    var r, end := Pushed(content, len, buf), len + |buf|;
    if 3 * end <= 2 * |content| {
      assert r == content[..len] + buf + content[end..];
    } else {
      var block := content[..len] + Zeros(2 * |content| - len);
      assert |content| > 0 ==> r == block[..len] + buf + block[end..];
      assert block[..len] == content[..len];
      assert block[end..] == Zeros(2 * |content| - end);
    }
  }

  /** The block is doubled exactly when more than two thirds of it would be in use.
      Afterwards at most two thirds are, if doubling can achieve that. */
  lemma GrowsIff(size: nat, len: nat, n: nat)
    ensures SizeFor(size, len, n) == if 3 * (len + n) > 2 * size then 2 * size else size
    ensures 3 * (len + n) <= 4 * size ==> 3 * (len + n) <= 2 * SizeFor(size, len, n)
  {
  }

  function Zeros(n: nat): (z: seq<byte>) {
    seq(n, _ => 0)
  }

  /** Contents of a buffer after a push_back. */
  function Pushed(content: seq<byte>, len: nat, buf: seq<byte>): (r: seq<byte>)
    requires len <= |content| && len + |buf| <= SizeFor(|content|, len, |buf|)
  {
    var size := SizeFor(|content|, len, |buf|);
    var block := if size == |content| then content else content[..len] + Zeros(size - len);
    block[..len] + buf + block[len + |buf|..]
  }

  // ------------------------------------------------------------------ strings

  /** The bytes before the first NUL. */
  function CString(s: seq<byte>): (r: seq<byte>) {
    if s == [] || s[0] == 0 then [] else [s[0]] + CString(s[1..])
  }

  predicate NoNul(s: seq<byte>) {
    forall i :: 0 <= i < |s| ==> s[i] != 0
  }

  lemma {:induction false} CStringStops(s: seq<byte>, rest: seq<byte>)
    requires NoNul(s)
    ensures CString(s + [0] + rest) == s
  {
    if s != [] {
      assert (s + [0] + rest)[1..] == s[1..] + [0] + rest;
      CStringStops(s[1..], rest);
    }
  }

  /** std::string::substr(pos, n) on a string of at least pos characters; a negative
      n stands for the huge unsigned value it turns into. */
  function Substr(s: seq<byte>, pos: nat, n: int): seq<byte>
    requires pos <= |s|
  {
    if n < 0 || pos + n > |s| then s[pos..] else s[pos..pos + n]
  }

  // ----------------------------------------------------------- client: frames

  function Sum(s: seq<byte>): nat {
    if s == [] then 0 else Sum(s[..|s| - 1]) + s[|s| - 1]
  }

  function Checksum(s: seq<byte>): byte {
    Sum(s) % 256
  }

  lemma {:induction false} SumAppend(s: seq<byte>, t: seq<byte>)
    ensures Sum(s + t) == Sum(s) + Sum(t)
  {
    if t == [] {
      assert s + t == s;
    } else {
      assert (s + t)[..|s + t| - 1] == s + t[..|t| - 1];
      SumAppend(s, t[..|t| - 1]);
    }
  }

  lemma ChecksumStep(s: seq<byte>, i: nat)
    requires i < |s|
    ensures Checksum(s[..i + 1]) == (Checksum(s[..i]) + s[i]) % 256
  {
    assert s[..i + 1][..i] == s[..i];
  }

  /** The bytes of a frame: type, message, checksum. */
  function Frame(msg: seq<byte>): seq<byte> {
    [PUBLISH] + msg + [Checksum([PUBLISH] + msg)]
  }

  /** Messages that sprintf copies unchanged and that fit the frame buffer. */
  predicate Sendable(msg: seq<byte>) {
    NoNul(msg) && (forall i :: 0 <= i < |msg| ==> msg[i] != '%' as int) && |msg| <= 126
  }

  /** mq_client::send up to the write: the bytes handed to write. */
  method Send(msg: seq<byte>) returns (sent: seq<byte>)
    requires Sendable(msg)
    ensures sent == Frame(msg)
  {
    var sendMsg := new byte[128](_ => 0);
    sendMsg[0] := PUBLISH;
    Copy(sendMsg, 1, msg);
    ghost var body := [PUBLISH] + msg;
    assert sendMsg[..|msg| + 1] == body;
    AddChecksum(sendMsg, |msg| + 1);
    sent := sendMsg[..|msg| + 2];
  }

  /** Adds the first n bytes up in the byte behind them. */
  method AddChecksum(a: array<byte>, n: nat)
    requires n < a.Length && a[n] == 0
    modifies a
    ensures a[..n + 1] == old(a[..n]) + [Checksum(old(a[..n]))]
  {
    ghost var body := a[..n];
    assert Checksum(body[..0]) == 0;
    hide Checksum, Sum;
    for i := 0 to n
      invariant a[..n] == body
      invariant a[n] == Checksum(body[..i])
    {
      ChecksumStep(body, i);
      assert a[i] == body[i];
      var x: int, y: int := a[n], a[i];
      a[n] := (x + y) % 256;
    }
    assert body[..n] == body;
  }

  // ---------------------------------------------------------- server: checking

  /** The last byte is the checksum of the others. */
  predicate Accepted(frame: seq<byte>) {
    frame != [] && frame[|frame| - 1] == Checksum(frame[..|frame| - 1])
  }

  /** message_queue_server::check_msg_crc. */
  method CheckMsgCrc(buf: array<byte>, n: nat) returns (ok: bool)
    requires 0 < n <= buf.Length
    ensures ok <==> Accepted(buf[..n])
  {
    var crcSum: byte := 0;
    for i := 0 to n - 1
      invariant crcSum == Checksum(buf[..i])
    {
      ChecksumStep(buf[..], i);
      assert buf[..][..i] == buf[..i] && buf[..][..i + 1] == buf[..i + 1];
      var x: int, y: int := crcSum, buf[i];
      crcSum := (x + y) % 256;
    }
    assert buf[..n][..n - 1] == buf[..n - 1];
    ok := buf[n - 1] == crcSum;
  }

  // ------------------------------------------------------- encode and decode

  /** What the three push_backs of encode_mq_msg leave in the buffer: all of them
      start at its first byte. */
  function Encoded(msg: seq<byte>): (r: seq<byte>)
    requires |msg| < BUFSIZE
  {
    Pushed(Pushed(Pushed(Zeros(BUFSIZE), 0, [PUBLISH]), 0, msg), 0, [PUBLISH])
  }

  /** mq_def::encode_mq_msg on the NUL-terminated string at the start of content. */
  method EncodeMqMsg(content: seq<byte>) returns (msg: Buffer)
    requires |CString(content)| < BUFSIZE
    ensures fresh(msg) && msg.Valid() && msg.ptr[..] == Encoded(CString(content))
  {
    msg := new Buffer();
    msg.PushBack([PUBLISH]);
    msg.PushBack(CString(content));
    msg.PushBack([PUBLISH]);
  }

  /** mq_def::decode_mq_msg: without its first and its last character. */
  function Decode(content: seq<byte>): seq<byte>
    requires CString(content) != []
  {
    Substr(CString(content), 1, |CString(content)| - 2)
  }

  /** A string that starts with the type byte comes out of the encoding as it went
      in, followed by zeros, whether or not the buffer had to grow. */
  lemma EncodedKeeps(s: seq<byte>)
    requires s != [] && s[0] == PUBLISH && NoNul(s) && |s| < BUFSIZE
    ensures var size := SizeFor(BUFSIZE, 0, |s|);
      |s| < size && Encoded(s) == s + Zeros(size - |s|)
    ensures CString(Encoded(s)) == s
    ensures |Encoded(s)| == if |s| <= 682 then 1024 else 2048
  {
    var size := SizeFor(BUFSIZE, 0, |s|);
    var one := Pushed(Zeros(BUFSIZE), 0, [PUBLISH]);
    assert |one| == BUFSIZE;
    var two := Pushed(one, 0, s);
    assert size == BUFSIZE ==> forall k :: |s| <= k < BUFSIZE ==> one[k] == 0;
    assert two == s + Zeros(size - |s|);
    assert Pushed(two, 0, [PUBLISH]) == two;
    assert two == s + [0] + Zeros(size - |s| - 1);
    CStringStops(s, Zeros(size - |s| - 1));
  }

  /** The publish case of message_queue_server::recv_msg, up to the decoded
      message: one read has put n bytes into a buffer whose last byte is never
      written. A frame of the client, in a zeroed buffer, gives its message, or the
      message without its last byte if the checksum byte is zero. In any other buffer
      it gives its message exactly when the checksum byte is not zero and the byte
      behind the frame is. */
  method RecvPublish(buf: array<byte>, n: nat) returns (msg: Option<seq<byte>>)
    requires buf.Length == BUFSIZE && 0 < n < BUFSIZE && buf[0] == PUBLISH && buf[BUFSIZE - 1] == 0
    ensures msg.Some? <==> Accepted(buf[..n])
    ensures msg.Some? ==> msg.value == Substr(CString(buf[..]), 1, |CString(buf[..])| - 2)
    ensures forall m :: Sendable(m) && buf[..] == Received(m) && n == |Frame(m)| ==>
      msg == Some(if Checksum([PUBLISH] + m) == 0 then WithoutLast(m) else m)
    ensures forall m :: Sendable(m) && buf[..n] == Frame(m) ==>
      (msg == Some(m) <==> Checksum([PUBLISH] + m) != 0 && buf[n] == 0)
  {
    var ok := CheckMsgCrc(buf, n);
    ghost var s := CString(buf[..]);
    CStringNoNul(buf[..]);
    CStringBefore(buf[..], BUFSIZE - 1);
    EncodedKeeps(s);
    if ok {
      var recvedMsg := EncodeMqMsg(buf[..]);
      msg := Some(Decode(recvedMsg.ptr[..]));
    } else {
      msg := None;
    }
    forall m | Sendable(m) && buf[..] == Received(m) && n == |Frame(m)|
      ensures msg == Some(if Checksum([PUBLISH] + m) == 0 then WithoutLast(m) else m)
    {
      assert buf[..n] == buf[..][..n] == Frame(m);
      FrameRoundTrip(m);
    }
    forall m | Sendable(m) && buf[..n] == Frame(m)
      ensures msg == Some(m) <==> Checksum([PUBLISH] + m) != 0 && buf[n] == 0
    {
      FrameAccepted(m);
      assert buf[..] == Frame(m) + buf[n..];
      FrameOverStale(m, buf[n..]);
    }
  }

  lemma {:induction false} CStringBefore(s: seq<byte>, k: nat)
    requires k < |s| && s[k] == 0
    ensures |CString(s)| <= k
  {
    if s[0] != 0 { CStringBefore(s[1..], k - 1); }
  }

  lemma {:induction false} CStringNoNul(s: seq<byte>)
    ensures NoNul(CString(s))
  {
    if s != [] && s[0] != 0 { CStringNoNul(s[1..]); }
  }

  /** What the server gets out of a zeroed receive buffer into which one read has
      put the frame of a message. */
  function Received(msg: seq<byte>): seq<byte>
    requires Sendable(msg)
  {
    Frame(msg) + Zeros(BUFSIZE - |Frame(msg)|)
  }

  lemma FrameAsString(msg: seq<byte>)
    requires Sendable(msg)
    ensures CString(Received(msg)) ==
      if Checksum([PUBLISH] + msg) == 0 then [PUBLISH] + msg else Frame(msg)
  {
    var body, c, z := [PUBLISH] + msg, Checksum([PUBLISH] + msg), Zeros(BUFSIZE - |Frame(msg)|);
    if c == 0 {
      assert Received(msg) == body + [0] + z;
      CStringStops(body, z);
    } else {
      assert Received(msg) == Frame(msg) + [0] + z[1..];
      CStringStops(Frame(msg), z[1..]);
    }
  }

  function WithoutLast(s: seq<byte>): seq<byte> {
    if s == [] then [] else s[..|s| - 1]
  }

  /** The frame built by the client passes the server's check, and encoding and
      decoding gives the message back exactly when its checksum byte is not zero;
      otherwise its last byte is missing. */
  lemma FrameRoundTrip(msg: seq<byte>)
    requires Sendable(msg)
    ensures Accepted(Frame(msg)) && Received(msg)[0] == PUBLISH
    ensures |CString(Received(msg))| < BUFSIZE
    ensures var e := Encoded(CString(Received(msg)));
      CString(e) != [] && Decode(e) == if Checksum([PUBLISH] + msg) == 0 then WithoutLast(msg) else msg
    ensures Decode(Encoded(CString(Received(msg)))) == msg <==> Checksum([PUBLISH] + msg) != 0
  {
    FrameAsString(msg);
    var s := CString(Received(msg));
    assert Frame(msg)[..|Frame(msg)| - 1] == [PUBLISH] + msg;
    EncodedKeeps(s);
    if Checksum([PUBLISH] + msg) == 0 {
      assert Sum([PUBLISH]) == 1;
      assert msg == [] ==> [PUBLISH] + msg == [PUBLISH];
      assert Substr(s, 1, |s| - 2) == WithoutLast(msg);
    } else {
      assert Substr(s, 1, |s| - 2) == msg;
    }
  }

  lemma FrameAccepted(msg: seq<byte>)
    ensures Accepted(Frame(msg))
  {
    assert Frame(msg)[..|Frame(msg)| - 1] == [PUBLISH] + msg;
  }

  /** A message of one byte that is lost altogether: its checksum byte is zero. */
  lemma LostMessage()
    ensures var msg: seq<byte> := [255];
      && Sendable(msg) && Checksum([PUBLISH] + msg) == 0
      && CString(Received(msg)) == [PUBLISH] + msg
      && CString(Encoded([PUBLISH] + msg)) == [PUBLISH] + msg
      && Decode(Encoded([PUBLISH] + msg)) == []
  {
    var msg: seq<byte> := [255];
    SumAppend([PUBLISH], msg);
    assert Sum([PUBLISH]) == 1 && Sum(msg) == 255;
    FrameAsString(msg);
    EncodedKeeps([PUBLISH] + msg);
    FrameRoundTrip(msg);
  }

  lemma {:induction false} CStringPasses(s: seq<byte>, rest: seq<byte>)
    requires NoNul(s)
    ensures CString(s + rest) == s + CString(rest)
  {
    if s == [] {
      assert s + rest == rest;
    } else {
      assert (s + rest)[1..] == s[1..] + rest;
      CStringPasses(s[1..], rest);
    }
  }

  /** The receive buffer is not cleared between two reads: a frame is followed by
      whatever earlier reads left behind it. The server gets the message that was sent
      if and only if its checksum byte is not zero and the byte behind the frame is. */
  lemma FrameOverStale(msg: seq<byte>, stale: seq<byte>)
    requires Sendable(msg) && |Frame(msg)| + |stale| == BUFSIZE && stale[|stale| - 1] == 0
    ensures var s := CString(Frame(msg) + stale);
      && s != [] && |s| < BUFSIZE
      && (Substr(s, 1, |s| - 2) == msg <==> Checksum([PUBLISH] + msg) != 0 && stale[0] == 0)
  {
    var body, c := [PUBLISH] + msg, Checksum([PUBLISH] + msg);
    CStringBefore(stale, |stale| - 1);
    if c == 0 {
      assert Frame(msg) + stale == body + [0] + stale;
      CStringStops(body, stale);
      assert Sum([PUBLISH]) == 1;
      assert msg == [] ==> body == [PUBLISH];
    } else {
      CStringPasses(Frame(msg), stale);
      var s := Frame(msg) + CString(stale);
      if stale[0] == 0 {
        assert CString(stale) == [] && s == body + [c];
        assert s[1..1 + (|s| - 2)] == msg;
      } else {
        assert |s| > |msg| + 2;
      }
    }
  }

  /** Two frames in a row, the first one into a zeroed buffer: the second message
      arrives if and only if its checksum byte is not zero and its frame covers the
      first one, up to a final checksum byte zero. */
  lemma SecondFrame(first: seq<byte>, second: seq<byte>)
    requires Sendable(first) && Sendable(second)
    ensures var s := CString(Frame(second) + Received(first)[|Frame(second)|..]);
      && s != []
      && (Substr(s, 1, |s| - 2) == second <==>
          && Checksum([PUBLISH] + second) != 0
          && (|first| <= |second| || (|first| == |second| + 1 && Checksum([PUBLISH] + first) == 0)))
  {
    var n := |Frame(second)|;
    var stale := Received(first)[n..];
    assert stale[|stale| - 1] == Received(first)[BUFSIZE - 1] == 0;
    FrameOverStale(second, stale);
    assert stale[0] == Received(first)[n];
    if n < |first| + 1 {
      assert Received(first)[n] == first[n - 1];
    }
  }

  /** A message of one byte, received after one of three bytes, with the checksum and a
      stale byte at its end. */
  lemma LengthenedMessage()
    ensures var first: seq<byte>, second: seq<byte> := [97, 97, 97], [98];
      && Sendable(first) && Sendable(second)
      && var s := CString(Frame(second) + Received(first)[|Frame(second)|..]);
         s == [PUBLISH, 98, 99, 97, 36] && Substr(s, 1, |s| - 2) == [98, 99, 97]
  {
    var first: seq<byte>, second: seq<byte> := [97, 97, 97], [98];
    SumOf(first, second);
    assert Frame(second) == [PUBLISH, 98, 99] && Frame(first) == [PUBLISH, 97, 97, 97, 36];
    var rest := Frame(second) + Received(first)[3..];
    assert rest == [PUBLISH, 98, 99, 97, 36] + [0] + Zeros(BUFSIZE - 6);
    CStringStops([PUBLISH, 98, 99, 97, 36], Zeros(BUFSIZE - 6));
  }

  lemma SumOf(first: seq<byte>, second: seq<byte>)
    requires first == [97, 97, 97] && second == [98]
    ensures Checksum([PUBLISH] + first) == 36 && Checksum([PUBLISH] + second) == 99
  {
    SumAppend([PUBLISH], second);
    SumAppend([PUBLISH], first);
    SumAppend([97], [97, 97]);
    SumAppend([97], [97]);
    assert first == [97] + [97, 97] && [97, 97] == [97] + [97];
    assert Sum([PUBLISH]) == 1 && Sum([97]) == 97 && Sum([98]) == 98;
  }

  /** Changing a single byte of an accepted frame, checksum included, is noticed. */
  lemma SingleByteChangeRejected(frame: seq<byte>, i: nat, b: byte)
    requires Accepted(frame) && i < |frame| && b != frame[i]
    ensures !Accepted(frame[i := b])
  {
    var n := |frame| - 1;
    if i < n {
      var body, changed := frame[..n], frame[i := b][..n];
      assert changed == body[i := b];
      SumUpdate(body, i, b);
      if Checksum(body) == Checksum(changed) { Residues(Sum(body), Sum(changed)); }
    } else {
      assert frame[i := b][..n] == frame[..n];
    }
  }

  lemma SumUpdate(s: seq<byte>, i: nat, b: byte)
    requires i < |s|
    ensures Sum(s[i := b]) == Sum(s) - s[i] + b
  {
    var l, r := s[..i], s[i + 1..];
    assert s == l + [s[i]] + r && s[i := b] == l + [b] + r;
    SumAppend(l, [s[i]]);
    SumAppend(l + [s[i]], r);
    SumAppend(l, [b]);
    SumAppend(l + [b], r);
  }

  lemma Residues(x: nat, y: nat)
    requires x % 256 == y % 256 && -256 < x - y < 256
    ensures x == y
  {
  }
}
