/**
 The parameters of a request body: '&'-separated pieces, each a key and a value
 separated by '=', cut apart in place and collected in a map that keeps the first
 value of every key.
 */
module HttpParams {

  import opened Options

  /** Position of the first c in s, or the length of s. */
  function Find(s: string, c: char): (n: nat)
    ensures n <= |s|
    ensures n < |s| ==> s[n] == c
    ensures forall k :: 0 <= k < n ==> s[k] != c
  {
    if s == [] || s[0] == c then 0 else 1 + Find(s[1..], c)
  }

  lemma FindAt(s: string, c: char, n: nat)
    requires n <= |s| && (n < |s| ==> s[n] == c)
    requires forall k :: 0 <= k < n ==> s[k] != c
    ensures Find(s, c) == n
  {
  }

  /** std::map::insert: an existing key keeps its value. */
  function Insert(m: map<string, string>, k: string, v: string): map<string, string> {
    if k in m then m else m[k := v]
  }

  /** What get_params makes of the string s: None when some piece has no '=', where
      the program follows a null pointer. */
  function AddParams(m: map<string, string>, s: string): Option<map<string, string>>
    decreases |s|
  {
    var q := Find(s, '&');
    var piece := s[..q];
    var e := Find(piece, '=');
    if e == q then None
    else
      var m' := Insert(m, piece[..e], piece[e + 1..]);
      if q == |s| then Some(m') else AddParams(m', s[q + 1..])
  }

  /** The characters before the first NUL. */
  function CString(s: string): string {
    s[..Find(s, '\0')]
  }

  /** There is a NUL in s. */
  predicate Terminated(s: string) {
    Find(s, '\0') < |s|
  }

  /** Position of the first c in content from start on, if it comes before the end. */
  method Scan(content: array<char>, start: nat, end: nat, c: char) returns (n: nat)
    requires start <= end <= content.Length
    ensures n == start + Find(content[start..end], c)
  {
    n := start;
    while n < end && content[n] != c
      invariant start <= n <= end
      invariant forall k :: 0 <= k < n - start ==> content[start..end][k] != c
    {
      n := n + 1;
    }
    FindAt(content[start..end], c, n - start);
  }

  /** strsep, strstr and the two string copies for the piece at p; rest is what is
      left of the string, which ends at end. */
  method CutPiece(content: array<char>, p: nat, end: nat, ghost rest: string)
    returns (key: string, value: string, q: nat)
    requires p <= end < content.Length && content[p..end] == rest
    requires Find(rest[..Find(rest, '&')], '=') < Find(rest, '&')
    modifies content
    ensures q == p + Find(rest, '&') <= end
    ensures q < end ==> content[q + 1..end] == rest[q - p + 1..]
    ensures var piece := rest[..Find(rest, '&')]; var e := Find(piece, '=');
      key == piece[..e] && value == piece[e + 1..]
  {
    hide Find;
    ghost var piece := rest[..Find(rest, '&')];
    q := Scan(content, p, end, '&');
    assert rest[..q - p] == piece && forall k :: p <= k < q ==> content[k] == rest[k - p];
    if q < end { content[q] := '\0'; }
    assert content[p..q] == piece;
    var e := Scan(content, p, q, '=');
    content[e] := '\0';
    key, value := content[p..e], content[e + 1..q];
    assert key == piece[..e - p] && value == piece[e - p + 1..];
  }

  /** http_request::get_params on the NUL-terminated string at start. The
      separators that are passed are overwritten by NUL. */
  method GetParams(content: array<char>, start: nat, params: map<string, string>)
    returns (params': map<string, string>)
    requires start <= content.Length && Terminated(content[start..])
    requires AddParams(params, CString(content[start..])).Some?
    modifies content
    ensures AddParams(params, CString(old(content[start..]))) == Some(params')
  {
    params' := params;
    hide AddParams, Find, Insert;
    ghost var all := content[start..];
    assert content[start..content.Length] == all;
    var end := Scan(content, start, content.Length, '\0');
    ghost var rest := CString(all);
    assert content[start..end] == rest;
    ghost var result := AddParams(params, rest);
    hide CString;
    var p: nat := start;
    while true
      invariant p <= end < content.Length
      invariant content[p..end] == rest
      invariant AddParams(params', rest) == result && result.Some?
      decreases end - p
    {
      AddParamsStep(params', rest);
      var key, value, q := CutPiece(content, p, end, rest);
      params' := Insert(params', key, value);
      if q == end { return; }
      rest := rest[q - p + 1..];
      p := q + 1;
    }
  }

  lemma AddParamsStep(m: map<string, string>, s: string)
    requires AddParams(m, s).Some?
    ensures var q := Find(s, '&'); var piece := s[..q]; var e := Find(piece, '=');
      && q <= |s| && e < q
      && AddParams(m, s) ==
        (var m' := Insert(m, piece[..e], piece[e + 1..]);
         if q == |s| then Some(m') else AddParams(m', s[q + 1..]))
  {
  }

  // ---------------------------------------------------- joining and cutting

  datatype Pair = Pair(key: string, value: string)

  /** No separator gets in the way: keys without '=' and '&', values without '&'. */
  predicate Clean(kv: Pair) {
    && (forall i :: 0 <= i < |kv.key| ==> kv.key[i] != '=' && kv.key[i] != '&')
    && (forall i :: 0 <= i < |kv.value| ==> kv.value[i] != '&')
  }

  predicate AllClean(kvs: seq<Pair>) {
    forall a :: 0 <= a < |kvs| ==> Clean(kvs[a])
  }

  function Piece(kv: Pair): string {
    kv.key + "=" + kv.value
  }

  function Join(kvs: seq<Pair>): string
    requires kvs != []
  {
    if |kvs| == 1 then Piece(kvs[0]) else Piece(kvs[0]) + "&" + Join(kvs[1..])
  }

  /** Every key with the first value bound to it. */
  function FirstBindings(kvs: seq<Pair>): map<string, string> {
    if kvs == [] then map[] else FirstBindings(kvs[1..])[kvs[0].key := kvs[0].value]
  }

  /** Cutting off the first piece of a joined list. */
  lemma FirstPiece(kv: Pair, rest: string)
    requires Clean(kv)
    ensures Find(Piece(kv), '&') == |Piece(kv)| && Find(Piece(kv), '=') == |kv.key|
    ensures Find(Piece(kv) + "&" + rest, '&') == |Piece(kv)|
    ensures (Piece(kv) + "&" + rest)[..|Piece(kv)|] == Piece(kv)
    ensures (Piece(kv) + "&" + rest)[|Piece(kv)| + 1..] == rest
    ensures Piece(kv)[..|kv.key|] == kv.key && Piece(kv)[|kv.key| + 1..] == kv.value
  {
    var p, s := Piece(kv), Piece(kv) + "&" + rest;
    assert forall k :: 0 <= k < |p| ==> p[k] != '&' && s[k] == p[k];
    FindAt(p, '&', |p|);
    FindAt(p, '=', |kv.key|);
    FindAt(s, '&', |p|);
  }

  lemma AddPiece(m: map<string, string>, kv: Pair, rest: string)
    requires Clean(kv)
    ensures AddParams(m, Piece(kv)) == Some(Insert(m, kv.key, kv.value))
    ensures AddParams(m, Piece(kv) + "&" + rest) == AddParams(Insert(m, kv.key, kv.value), rest)
  {
    FirstPiece(kv, rest);
    assert Piece(kv)[..|Piece(kv)|] == Piece(kv);
    hide Piece, Find;
  }

  lemma BindingsStep(m: map<string, string>, kvs: seq<Pair>)
    requires kvs != []
    ensures FirstBindings(kvs[1..]) + Insert(m, kvs[0].key, kvs[0].value) == FirstBindings(kvs) + m
  {
    var f := FirstBindings(kvs[1..]);
    assert FirstBindings(kvs) == f[kvs[0].key := kvs[0].value];
  }

  /** Keys already in the map keep their values, the others get their first one. */
  lemma {:induction false} AddJoined(m: map<string, string>, kvs: seq<Pair>)
    requires kvs != [] && AllClean(kvs)
    ensures AddParams(m, Join(kvs)) == Some(FirstBindings(kvs) + m)
    decreases |kvs|
  {
    var kv, m' := kvs[0], Insert(m, kvs[0].key, kvs[0].value);
    BindingsStep(m, kvs);
    hide AddParams, Insert, Piece;
    if |kvs| == 1 {
      AddPiece(m, kv, "");
      assert FirstBindings(kvs[1..]) == map[];
      assert map[] + m' == m';
    } else {
      AddPiece(m, kv, Join(kvs[1..]));
      AddJoined(m', kvs[1..]);
    }
  }

  /** Round trip: the parameters of a joined list, added to an empty map, are the
      first bindings of its keys. */
  lemma ParamsRoundTrip(kvs: seq<Pair>)
    requires kvs != [] && AllClean(kvs)
    ensures AddParams(map[], Join(kvs)) == Some(FirstBindings(kvs))
  {
    AddJoined(map[], kvs);
    assert FirstBindings(kvs) + map[] == FirstBindings(kvs);
  }

  /** The pair a piece was made from. */
  function Unpiece(piece: string): (kv: Pair)
    requires Find(piece, '=') < |piece|
    ensures Piece(kv) == piece
  {
    var e := Find(piece, '=');
    assert piece == piece[..e] + [piece[e]] + piece[e + 1..];
    Pair(piece[..e], piece[e + 1..])
  }

  lemma JoinMore(kv: Pair, kvs: seq<Pair>)
    requires kvs != [] && Clean(kv) && AllClean(kvs)
    ensures Join([kv] + kvs) == Piece(kv) + "&" + Join(kvs) && AllClean([kv] + kvs)
  {
    assert ([kv] + kvs)[1..] == kvs;
  }

  lemma UnpieceClean(piece: string)
    requires Find(piece, '=') < |piece| && forall k :: 0 <= k < |piece| ==> piece[k] != '&'
    ensures Clean(Unpiece(piece))
  {
  }

  lemma SplitAt(s: string, q: nat)
    requires q < |s| && s[q] == '&'
    ensures s == s[..q] + "&" + s[q + 1..]
  {
  }

  /** The pairs a string was joined from. */
  lemma {:induction false} Unjoin(m: map<string, string>, s: string) returns (kvs: seq<Pair>)
    requires AddParams(m, s).Some?
    ensures kvs != [] && AllClean(kvs) && Join(kvs) == s
    decreases |s|
  {
    AddParamsStep(m, s);
    var q := Find(s, '&');
    var kv, e := Unpiece(s[..q]), Find(s[..q], '=');
    UnpieceClean(s[..q]);
    hide AddParams, Find, Unpiece, Piece, Clean;
    if q == |s| {
      kvs := [kv];
      assert s[..q] == s;
    } else {
      SplitAt(s, q);
      var rest := Unjoin(Insert(m, s[..q][..e], s[..q][e + 1..]), s[q + 1..]);
      JoinMore(kv, rest);
      kvs := [kv] + rest;
    }
  }

  /** get_params can be called exactly on the strings that are joined from clean
      pairs, at least one of them. */
  lemma AcceptsExactlyJoins(m: map<string, string>, s: string)
    ensures AddParams(m, s).Some? <==> exists kvs :: kvs != [] && AllClean(kvs) && Join(kvs) == s
  {
    if AddParams(m, s).Some? {
      var kvs := Unjoin(m, s);
    }
    forall kvs | kvs != [] && AllClean(kvs) && Join(kvs) == s
      ensures AddParams(m, s).Some?
    {
      AddJoined(m, kvs);
    }
  }
}
