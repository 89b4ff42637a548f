/**
 The string hash that supplies the keys of the splay tree, and what its range
 means for the 32-bit comparison of keys.
 */
module HashKeys {
  import opened SplayTree

  /** A signed character. */
  type schar = c: int | -128 <= c < 128

  const BASE := 65599

  function U32(x: int): nat {
    x % 0x1_0000_0000
  }

  /** The 32-bit left shift: multiplication by a power of two, modulo 2^32. */
  function Shl(x: nat, bits: nat): nat {
    U32(x * Pow(2, bits))
  }

  function Pow(b: int, e: nat): int {
    if e == 0 then 1 else b * Pow(b, e - 1)
  }

  /** The polynomial with the given coefficients, highest power first. */
  function Polynomial(s: seq<schar>): int {
    if s == [] then 0 else s[0] * Pow(BASE, |s| - 1) + Polynomial(s[1..])
  }

  /** Horner's rule, from the other end. */
  lemma {:induction false} PolynomialAppend(s: seq<schar>, c: schar)
    ensures Polynomial(s + [c]) == BASE * Polynomial(s) + c
  {
    if s == [] {
      assert s + [c] == [c] && [c][1..] == [];
      assert Pow(BASE, 0) == 1;
    } else {
      var t := s + [c];
      assert t[1..] == s[1..] + [c];
      PolynomialAppend(s[1..], c);
      assert Pow(BASE, |s|) == BASE * Pow(BASE, |s| - 1);
      assert t[0] * (BASE * Pow(BASE, |s| - 1)) == BASE * (s[0] * Pow(BASE, |s| - 1));
    }
  }

  /** The value of the hash: the polynomial modulo 2^32, without the sign bit. */
  function HashOf(s: seq<schar>): (h: int32)
    ensures h == Polynomial(s) % 0x8000_0000
  {
    Masked(Polynomial(s));
    U32(Polynomial(s)) % 0x8000_0000
  }

  lemma Masked(p: int)
    ensures U32(p) % 0x8000_0000 == p % 0x8000_0000
  {
    var q, r := p / 0x1_0000_0000, U32(p);
    var k := 2 * q + r / 0x8000_0000;
    assert p == r % 0x8000_0000 + k * 0x8000_0000;
    HalfRemainder(p, k, r % 0x8000_0000);
  }

  lemma HalfRemainder(y: int, q: int, r: int)
    requires y == r + q * 0x8000_0000 && 0 <= r < 0x8000_0000
    ensures y % 0x8000_0000 == r
  {
  }

  lemma ShiftAndAdd(p: int, c: schar)
    ensures U32(c + Shl(U32(p), 6) + Shl(U32(p), 16) - U32(p)) == U32(BASE * p + c)
  {
    PowersOfTwo();
    var h, m := U32(p), 0x1_0000_0000;
    var q, a, b := p / m, h * 64 / m, h * 65536 / m;
    assert p == h + q * m && Shl(h, 6) == h * 64 - a * m && Shl(h, 16) == h * 65536 - b * m;
    var k := BASE * q + a + b;
    assert BASE * p + c == (c + Shl(h, 6) + Shl(h, 16) - h) + k * m;
    Congruent(c + Shl(h, 6) + Shl(h, 16) - h, k);
  }

  lemma Congruent(x: int, k: int)
    ensures U32(x + k * 0x1_0000_0000) == U32(x)
  {
    var m := 0x1_0000_0000;
    assert x + k * m == U32(x) + (x / m + k) * m;
    Remainder(x + k * m, x / m + k, U32(x));
  }

  lemma Remainder(y: int, q: int, r: int)
    requires y == r + q * 0x1_0000_0000 && 0 <= r < 0x1_0000_0000
    ensures y % 0x1_0000_0000 == r
  {
  }

  lemma PowersOfTwo()
    ensures Pow(2, 6) == 64 && Pow(2, 16) == 65536
  {
    assert Pow(2, 4) == 16;
    assert Pow(2, 6) == 64;
    assert Pow(2, 10) == 1024;
    assert Pow(2, 13) == 8192;
    assert Pow(2, 16) == 65536;
  }

  /** utiltool::hash: the shift-and-add loop computes the base-65599 polynomial of
      the characters, modulo 2^32 and masked to 31 bits. */
  method Hash(str: seq<schar>, len0: nat) returns (h: int32)
    requires len0 <= |str|
    ensures h == HashOf(str[..len0])
  {
    var hash: nat, len, i := 0, len0, 0;
    while len != 0
      invariant 0 <= i && i + len == len0
      invariant hash == U32(Polynomial(str[..i]))
    {
      len := len - 1;
      assert str[..i + 1] == str[..i] + [str[i]];
      PolynomialAppend(str[..i], str[i]);
      ShiftAndAdd(Polynomial(str[..i]), str[i]);
      hash := U32(str[i] + Shl(hash, 6) + Shl(hash, 16) - hash);
      i := i + 1;
    }
    h := hash % 0x8000_0000;
  }

  /** Every key is the hash of some string. */
  ghost predicate Hashed(ks: set<int32>) {
    forall k <- ks :: exists s: seq<schar> :: k == HashOf(s)
  }

  lemma HashedKeysAreNarrow(ks: set<int32>)
    requires Hashed(ks)
    ensures Narrow(ks)
    ensures forall i <- ks, j <- ks :: Fits(i, j) && Compare(i, j) == i - j
  {
    forall i <- ks, j <- ks
      ensures Fits(i, j) && Compare(i, j) == i - j
    {
      CompareIsOrderIffFits(i, j);
    }
  }

  /** With hashed keys no comparison overflows, and every run of the tree behaves
      as a finite map ordered by the integers themselves. */
  lemma HashedRunRefinesMap<V>(t: Tree<V>, ops: seq<Op<V>>, ks: set<int32>)
    requires Ordered(t) && Hashed(ks) && Keys(t) <= ks && OpsOver(ops, ks)
    ensures Ordered(Run(t, ops))
    ensures Contents(Run(t, ops)) == RunOnMap(Contents(t), ops)
  {
    HashedKeysAreNarrow(ks);
    RunRefinesMap(t, ops, ks);
  }
}
