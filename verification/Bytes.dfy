// Fixed-width integers, little-endian byte strings and positions inside a buffer.

module Bytes {

  type uint8 = x: int | 0 <= x < 0x100
  type uint16 = x: int | 0 <= x < 0x1_0000
  type uint32 = x: int | 0 <= x < 0x1_0000_0000

  datatype Option<+T> = None | Some(value: T)

  /** What a store into a uint32_t keeps. */
  function U32(x: int): uint32 {
    x % 0x1_0000_0000
  }

  function Pow256(w: nat): (p: nat)
    ensures p > 0
  {
    if w == 0 then 1 else 256 * Pow256(w - 1)
  }

  /** The uint16_t stored in two bytes. */
  function Word(lo: nat, hi: nat): nat {
    lo + 256 * hi
  }

  /** The w low bytes of n, least significant first: what memcpy of a w-byte integer writes. For
      a negative n the Euclidean digits are those of its two's complement. */
  function ToLE(n: int, w: nat): (s: seq<uint8>)
    ensures |s| == w
    decreases w
  {
    if w == 0 then [] else [n % 256] + ToLE(n / 256, w - 1)
  }

  function FromLE(s: seq<uint8>): nat {
    if s == [] then 0 else s[0] + 256 * FromLE(s[1..])
  }

  lemma {:induction false} FromLEBound(s: seq<uint8>)
    ensures FromLE(s) < Pow256(|s|)
  {
    if s != [] {
      FromLEBound(s[1..]);
    }
  }

  lemma {:induction false} FromToLE(n: int, w: nat)
    requires -(Pow256(w) as int) <= n < Pow256(w)
    ensures FromLE(ToLE(n, w)) == if n < 0 then n + Pow256(w) else n
    decreases w
  {
    if w > 0 {
      var q, r := n / 256, n % 256;
      assert n == 256 * q + r;
      FromToLE(q, w - 1);
      assert ToLE(n, w)[1..] == ToLE(q, w - 1);
    }
  }

  lemma {:induction false} ToFromLE(s: seq<uint8>)
    ensures ToLE(FromLE(s), |s|) == s
  {
    if s != [] {
      ToFromLE(s[1..]);
      assert FromLE(s) % 256 == s[0] && FromLE(s) / 256 == FromLE(s[1..]);
    }
  }

  // ---- which byte lies where ----

  lemma DivUnique(n: int, d: int, q: int, r: int)
    requires n == d * q + r && 0 <= r < d
    ensures n / d == q
  {
    var e := n / d - q;
    assert d * e == r - n % d by {
      assert n == d * (n / d) + n % d;
      assert d * (n / d - q) == d * (n / d) - d * q;
    }
    AtLeast(d, e);
  }

  lemma AtLeast(d: int, e: int)
    requires d > 0
    ensures e >= 1 ==> d * e >= d
    ensures e <= -1 ==> d * e <= -d
  {
    if e >= 1 {
      assert d * e == d + d * (e - 1);
    } else if e <= -1 {
      assert d * e == -d + d * (e + 1);
    }
  }

  lemma DivBy256(n: int, p: int)
    requires p > 0
    ensures n / 256 / p == n / (256 * p)
  {
    var q := n / 256;
    var r := 256 * (q % p) + n % 256;
    assert n == (256 * p) * (q / p) + r by {
      assert q == p * (q / p) + q % p;
      assert 256 * (p * (q / p)) == (256 * p) * (q / p);
    }
    DivUnique(n, 256 * p, q / p, r);
  }

  /** Byte k of the w bytes of an integer is its digit of weight 256^k: the least significant one lies
      first. */
  lemma {:induction false} ToLEByte(n: int, w: nat, k: nat)
    requires k < w
    ensures ToLE(n, w)[k] == n / Pow256(k) % 256
    decreases k
  {
    if k > 0 {
      ToLEByte(n / 256, w - 1, k - 1);
      DivBy256(n, Pow256(k - 1));
    }
  }

  /** And byte k of a stored integer weighs 256^k in it. */
  lemma FromLEByte(s: seq<uint8>, k: nat)
    requires k < |s|
    ensures FromLE(s) / Pow256(k) % 256 == s[k]
  {
    ToFromLE(s);
    ToLEByte(FromLE(s), |s|, k);
  }

  lemma Pow256Step(w: nat)
    ensures Pow256(0) == 1 && Pow256(w + 1) == 256 * Pow256(w)
  {
  }

  lemma Pow256Values()
    ensures Pow256(1) == 0x100
    ensures Pow256(2) == 0x1_0000
    ensures Pow256(4) == 0x1_0000_0000
    ensures Pow256(8) == 0x1_0000_0000_0000_0000
  {
    assert Pow256(2) == 256 * Pow256(1);
    assert Pow256(3) == 256 * Pow256(2);
    assert Pow256(4) == 256 * Pow256(3);
    assert Pow256(5) == 256 * Pow256(4);
    assert Pow256(6) == 256 * Pow256(5);
    assert Pow256(7) == 256 * Pow256(6);
  }

  lemma ToLE2(n: int)
    ensures ToLE(n, 2) == [n % 256, n / 256 % 256]
  {
    assert ToLE(n / 256, 1) == [n / 256 % 256] + ToLE(n / 256 / 256, 0);
  }

  /** The bytes b fill s from index p up to index q. */
  predicate Spans(s: seq<uint8>, p: nat, q: nat, b: seq<uint8>) {
    p <= q <= |s| && s[p..q] == b
  }

  lemma SpansConcat(s: seq<uint8>, p: nat, q: nat, r: nat, a: seq<uint8>, b: seq<uint8>)
    requires q == p + |a|
    ensures Spans(s, p, r, a + b) <==> Spans(s, p, q, a) && Spans(s, q, r, b)
  {
    if p <= q <= r <= |s| {
      var w := s[p..r];
      assert w[..q - p] == s[p..q] && w[q - p..] == s[q..r];
      assert (a + b)[..|a|] == a && (a + b)[|a|..] == b;
      assert w == w[..q - p] + w[q - p..];
    }
  }

  lemma SpansIndex(s: seq<uint8>, p: nat, q: nat, b: seq<uint8>, k: nat)
    requires Spans(s, p, q, b) && k < |b|
    ensures s[p + k] == b[k]
  {
    assert s[p + k] == s[p..q][k];
  }

  /** memcpy into a buffer. */
  method MemCopy(dst: array<uint8>, at: nat, src: seq<uint8>)
    requires at + |src| <= dst.Length
    modifies dst
    ensures dst[..] == old(dst[..at]) + src + old(dst[at + |src|..])
  {
    var i := 0;
    while i < |src|
      invariant 0 <= i <= |src|
      invariant dst[..at] == old(dst[..at])
      invariant dst[at..at + i] == src[..i]
      invariant dst[at + i..] == old(dst[at + i..])
    {
      dst[at + i] := src[i];
      i := i + 1;
    }
    assert dst[..] == dst[..at] + dst[at..at + |src|] + dst[at + |src|..];
  }
}
