/** Byte strings, little-endian integers and a buffer filled from left to right. */
module Bytes {
  type byte = b: int | 0 <= b < 256

  // byte widths of the machine's integer types
  const W16: nat := 2
  const W32: nat := 4
  const W64: nat := 8

  const U16 := 0x1_0000
  const U32 := 0x1_0000_0000
  const U64 := 0x1_0000_0000_0000_0000

  /** A 32-bit unsigned word, as sums and differences leave it. */
  function Wrap(x: int): (r: nat)
    ensures r < U32
    ensures 0 <= x < U32 ==> r == x
  {
    x % U32
  }

  lemma WrapInner(x: int, y: int)
    ensures Wrap(Wrap(x) + y) == Wrap(x + y)
  {
    var q := x / U32;
    assert x + y == Wrap(x) + y + q * U32;
    WrapPeriod(Wrap(x) + y, q);
  }

  lemma WrapPeriod(x: int, q: int)
    ensures Wrap(x + q * U32) == Wrap(x)
  {
    var k := x / U32;
    assert x == k * U32 + Wrap(x);
    assert (x + q * U32) == (k + q) * U32 + Wrap(x);
  }

  function Pow256(n: nat): (p: nat)
    ensures p >= 1
  {
    if n == 0 then 1 else 256 * Pow256(n - 1)
  }

  /** The n low bytes of v, least significant first. */
  function LE(v: nat, n: nat): (s: seq<byte>)
    ensures |s| == n
  {
    if n == 0 then [] else [v % 256] + LE(v / 256, n - 1)
  }

  function FromLE(s: seq<byte>): nat
  {
    if s == [] then 0 else s[0] + 256 * FromLE(s[1..])
  }

  lemma {:induction false} DecodeLE(v: nat, n: nat)
    requires v < Pow256(n)
    ensures FromLE(LE(v, n)) == v
  {
    if n > 0 {
      DecodeLE(v / 256, n - 1);
      assert LE(v, n)[1..] == LE(v / 256, n - 1);
    }
  }

  lemma Widths()
    ensures Pow256(W16) == U16 && Pow256(W32) == U32 && Pow256(W64) == U64
  {
    assert Pow256(4) == 256 * 256 * Pow256(2);
    assert Pow256(8) == 256 * 256 * 256 * 256 * Pow256(4);
  }

  /** The next multiple of four, where a 32-bit field can be read (align_ptr). */
  function Aligned(p: nat): (q: nat)
    ensures p <= q < p + W32 && q % W32 == 0
  {
    p + (W32 - p % W32) % W32
  }

  function Zeros(n: nat): (s: seq<byte>)
    ensures |s| == n
  {
    seq(n, _ => 0)
  }

  lemma Assoc(a: seq<byte>, b: seq<byte>, c: seq<byte>)
    ensures (a + b) + c == a + (b + c)
  {
  }

  lemma Inner(s: seq<byte>, a: nat, n: nat, b: nat, m: nat)
    requires b + m <= n && a + n <= |s|
    ensures s[a + b..a + b + m] == s[a..a + n][b..b + m]
  {
    var x, y := s[a + b..a + b + m], s[a..a + n][b..b + m];
    assert |x| == |y| && forall k :: 0 <= k < |x| ==> x[k] == y[k];
  }

  /** Writing `bytes` at pos took a buffer's contents from s to t; the cursor moved on to end. */
  ghost predicate Wrote(s: seq<byte>, t: seq<byte>, pos: nat, end: nat, bytes: seq<byte>)
    ensures Wrote(s, t, pos, end, bytes) ==> |s| == |t| && end == pos + |bytes| <= |s|
  {
    && |s| == |t| && end == pos + |bytes| <= |s|
    && t[..end] == s[..pos] + bytes
    && t[end..] == s[end..]
  }

  lemma WroteThen(s: seq<byte>, t: seq<byte>, u: seq<byte>, pos: nat, mid: nat, end: nat, a: seq<byte>, b: seq<byte>)
    requires Wrote(s, t, pos, mid, a) && Wrote(t, u, mid, end, b)
    ensures Wrote(s, u, pos, end, a + b)
  {
    assert s[..pos] + (a + b) == (s[..pos] + a) + b;
    assert t[end..] == t[mid..][|b|..] && s[end..] == s[mid..][|b|..];
  }

  lemma WroteNothing(s: seq<byte>, pos: nat)
    requires pos <= |s|
    ensures Wrote(s, s, pos, pos, [])
  {
    assert s[..pos] + [] == s[..pos];
  }

  /** Moving the cursor without storing leaves what was there. */
  lemma WroteSkip(s: seq<byte>, pos: nat, n: nat)
    requires pos + n <= |s|
    ensures Wrote(s, s, pos, pos + n, s[pos..pos + n])
  {
  }

  /** Stores the n low bytes of v at pos, as `*(uintN *)(buf + pos) = v` does on a little-endian machine. */
  method Store(buf: array<byte>, pos: nat, v: nat, n: nat)
    requires pos + n <= buf.Length
    modifies buf
    ensures Wrote(old(buf[..]), buf[..], pos, pos + n, LE(v, n))
  {
    ghost var before := buf[..];
    var k, rest := 0, v;
    while k < n
      invariant k <= n
      invariant LE(v, n) == buf[pos..pos + k] + LE(rest, n - k)
      invariant buf[..pos] == before[..pos]
      invariant buf[pos + n..] == before[pos + n..]
    {
      ghost var done := buf[pos..pos + k];
      buf[pos + k] := rest % 256;
      assert buf[pos..pos + k] == done;
      assert buf[pos..pos + k + 1] == done + [rest % 256];
      rest := rest / 256;
      k := k + 1;
    }
    assert buf[..pos + n] == buf[..pos] + buf[pos..pos + n];
  }

  /** memcpy of a byte string to buf + pos. */
  method Copy(buf: array<byte>, pos: nat, bytes: seq<byte>)
    requires pos + |bytes| <= buf.Length
    modifies buf
    ensures Wrote(old(buf[..]), buf[..], pos, pos + |bytes|, bytes)
  {
    forall i | 0 <= i < |bytes| {
      buf[pos + i] := bytes[i];
    }
    assert buf[..pos] == old(buf[..pos]);
    assert buf[pos..pos + |bytes|] == bytes;
    assert buf[..pos + |bytes|] == buf[..pos] + buf[pos..pos + |bytes|];
  }
}
