/** append_aot_to_wasm.py: LEB128 integers, vectors, and a custom section whose content starts at an
    aligned position of the output file. */
module AlignedSection {
  import opened Wrappers
  import opened Bits
  import opened Bytes

  // ---- LEB128 ----

  /** Seven bits a byte, low bits first, the high bit set on all but the last; nothing at all for zero. */
  function EncodeUint(value: nat): seq<byte>
  {
    if value == 0 then []
    else if value < 128 then [value]
    else [128 + value % 128] + EncodeUint(value / 128)
  }

  /** Number of bytes taken, and their value; the input may end before a byte without the high bit. */
  function DecodeUint(s: seq<byte>): (nat, nat)
    requires s != []
  {
    if s[0] < 128 || |s| == 1 then (1, s[0] % 128)
    else
      var (n, v) := DecodeUint(s[1..]);
      (n + 1, s[0] % 128 + 128 * v)
  }

  lemma Mask7(x: nat)
    ensures And(x, 0x7F) == x % 128
  {
    AndLowMask(x, 7);
    assert Pow2(7) == 128;
  }

  lemma HighBit(x: nat)
    requires x < 256
    ensures And(x, 0x80) == if x >= 128 then 128 else 0
  {
    assert Pow2(7) == 128 && Pow2(8) == 256;
    AndOneBit(x, 7);
    TopBit(x, 8);
  }

  lemma {:induction false} OrSwap(x: nat, y: nat)
    ensures Or(x, y) == Or(y, x)
  {
    if x > 0 && y > 0 { OrSwap(x / 2, y / 2); }
  }

  lemma WithHighBit(low: nat)
    requires low < 128
    ensures Or(0x80, low) == 128 + low
  {
    assert Pow2(7) == 128;
    OrSwap(0x80, low);
    OrDisjoint(low, 1, 7);
  }

  method Leb128EncodeUint(value: nat) returns (binary: seq<byte>)
    ensures binary == EncodeUint(value)
  {
    hide EncodeUint, And, Or;
    binary := [];
    var rest := value;
    while rest != 0
      invariant binary + EncodeUint(rest) == EncodeUint(value)
      decreases rest
    {
      var lower := And(rest, 0x7F);
      EncodeGroup(rest);
      ghost var before := rest;
      rest := rest / 128;
      var current := if rest != 0 then Or(0x80, lower) else Or(0x00, lower);
      Assoc(binary, [current], EncodeUint(rest));
      binary := binary + [current];
    }
    EncodeZero();
  }

  lemma EncodeGroup(v: nat)
    requires v > 0
    ensures And(v, 0x7F) < 128
    ensures var b := if v / 128 != 0 then Or(0x80, And(v, 0x7F)) else Or(0x00, And(v, 0x7F));
            b < 256 && EncodeUint(v) == [b] + EncodeUint(v / 128)
  {
    hide And;
    Mask7(v);
    WithHighBit(v % 128);
  }

  lemma EncodeZero()
    ensures EncodeUint(0) == []
  {
  }

  /** Nothing is returned where Python would find its loop variable unbound: on no input at all. */
  method Leb128DecodeUint(binary: seq<byte>) returns (r: Option<(nat, nat)>)
    ensures r == if binary == [] then None else Some(DecodeUint(binary))
  {
    if binary == [] { return None; }
    var result: nat, shift: nat, i: nat := 0, 0, 0;
    while true
      invariant i < |binary| && result < Pow2(shift)
      invariant DecodeUint(binary).0 == i + DecodeUint(binary[i..]).0
      invariant DecodeUint(binary).1 == result + DecodeUint(binary[i..]).1 * Pow2(shift)
      decreases |binary| - i
    {
      var b := binary[i];
      var lower := And(b, 0x7F);
      Mask7(b);
      HighBit(b);
      OrDisjoint(result, lower, shift);
      ghost var tail := binary[i..];
      DecodeStep(tail, shift);
      ghost var before := result;
      result := Or(result, lower * Pow2(shift));
      if And(b, 0x80) == 0 || i + 1 == |binary| {
        return Some((i + 1, result));
      }
      GroupBound(before, lower, shift);
      shift := shift + 7;
      i := i + 1;
      assert tail[1..] == binary[i..];
    }
  }

  lemma DecodeStep(s: seq<byte>, shift: nat)
    requires s != []
    ensures s[0] < 128 || |s| == 1 ==> DecodeUint(s) == (1, s[0] % 128)
    ensures s[0] >= 128 && |s| > 1 ==>
              && DecodeUint(s).0 == 1 + DecodeUint(s[1..]).0
              && DecodeUint(s).1 * Pow2(shift) == (s[0] % 128) * Pow2(shift) + DecodeUint(s[1..]).1 * Pow2(shift + 7)
  {
    if s[0] >= 128 && |s| > 1 {
      var v, p := DecodeUint(s[1..]).1, Pow2(shift);
      PowAdd(shift, 7);
      assert Pow2(7) == 128;
      Distribute(s[0] % 128, v, p);
    }
  }

  lemma Distribute(low: nat, v: nat, p: nat)
    ensures (low + 128 * v) * p == low * p + v * (p * 128)
  {
  }

  lemma GroupBound(result: nat, lower: nat, shift: nat)
    requires result < Pow2(shift) && lower < 128
    ensures result + lower * Pow2(shift) < Pow2(shift + 7)
  {
    PowAdd(shift, 7);
    assert Pow2(7) == 128;
    MulOrder(lower, 128, Pow2(shift));
  }

  /** Decoding inverts encoding for every positive integer, whatever follows. */
  lemma {:induction false} DecodeEncode(value: nat, rest: seq<byte>)
    requires value > 0
    ensures EncodeUint(value) != []
    ensures DecodeUint(EncodeUint(value) + rest) == (|EncodeUint(value)|, value)
    decreases value
  {
    if value >= 128 {
      DecodeEncode(value / 128, rest);
      var e := EncodeUint(value) + rest;
      assert e[1..] == EncodeUint(value / 128) + rest;
    }
  }

  // ---- vectors ----

  function VectorOf(content: seq<byte>): seq<byte>
  {
    (if content == [] then [0] else EncodeUint(|content|)) + content
  }

  method PresentAsVector(content: seq<byte>) returns (v: seq<byte>)
    ensures v == VectorOf(content)
  {
    var len := [0];
    if |content| > 0 { len := Leb128EncodeUint(|content|); }
    v := len + content;
  }

  /** A vector: its length, then that many bytes; what is left over is returned too. */
  function ReadVector(s: seq<byte>): Option<(seq<byte>, seq<byte>)>
  {
    if s == [] then None
    else
      var (n, len) := DecodeUint(s);
      DecodeTakes(s);
      if n + len > |s| then None else Some((s[n..n + len], s[n + len..]))
  }

  lemma {:induction false} DecodeTakes(s: seq<byte>)
    requires s != []
    ensures 1 <= DecodeUint(s).0 <= |s|
    decreases |s|
  {
    if s[0] >= 128 && |s| > 1 { DecodeTakes(s[1..]); }
  }

  lemma ReadVectorBack(content: seq<byte>, rest: seq<byte>)
    ensures ReadVector(VectorOf(content) + rest) == Some((content, rest))
  {
    var s := VectorOf(content) + rest;
    if content == [] {
      assert s[1..] == rest;
    } else {
      DecodeEncode(|content|, content + rest);
      assert s == EncodeUint(|content|) + (content + rest);
    }
  }

  // ---- the search for a padding ----

  predicate IsAligned(n: nat, alignment: nat)
    requires alignment > 0
  {
    And(n, alignment - 1) == 0
  }

  function LebLen(value: nat): nat
  {
    |EncodeUint(value)|
  }

  /** Where the content would start with a padding vector of p zero bytes. */
  function PosWith(p: nat, nameLen: nat, contentLen: nat, start: nat): nat
  {
    var pad := |VectorOf(Zeros(p))|;
    start + 1 + LebLen(nameLen + pad + contentLen) + nameLen + pad
  }

  /** The first padding that aligns the content, if one of fewer than 2 * alignment bytes does. */
  method CalcPadding(alignment: nat, nameLen: nat, contentLen: nat, start: nat) returns (r: Option<seq<byte>>)
    requires alignment > 0
    ensures r.Some? ==> exists p :: 0 <= p < 2 * alignment && r.value == VectorOf(Zeros(p))
                          && IsAligned(PosWith(p, nameLen, contentLen, start), alignment)
                          && forall q :: 0 <= q < p ==> !IsAligned(PosWith(q, nameLen, contentLen, start), alignment)
    ensures r.None? ==> forall p :: 0 <= p < 2 * alignment ==> !IsAligned(PosWith(p, nameLen, contentLen, start), alignment)
  {
    for padding := 0 to alignment * 2
      invariant forall q :: 0 <= q < padding ==> !IsAligned(PosWith(q, nameLen, contentLen, start), alignment)
    {
      var bin := PresentAsVector(Zeros(padding));
      var sectionLength := nameLen + |bin| + contentLen;
      var lengthBin := Leb128EncodeUint(sectionLength);
      var pos := start + 1 + |lengthBin| + nameLen + |bin|;
      if IsAligned(pos, alignment) {
        return Some(bin);
      }
    }
    return None;
  }

  lemma {:induction false} LebLenMonotone(x: nat, y: nat)
    requires x <= y
    ensures LebLen(x) <= LebLen(y)
    decreases y
  {
    if y >= 128 { LebLenMonotone(x / 128, y / 128); }
  }

  /** Multiplying a length field's value by up to 128 lengthens the field by at most one byte. */
  lemma LebLenStep(x: nat, y: nat)
    requires 0 < x && y < 128 * (x + 1)
    ensures LebLen(y) <= LebLen(x) + 1
  {
    if y >= 128 { LebLenMonotone(y / 128, x); } else { LebLenMonotone(1, x); }
  }

  lemma PadLength(p: nat)
    requires p < 16384
    ensures |VectorOf(Zeros(p))| == p + (if p < 128 then 1 else 2)
  {
    assert p >= 128 ==> EncodeUint(p) == [128 + p % 128] + EncodeUint(p / 128);
  }

  /** On a stretch of `alignment` paddings where neither length field changes its own length, the content's
      position takes `alignment` consecutive values, one of which is aligned. */
  lemma AlignedInWindow(k: nat, lo: nat, nameLen: nat, contentLen: nat, start: nat) returns (p: nat)
    requires k <= 7 && lo + Pow2(k) <= 16384 && (lo + Pow2(k) <= 128 || lo >= 128)
    requires var h := if lo < 128 then 1 else 2; var s := nameLen + contentLen + h;
             LebLen(s + lo + Pow2(k) - 1) == LebLen(s + lo)
    ensures lo <= p < lo + Pow2(k) && IsAligned(PosWith(p, nameLen, contentLen, start), Pow2(k))
  {
    hide EncodeUint, VectorOf, And;
    var a, h := Pow2(k), if lo < 128 then 1 else 2;
    var s := nameLen + contentLen + h;
    PadLength(lo);
    var base := PosWith(lo, nameLen, contentLen, start);
    var up := AlignUp(base, a) - base;
    p := lo + up;
    PadLength(p);
    LebLenMonotone(s + lo, s + p);
    LebLenMonotone(s + p, s + lo + a - 1);
    assert PosWith(p, nameLen, contentLen, start) == base + up;
    AndLowMask(base + up, k);
  }

  /** For every power-of-two alignment up to 128, every start position, name and content, the search
      finds a padding: the length field can grow at most once while the padding runs through two
      stretches of `alignment` bytes, so on one of them it does not. */
  lemma PaddingExists(k: nat, nameLen: nat, contentLen: nat, start: nat) returns (p: nat)
    requires k <= 7 && nameLen > 0
    ensures p < 2 * Pow2(k) && IsAligned(PosWith(p, nameLen, contentLen, start), Pow2(k))
  {
    hide EncodeUint, PosWith, IsAligned;
    var a := Pow2(k);
    PowMonotone(k, 7);
    assert Pow2(7) == 128;
    var s := nameLen + contentLen + 1;
    LebLenMonotone(s, s + a - 1);
    if LebLen(s + a - 1) == LebLen(s) {
      p := AlignedInWindow(k, 0, nameLen, contentLen, start);
    } else {
      var h := if a < 128 then 0 else 1;
      LebLenStep(s, s + h + 2 * a - 1);
      LebLenMonotone(s + a - 1, s + h + a);
      LebLenMonotone(s + h + a, s + h + 2 * a - 1);
      if k < 7 { PowMonotone(k + 1, 7); }
      p := AlignedInWindow(k, a, nameLen, contentLen, start);
    }
  }

  lemma LebLenIs(x: nat)
    ensures 128 <= x < 16384 ==> LebLen(x) == 2
    ensures 16384 <= x < 2097152 ==> LebLen(x) == 3
  {
    if 128 <= x < 2097152 {
      assert EncodeUint(x) == [128 + x % 128] + EncodeUint(x / 128);
      if x >= 16384 {
        assert EncodeUint(x / 128) == [128 + (x / 128) % 128] + EncodeUint(x / 128 / 128);
      }
    }
  }

  // ---- where the search fails ----

  /** 128^m, the least number whose length field has m + 1 bytes. */
  function Group(m: nat): (g: nat)
    ensures g >= 1
  {
    Pow2(7 * m)
  }

  lemma GroupStep(m: nat)
    ensures Group(0) == 1 && Group(m + 1) == 128 * Group(m)
  {
    PowAdd(7, 7 * m);
    assert Pow2(7) == 128;
  }

  lemma {:induction false} LebLenBelow(x: nat, m: nat)
    requires x < Group(m)
    ensures LebLen(x) <= m
  {
    if m == 0 {
      GroupStep(0);
    } else {
      GroupStep(m - 1);
      if x >= 128 { LebLenBelow(x / 128, m - 1); }
    }
  }

  lemma {:induction false} LebLenAbove(x: nat, m: nat)
    requires x >= Group(m)
    ensures LebLen(x) >= m + 1
  {
    if m > 0 {
      GroupStep(m - 1);
      LebLenAbove(x / 128, m - 1);
    }
  }

  /** The size of a padding vector of p zeros. */
  function PadSize(p: nat): nat
  {
    if p == 0 then 1 else p + LebLen(p)
  }

  lemma PadSizeIs(p: nat)
    ensures |VectorOf(Zeros(p))| == PadSize(p)
  {
    assert p > 0 ==> Zeros(p) != [];
  }

  lemma PadSizeGrows(p: nat, q: nat)
    requires p <= q
    ensures PadSize(p) + (q - p) <= PadSize(q) && p + 1 <= PadSize(p)
  {
    if p > 0 { LebLenMonotone(1, p); }
    if q > 0 { LebLenMonotone(1, q); }
    LebLenMonotone(p, q);
  }

  /** The last padding below hi whose vector is smaller than t. */
  lemma {:induction false} Crossing(lo: nat, hi: nat, t: nat) returns (p: nat)
    requires lo < hi && PadSize(lo) < t <= PadSize(hi)
    ensures lo <= p < hi && PadSize(p) < t <= PadSize(p + 1)
    decreases hi - lo
  {
    if t <= PadSize(lo + 1) { p := lo; } else { p := Crossing(lo + 1, hi, t); }
  }

  /** With the section's length field growing from m to m + 1 bytes right behind padding `last`, the position of the
      content is its vector's size from c on, and one more behind `last`. */
  lemma PosAround(p: nat, last: nat, m: nat, contentLen: nat, start: nat)
    requires m > 0 && 1 + PadSize(last) + contentLen == Group(m) - 1
    requires 1 + contentLen >= Group(m - 1) && 1 + PadSize(p) + contentLen < Group(m + 1)
    ensures PosWith(p, 1, contentLen, start) == start + 2 + m + PadSize(p) + if p > last then 1 else 0
  {
    hide VectorOf, Group;
    PadSizeIs(p);
    var len := 1 + PadSize(p) + contentLen;
    if p > last {
      PadSizeGrows(last, p);
      LebLenAbove(len, m);
      LebLenBelow(len, m + 1);
    } else {
      PadSizeGrows(p, last);
      LebLenAbove(len, m - 1);
      LebLenBelow(len, m);
    }
  }

  lemma NotAligned(pos: nat, k: nat, i: int)
    requires i * Pow2(k) < pos < i * Pow2(k) + Pow2(k)
    ensures !IsAligned(pos, Pow2(k))
  {
    AndLowMask(pos, k);
    ModIs(pos, Pow2(k), i, pos - i * Pow2(k));
  }

  /** The sizes that matter for alignment 2^k: q = 128^j is the padding at which its vector's length field grows. */
  lemma GroupFor(k: nat) returns (j: nat)
    requires k >= 8
    ensures j >= 1 && Group(j) >= 128 && j < Group(j) && 2 * Group(j) <= Pow2(k) && 2 * Pow2(k) <= Group(j + 2)
  {
    j := (k - 1) / 7;
    PowMonotone(7, 7 * j);
    assert Pow2(7) == 128 && Pow2(7 * j + 1) == 2 * Pow2(7 * j) && Pow2(k + 1) == 2 * Pow2(k);
    PowMonotone(7 * j + 1, k);
    PowMonotone(k + 1, 7 * (j + 2));
    GroupExceeds(j);
  }

  lemma {:induction false} GroupExceeds(j: nat)
    ensures j < Group(j)
  {
    if j == 0 { GroupStep(0); } else {
      GroupStep(j - 1);
      GroupExceeds(j - 1);
    }
  }

  /** Three stretches of positions, each strictly between two neighbouring multiples of a = 2^k. */
  lemma Stretches(k: nat, z: int, q: nat, j: nat, pad: nat, past: bool)
    ensures var a := Pow2(k);
            var pos := z * a - q - j + pad + if past then 1 else 0;
            && (0 <= pos && j < q && 128 <= q && 2 * q <= a && 1 <= pad
                && (if past then q + j + a <= pad <= 2 * a + j + 1 else pad < q + j + a && pad != q + j)
                ==> !IsAligned(pos, a))
  {
    hide IsAligned, Pow2;
    var a := Pow2(k);
    var pos := z * a - q - j + pad + if past then 1 else 0;
    assert (z - 1) * a == z * a - a && (z + 1) * a == z * a + a;
    if 0 <= pos && j < q && 128 <= q && 2 * q <= a && 1 <= pad
       && (if past then q + j + a <= pad <= 2 * a + j + 1 else pad < q + j + a && pad != q + j) {
      NotAligned(pos, k, if past then z + 1 else if pad < q + j then z - 1 else z);
    }
  }

  lemma PadSizeBounds(p: nat, j: nat, k: nat)
    requires j >= 1 && 2 * Pow2(k) <= Group(j + 2)
    ensures p < Group(j) ==> PadSize(p) <= Group(j) + j - 1
    ensures p >= Group(j) ==> PadSize(p) >= Group(j) + j + 1
    ensures p < 2 * Pow2(k) ==> PadSize(p) <= 2 * Pow2(k) + j + 1
  {
    hide Group, Pow2;
    if p < Group(j) { LebLenBelow(p, j); } else { LebLenAbove(p, j); }
    if p < 2 * Pow2(k) { LebLenBelow(p, j + 2); }
  }

  /** For every alignment from 256 on there are a content length and a start position, with an empty name, at which no
      padding in the searched range aligns the content: both length fields grow, one alignment apart, and the
      positions they skip are the aligned ones. */
  lemma PaddingFails(k: nat) returns (contentLen: nat, start: nat)
    requires k >= 8
    ensures forall p :: 0 <= p < 2 * Pow2(k) ==> !IsAligned(PosWith(p, 1, contentLen, start), Pow2(k))
  {
    hide IsAligned, PosWith, Group, PadSize, Pow2;
    var a, m := Pow2(k), k + 3;
    var j := GroupFor(k);
    PadSizeBounds(Group(j), j, k);
    PadSizeAtGroup(j);
    PadSizeGrows(0, 2 * a - 1);
    var last := Crossing(Group(j), 2 * a - 1, Group(j) + j + a);
    GroupsAbove(k);
    contentLen := Group(m) - 2 - PadSize(last);
    var z := 2 + m + Group(j) + j;
    start := z * a - z;
    forall p | 0 <= p < 2 * a ensures !IsAligned(PosWith(p, 1, contentLen, start), a) {
      PadSizeBounds(p, j, k);
      PosAround(p, last, m, contentLen, start);
      PadSizeGrows(0, p);
      if p <= last { PadSizeGrows(p, last); } else { PadSizeGrows(last + 1, p); }
      Stretches(k, z, Group(j), j, PadSize(p), p > last);
    }
  }

  lemma PadSizeAtGroup(j: nat)
    ensures PadSize(Group(j)) == Group(j) + j + 1
  {
    hide Group;
    GroupStep(j);
    LebLenAbove(Group(j), j);
    LebLenBelow(Group(j), j + 1);
  }

  lemma GroupsAbove(k: nat)
    ensures Group(k + 2) >= 4 * Pow2(k) && Group(k + 3) == 128 * Group(k + 2) && Group(k + 4) == 128 * Group(k + 3)
  {
    var n := k + 2;
    PowHalf(n);
    PowHalf(k + 1);
    PowMonotone(n, 7 * n);
    GroupStep(n);
    GroupStep(n + 1);
  }

  ghost predicate HasPadding(k: nat, nameLen: nat, contentLen: nat, start: nat)
  {
    exists p :: 0 <= p < 2 * Pow2(k) && IsAligned(PosWith(p, nameLen, contentLen, start), Pow2(k))
  }

  /** The search finds a padding for every name, content and start position exactly for alignments up to 128. */
  lemma PaddingIff(k: nat)
    ensures (forall nameLen: nat, contentLen: nat, start: nat :: nameLen > 0 ==> HasPadding(k, nameLen, contentLen, start)) <==> k <= 7
  {
    hide IsAligned, PosWith, Pow2;
    if k <= 7 {
      forall nameLen: nat, contentLen: nat, start: nat | nameLen > 0 ensures HasPadding(k, nameLen, contentLen, start) {
        var p := PaddingExists(k, nameLen, contentLen, start);
      }
    } else {
      var contentLen, start := PaddingFails(k);
      assert !HasPadding(k, 1, contentLen, start);
    }
  }

  /** With alignment 256, a nine-byte name vector, 15990 bytes of content and start position 115, there is none. */
  lemma NoPaddingAt256(p: nat)
    requires p < 512
    ensures !IsAligned(PosWith(p, 9, 15990, 115), 256)
  {
    PosAt256(p);
    assert Pow2(8) == 256;
    AndLowMask(PosWith(p, 9, 15990, 115), 8);
  }

  lemma PosAt256(p: nat)
    requires p < 512
    ensures PosWith(p, 9, 15990, 115) == p + (if p < 128 then 128 else if p < 383 then 129 else 130)
  {
    hide VectorOf, EncodeUint;
    PadLength(p);
    LebLenIs(9 + |VectorOf(Zeros(p))| + 15990);
  }

  // ---- the section ----

  /** Section id 0, the section's length, the name, the padding and the content. */
  function SectionBytes(name: seq<byte>, padding: seq<byte>, content: seq<byte>): seq<byte>
  {
    [0] + EncodeUint(|VectorOf(name)| + |VectorOf(padding)| + |content|) + VectorOf(name) + VectorOf(padding) + content
  }

  /** Where the content of a section starts, if the section starts at `start`. */
  function ContentAt(start: nat, name: seq<byte>, padding: seq<byte>, content: seq<byte>): nat
  {
    start + (|SectionBytes(name, padding, content)| - |content|)
  }

  /** The search computes positions as they then are in the section. */
  lemma SearchedPosition(start: nat, name: seq<byte>, content: seq<byte>, q: nat)
    ensures PosWith(q, |VectorOf(name)|, |content|, start) == ContentAt(start, name, Zeros(q), content)
  {
    hide VectorOf, EncodeUint;
  }

  /** An aligned position is a multiple of the alignment, if that is a power of two. */
  lemma AlignedMultiple(n: nat, k: nat)
    ensures IsAligned(n, Pow2(k)) <==> n % Pow2(k) == 0
  {
    AndLowMask(n, k);
  }

  lemma SearchSucceeds(alignment: nat, name: seq<byte>, contentLen: nat, start: nat)
    requires exists k: nat :: k <= 7 && alignment == Pow2(k)
    ensures exists p :: 0 <= p < 2 * alignment && IsAligned(PosWith(p, |VectorOf(name)|, contentLen, start), alignment)
  {
    var k: nat :| k <= 7 && alignment == Pow2(k);
    if name != [] { LebLenMonotone(1, |name|); }
    var p := PaddingExists(k, |VectorOf(name)|, contentLen, start);
  }

  /** create_custom_section_aligned; nothing where the search found no padding. */
  method CreateCustomSectionAligned(start: nat, name: seq<byte>, content: seq<byte>, alignment: nat)
    returns (r: Option<seq<byte>>, ghost p: nat)
    requires alignment > 0
    ensures r.Some? ==>
              && p < 2 * alignment && r.value == SectionBytes(name, Zeros(p), content)
              && IsAligned(ContentAt(start, name, Zeros(p), content), alignment)
              && forall q :: 0 <= q < p ==> !IsAligned(ContentAt(start, name, Zeros(q), content), alignment)
    ensures r.Some? ==> forall k: nat :: alignment == Pow2(k) ==> (start + |r.value| - |content|) % Pow2(k) == 0
    ensures r.None? ==> forall q :: 0 <= q < 2 * alignment ==> !IsAligned(ContentAt(start, name, Zeros(q), content), alignment)
    ensures (exists k: nat :: k <= 7 && alignment == Pow2(k)) ==> r.Some?
  {
    hide VectorOf, EncodeUint, And, IsAligned, SectionBytes, PosWith, Pow2;
    forall q: nat ensures PosWith(q, |VectorOf(name)|, |content|, start) == ContentAt(start, name, Zeros(q), content) {
      SearchedPosition(start, name, content, q);
    }
    var nameBin := PresentAsVector(name);
    if exists k: nat :: k <= 7 && alignment == Pow2(k) {
      SearchSucceeds(alignment, name, |content|, start);
    }
    var found := CalcPadding(alignment, |nameBin|, |content|, start);
    p := 0;
    if found.None? { return None, 0; }
    var paddingBin := found.value;
    ghost var q :| 0 <= q < 2 * alignment && paddingBin == VectorOf(Zeros(q))
                   && IsAligned(PosWith(q, |nameBin|, |content|, start), alignment)
                   && forall q' :: 0 <= q' < q ==> !IsAligned(PosWith(q', |nameBin|, |content|, start), alignment);
    p := q;
    PositionParts(q, nameBin, paddingBin, |content|, start);
    var full := Assemble(start, nameBin, paddingBin, content, alignment);
    SectionParts(name, Zeros(q), content);
    forall k: nat | alignment == Pow2(k) ensures (start + |full| - |content|) % Pow2(k) == 0 {
      AlignedMultiple(ContentAt(start, name, Zeros(q), content), k);
    }
    return Some(full), p;
  }

  lemma PositionParts(q: nat, nameBin: seq<byte>, paddingBin: seq<byte>, contentLen: nat, start: nat)
    requires paddingBin == VectorOf(Zeros(q))
    ensures PosWith(q, |nameBin|, contentLen, start)
            == start + 1 + |EncodeUint(|nameBin| + |paddingBin| + contentLen)| + |nameBin| + |paddingBin|
  {
    hide VectorOf, EncodeUint;
  }

  lemma SectionParts(name: seq<byte>, padding: seq<byte>, content: seq<byte>)
    ensures SectionBytes(name, padding, content)
            == [0] + EncodeUint(|VectorOf(name)| + |VectorOf(padding)| + |content|) + VectorOf(name) + VectorOf(padding) + content
  {
    hide VectorOf, EncodeUint;
  }

  /** The parts one behind the other, with the content where the search put it. */
  method Assemble(start: nat, nameBin: seq<byte>, paddingBin: seq<byte>, content: seq<byte>, alignment: nat) returns (full: seq<byte>)
    requires alignment > 0
    requires var len := |EncodeUint(|nameBin| + |paddingBin| + |content|)|;
             IsAligned(start + 1 + len + |nameBin| + |paddingBin|, alignment)
    ensures full == [0] + EncodeUint(|nameBin| + |paddingBin| + |content|) + nameBin + paddingBin + content
  {
    hide EncodeUint, IsAligned;
    var pos: nat;
    pos, full := BuildContent([], start, [0]);
    var sectionLength := |nameBin| + |paddingBin| + |content|;
    var lengthBin := Leb128EncodeUint(sectionLength);
    pos, full := BuildContent(full, pos, lengthBin);
    pos, full := BuildContent(full, pos, nameBin);
    pos, full := BuildContent(full, pos, paddingBin);
    assert IsAligned(pos, alignment);
    pos, full := BuildContent(full, pos, content);
  }

  method BuildContent(content: seq<byte>, pos: nat, adding: seq<byte>) returns (pos': nat, content': seq<byte>)
    ensures pos' == pos + |adding| && content' == content + adding
  {
    return pos + |adding|, content + adding;
  }

  datatype Section = Section(name: seq<byte>, padding: seq<byte>, content: seq<byte>)

  /** Reads one custom section (sections 5.5.2 and 5.5.3 of the WebAssembly Core Specification), whose
      contents start with the padding vector this tool writes. */
  function ReadSection(s: seq<byte>): Option<(Section, seq<byte>)>
  {
    if |s| < 2 || s[0] != 0 then None
    else
      var (n, size) := DecodeUint(s[1..]);
      DecodeTakes(s[1..]);
      if 1 + n + size > |s| then None
      else
        match ReadVector(s[1 + n..1 + n + size])
        case None => None
        case Some((name, s1)) =>
          match ReadVector(s1)
          case None => None
          case Some((padding, content)) => Some((Section(name, padding, content), s[1 + n + size..]))
  }

  /** What was emitted parses back as one custom section with the same name, padding and content. */
  lemma ReadSectionBack(name: seq<byte>, padding: seq<byte>, content: seq<byte>, rest: seq<byte>)
    ensures ReadSection(SectionBytes(name, padding, content) + rest) == Some((Section(name, padding, content), rest))
  {
    var body := VectorOf(name) + (VectorOf(padding) + content);
    var len := EncodeUint(|body|);
    var s := SectionBytes(name, padding, content) + rest;
    SectionSplit(name, padding, content, rest);
    DecodeEncode(|body|, body + rest);
    ReadVectorBack(name, VectorOf(padding) + content);
    ReadVectorBack(padding, content);
    SectionSlices(len, body, rest);
  }

  lemma SectionSplit(name: seq<byte>, padding: seq<byte>, content: seq<byte>, rest: seq<byte>)
    ensures var body := VectorOf(name) + (VectorOf(padding) + content);
            SectionBytes(name, padding, content) + rest == [0] + (EncodeUint(|body|) + (body + rest))
  {
    hide EncodeUint, VectorOf;
    var n, p := VectorOf(name), VectorOf(padding);
    var len := EncodeUint(|n| + |p| + |content|);
    Assoc([0] + len + n, p, content);
    Assoc([0] + len, n, p + content);
    Assoc([0] + len, n + (p + content), rest);
    Assoc([0], len, (n + (p + content)) + rest);
  }

  lemma SectionSlices(len: seq<byte>, body: seq<byte>, rest: seq<byte>)
    ensures var s := [0] + (len + (body + rest));
            && s[1..] == len + (body + rest)
            && s[1 + |len|..1 + |len| + |body|] == body
            && s[1 + |len| + |body|..] == rest
  {
  }
}
