/** The symbol table of a relocation section: an area of strings, each behind its 16-bit length and starting
    at an even offset, and the offsets by which relocations refer to them (validate_symbol_table and
    load_relocation_section in aot_loader.c). The area starts at an aligned address. */
module SymbolTable {
  import opened Wrappers
  import opened Bytes

  /** The next even number, as align_ptr and align_uint compute it short of wrapping. */
  function Even(p: nat): (e: nat)
    ensures p <= e <= p + 1 && e % 2 == 0
  {
    p + p % 2
  }

  function LengthAt(area: seq<byte>, p: nat): nat
    requires p + W16 <= |area|
  {
    area[p] as int + 256 * (area[p + 1] as int)
  }

  /** Where the record after the one at p starts. */
  function RecordEnd(area: seq<byte>, p: nat): (end: nat)
    requires p + W16 <= |area|
    ensures end >= p + W16 + LengthAt(area, p)
  {
    Even(p + W16 + LengthAt(area, p))
  }

  /** The i-th record ends where the next one starts; the last one ends with the area. */
  predicate Chained(area: seq<byte>, offsets: seq<nat>, i: nat)
    requires i < |offsets|
  {
    && offsets[i] + W16 <= |area|
    && RecordEnd(area, offsets[i]) == if i + 1 < |offsets| then offsets[i + 1] else |area|
  }

  /** The offsets are the running sums of the record sizes, and the records tile the area. */
  predicate Tiled(area: seq<byte>, offsets: seq<nat>)
  {
    && (if offsets == [] then area == [] else offsets[0] == 0)
    && forall i :: 0 <= i < |offsets| ==> Chained(area, offsets, i)
  }

  /** After i records the cursor is at p. */
  ghost predicate Progress(area: seq<byte>, offsets: seq<nat>, i: nat, p: nat)
    requires i <= |offsets|
  {
    && (if i == 0 then p == 0 else offsets[0] == 0 && offsets[i - 1] + W16 <= |area| && p == RecordEnd(area, offsets[i - 1]))
    && forall j :: 0 <= j < i - 1 ==> Chained(area, offsets, j)
  }

  lemma ProgressStep(area: seq<byte>, offsets: seq<nat>, i: nat, p: nat)
    requires i < |offsets| && Progress(area, offsets, i, p) && offsets[i] == p && p + W16 <= |area|
    ensures Progress(area, offsets, i + 1, RecordEnd(area, p))
  {
    hide RecordEnd;
  }

  lemma NoProgress(area: seq<byte>, offsets: seq<nat>, i: nat, p: nat)
    requires i < |offsets| && Progress(area, offsets, i, p) && (offsets[i] != p || p + W16 > |area|)
    ensures !Tiled(area, offsets)
  {
    hide RecordEnd;
    assert !Chained(area, offsets, i) || (i > 0 && !Chained(area, offsets, i - 1)) || (i == 0 && offsets[0] != 0);
  }

  lemma ProgressEnd(area: seq<byte>, offsets: seq<nat>, p: nat)
    requires Progress(area, offsets, |offsets|, p)
    ensures p == |area| <==> Tiled(area, offsets)
  {
    hide RecordEnd;
    assert |offsets| > 0 ==> (Chained(area, offsets, |offsets| - 1) <==> p == |area|);
  }

  /** validate_symbol_table; the running sum is kept in 32 bits. */
  method ValidateSymbolTable(area: seq<byte>, offsets: seq<nat>) returns (ok: bool)
    requires |area| < U32 && forall i :: 0 <= i < |offsets| ==> offsets[i] < U32
    ensures ok <==> Tiled(area, offsets)
  {
    hide Progress, Chained, Tiled, RecordEnd;
    var p: nat, sum: nat := 0, 0;
    assert Progress(area, offsets, 0, 0) by { Begin(area, offsets); }
    for i := 0 to |offsets|
      invariant sum == p % U32 && p % 2 == 0
      invariant Progress(area, offsets, i, p)
    {
      if offsets[i] != sum || p + W16 > |area| {
        NoProgress(area, offsets, i, p);
        return false;
      }
      ProgressStep(area, offsets, i, p);
      p, sum := Advance(area, p, sum);
    }
    ProgressEnd(area, offsets, p);
    return p == |area|;
  }

  lemma Begin(area: seq<byte>, offsets: seq<nat>)
    ensures Progress(area, offsets, 0, 0)
  {
  }

  lemma RunningSum(p: nat, len: nat)
    requires p < U32 && len < U16 && p % 2 == 0
    ensures var sum := (p + W16 + len) % U32;
            (sum + 1) % U32 - (sum + 1) % U32 % 2 == Even(p + W16 + len) % U32
  {
    var t := p + W16 + len;
    if t < U32 {
      assert t % U32 == t;
      if t == U32 - 1 { assert Even(t) == U32; } else { assert (t + 1) % U32 == t + 1; }
    } else {
      assert t % U32 == t - U32;
      assert Even(t) % U32 == Even(t) - U32;
    }
  }

  /** Moves the cursor and the running sum past one record. */
  method Advance(area: seq<byte>, p: nat, sum: nat) returns (p': nat, sum': nat)
    requires p + W16 <= |area| && sum == p < U32 && p % 2 == 0
    ensures p' == RecordEnd(area, p) && p' % 2 == 0 && sum' == p' % U32
  {
    var len := LengthAt(area, p);
    RunningSum(p, len);
    p' := p + W16;
    sum' := (sum + W16 + len) % U32;
    sum' := (sum' + 1) % U32 - (sum' + 1) % U32 % 2;
    p' := p' + len;
    p' := Even(p');
  }

  /** The string of the record at p, without its length. */
  function RecordBytes(area: seq<byte>, p: nat): (s: seq<byte>)
    requires p + W16 <= |area| && p + W16 + LengthAt(area, p) <= |area|
    ensures |s| == LengthAt(area, p)
  {
    area[p + W16..p + W16 + LengthAt(area, p)]
  }

  /** In a table that was accepted every index leads to a record of its own: within the area, behind all earlier
      records and in front of all later ones. */
  lemma RecordsApart(area: seq<byte>, offsets: seq<nat>, i: nat, j: nat)
    requires Tiled(area, offsets) && i < j <= |offsets|
    ensures offsets[i] % 2 == 0 && offsets[i] + W16 <= |area|
    ensures offsets[i] + W16 + LengthAt(area, offsets[i]) <= if j < |offsets| then offsets[j] else |area|
    decreases j - i
  {
    assert Chained(area, offsets, i);
    if i > 0 { assert Chained(area, offsets, i - 1); }
    if i + 1 < j {
      RecordsApart(area, offsets, i + 1, j);
    }
  }

  /** The records leave no byte out but the one that makes an odd record even. */
  lemma {:induction false} RecordsCover(area: seq<byte>, offsets: seq<nat>, at: nat, n: nat)
    requires Tiled(area, offsets) && 0 < n <= |offsets| && at < (if n < |offsets| then offsets[n] else |area|)
    ensures exists i :: 0 <= i < n && Covers(area, offsets, i, at)
    decreases n
  {
    assert Chained(area, offsets, n - 1);
    if at >= offsets[n - 1] {
      assert Covers(area, offsets, n - 1, at);
    } else {
      RecordsCover(area, offsets, at, n - 1);
    }
  }

  predicate Covers(area: seq<byte>, offsets: seq<nat>, i: nat, at: nat)
    requires i < |offsets|
  {
    offsets[i] + W16 <= |area| && offsets[i] <= at < RecordEnd(area, offsets[i])
  }

  // ---- a writer of such tables ----

  type Str = s: seq<byte> | |s| < U16 witness []

  function Record(s: Str): (r: seq<byte>)
    ensures |r| == Even(W16 + |s|)
  {
    [|s| % 256, |s| / 256] + s + Zeros(|s| % 2)
  }

  lemma EvenLength(area: seq<byte>, s: Str)
    requires |area| % 2 == 0
    ensures |area + Record(s)| % 2 == 0
  {
    hide Record;
  }

  function Table(strings: seq<Str>): (area: seq<byte>)
    ensures |area| % 2 == 0
  {
    if strings == [] then [] else
      var area := Table(strings[..|strings| - 1]);
      EvenLength(area, strings[|strings| - 1]);
      area + Record(strings[|strings| - 1])
  }

  function OffsetsOf(strings: seq<Str>): (offsets: seq<nat>)
    ensures |offsets| == |strings|
  {
    seq(|strings|, i requires 0 <= i < |strings| => |Table(strings[..i])|)
  }

  lemma TableSnoc(strings: seq<Str>, i: nat)
    requires i < |strings|
    ensures Table(strings[..i + 1]) == Table(strings[..i]) + Record(strings[i])
  {
    assert strings[..i + 1][..i] == strings[..i];
  }

  lemma {:induction false} TablePrefix(strings: seq<Str>, i: nat, n: nat)
    requires i <= n <= |strings|
    ensures Table(strings[..i]) <= Table(strings[..n])
    decreases n
  {
    if i < n {
      TablePrefix(strings, i, n - 1);
      TableSnoc(strings, n - 1);
    }
  }

  /** The record of string i in the table that is written. */
  lemma RecordWritten(strings: seq<Str>, i: nat)
    requires i < |strings|
    ensures var area, p := Table(strings), OffsetsOf(strings)[i];
            && p + W16 <= |area| && LengthAt(area, p) == |strings[i]| && p + W16 + |strings[i]| <= |area|
            && RecordBytes(area, p) == strings[i]
            && RecordEnd(area, p) == if i + 1 < |strings| then OffsetsOf(strings)[i + 1] else |area|
  {
    hide Table, Record;
    TableSnoc(strings, i);
    TablePrefix(strings, i + 1, |strings|);
    assert strings[..|strings|] == strings;
    WrittenStep(Table(strings), Table(strings[..i]), strings[i]);
  }

  lemma WrittenStep(area: seq<byte>, before: seq<byte>, s: Str)
    requires before + Record(s) <= area && |before| % 2 == 0
    ensures var p := |before|;
            && p + W16 <= |area| && LengthAt(area, p) == |s| && p + W16 + |s| <= |area|
            && RecordBytes(area, p) == s && RecordEnd(area, p) == p + |Record(s)|
  {
    var p, r := |before|, Record(s);
    assert area[p] == (before + r)[p] == r[0] && area[p + 1] == (before + r)[p + 1] == r[1];
    assert r[W16..W16 + |s|] == s;
    assert area[p..p + |r|] == (before + r)[p..p + |r|] == r;
    assert area[p + W16..p + W16 + |s|] == area[p..p + |r|][W16..W16 + |s|];
  }

  /** Every table that is written so is accepted, and each index reads back its string. */
  lemma TableAccepted(strings: seq<Str>)
    ensures Tiled(Table(strings), OffsetsOf(strings))
    ensures forall i :: 0 <= i < |strings| ==> ReadsBack(strings, i)
  {
    hide Table, Record;
    var area, offsets := Table(strings), OffsetsOf(strings);
    EmptyTable(strings);
    forall i | 0 <= i < |strings| ensures Chained(area, offsets, i) && ReadsBack(strings, i) {
      RecordWritten(strings, i);
    }
  }

  lemma EmptyTable(strings: seq<Str>)
    ensures Table(strings[..0]) == []
    ensures strings == [] ==> Table(strings) == []
  {
  }

  predicate ReadsBack(strings: seq<Str>, i: nat)
    requires i < |strings|
  {
    var area, p := Table(strings), OffsetsOf(strings)[i];
    && p + W16 <= |area| && p + W16 + LengthAt(area, p) <= |area| && RecordBytes(area, p) == strings[i]
  }

  // ---- the table within its section ----

  /** An accepted table: where its strings lie in the section, and the offsets into them. */
  datatype Symbols = Symbols(start: nat, end: nat, offsets: seq<nat>)

  function Word(memory: seq<byte>, p: nat): (w: nat)
    requires p + W32 <= |memory|
    ensures w < U32
  {
    WordFits(memory[p..p + W32]);
    FromLE(memory[p..p + W32])
  }

  lemma WordFits(s: seq<byte>)
    requires |s| == W32
    ensures FromLE(s) < U32
  {
    FromLEBelow(s);
    Widths();
  }

  lemma {:induction false} FromLEBelow(s: seq<byte>)
    ensures FromLE(s) < Pow256(|s|)
  {
    if s != [] { FromLEBelow(s[1..]); }
  }

  function Words(memory: seq<byte>, p: nat, n: nat): (w: seq<nat>)
    requires p + W32 * n <= |memory|
    ensures |w| == n && forall i :: 0 <= i < n ==> w[i] < U32
  {
    seq(n, i requires 0 <= i < n => Word(memory, p + W32 * i))
  }

  /** The table that a section's header describes: a count, that many offsets, and the length of the strings behind.
      The strings' end is not held against the section's. */
  function Described(memory: seq<byte>, size: nat): Option<Symbols>
    requires size <= |memory|
  {
    if W32 > size || W32 + W32 * Word(memory, 0) + W32 > size then None
    else
      var n := Word(memory, 0);
      var p := W32 + W32 * n;
      Some(Symbols(p + W32, p + W32 + Word(memory, p), Words(memory, W32, n)))
  }

  /** The strings described are a table. */
  ghost predicate Valid(memory: seq<byte>, t: Symbols)
  {
    t.start <= t.end <= |memory| && Tiled(memory[t.start..t.end], t.offsets)
  }

  /** load_relocation_section up to its group count. `memory` is what lies from the section's start on; the section is
      its first `size` bytes. An accepted table lies within the section only because the group count behind it does. */
  method LoadSymbolTable(memory: seq<byte>, size: nat, allocates: bool) returns (r: Option<Symbols>)
    requires size <= |memory| && |memory| >= size + U32
    ensures r.Some? <==>
              && Described(memory, size).Some? && Valid(memory, Described(memory, size).value)
              && (Described(memory, size).value.offsets != [] ==> allocates)
              && Aligned(Described(memory, size).value.end) + W32 <= size
    ensures r.Some? ==> r == Described(memory, size) && r.value.end + W32 <= size
  {
    hide Word, Tiled;
    if W32 > size { return None; }
    var count := Word(memory, 0);
    var p: nat := W32;
    for i := 0 to count
      invariant p == W32 + W32 * i <= size
    {
      if p + W32 > size { return None; }
      p := p + W32;
    }
    if p + W32 > size { return None; }
    var length := Word(memory, p);
    var t := Symbols(p + W32, p + W32 + length, Words(memory, W32, count));
    var ok := ValidateSymbolTable(memory[t.start..t.end], t.offsets);
    if !ok { return None; }
    if |t.offsets| > 0 && !allocates { return None; }
    if Aligned(t.end) + W32 > size { return None; }
    return Some(t);
  }

  function WordBytes(ws: seq<nat>): (s: seq<byte>)
    ensures |s| == W32 * |ws|
  {
    if ws == [] then [] else WordBytes(ws[..|ws| - 1]) + LE(ws[|ws| - 1], W32)
  }

  /** The start of a section as it is written for these strings. */
  function Written(strings: seq<Str>): seq<byte>
  {
    LE(|strings|, W32) + WordBytes(OffsetsOf(strings)) + LE(|Table(strings)|, W32) + Table(strings)
  }

  lemma {:induction false} WordsBack(memory: seq<byte>, p: nat, ws: seq<nat>)
    requires p + W32 * |ws| <= |memory| && memory[p..p + W32 * |ws|] == WordBytes(ws) && forall i :: 0 <= i < |ws| ==> ws[i] < U32
    ensures Words(memory, p, |ws|) == ws
    decreases |ws|
  {
    hide LE, FromLE, Word;
    if ws != [] {
      var n := |ws| - 1;
      var at := p + W32 * n;
      assert memory[p..at] == WordBytes(ws)[..W32 * n] == WordBytes(ws[..n]);
      WordsBack(memory, p, ws[..n]);
      assert memory[at..at + W32] == WordBytes(ws)[W32 * n..] == LE(ws[n], W32);
      WordBack(memory, at, ws[n]);
      forall i | 0 <= i <= n ensures Words(memory, p, n + 1)[i] == ws[i] {
        if i < n { assert Words(memory, p, n)[i] == ws[i]; }
      }
    }
  }

  lemma WordBack(memory: seq<byte>, p: nat, v: nat)
    requires p + W32 <= |memory| && memory[p..p + W32] == LE(v, W32) && v < U32
    ensures Word(memory, p) == v
  {
    Widths();
    DecodeLE(v, W32);
  }

  lemma {:induction false} OffsetsBelow(strings: seq<Str>, i: nat)
    requires i < |strings|
    ensures OffsetsOf(strings)[i] <= |Table(strings)|
  {
    hide Table;
    TablePrefix(strings, i, |strings|);
    assert strings[..|strings|] == strings;
  }

  /** A section so written is described as it was written, and its strings are taken for a table. */
  lemma WrittenDescribed(memory: seq<byte>, size: nat, strings: seq<Str>)
    requires |strings| < U32 && |Table(strings)| < U32 && size <= |memory| && Written(strings) <= memory
    requires 2 * W32 + W32 * |strings| <= size
    ensures var start := 2 * W32 + W32 * |strings|;
            && Described(memory, size) == Some(Symbols(start, start + |Table(strings)|, OffsetsOf(strings)))
            && Valid(memory, Described(memory, size).value)
            && memory[start..start + |Table(strings)|] == Table(strings)
  {
    hide LE, Table, Word, WordBytes, Tiled, Words;
    var n, offsets, area := |strings|, OffsetsOf(strings), Table(strings);
    var a, b, c := LE(n, W32), WordBytes(offsets), LE(|area|, W32);
    var p := W32 + W32 * n;
    assert memory[..|Written(strings)|] == a + b + c + area;
    assert memory[0..W32] == a;
    assert memory[W32..p] == b;
    assert memory[p..p + W32] == c;
    assert memory[p + W32..p + W32 + |area|] == area;
    WordBack(memory, 0, n);
    WordBack(memory, p, |area|);
    forall i | 0 <= i < n ensures offsets[i] < U32 { OffsetsBelow(strings, i); }
    WordsBack(memory, W32, offsets);
    TableAccepted(strings);
  }

  /** Validation on its own goes past the section: one symbol, with a string area of two bytes behind the section's end. */
  lemma ValidatedBeyond(memory: seq<byte>)
    requires |memory| >= 14 && memory[..14] == [1, 0, 0, 0] + [0, 0, 0, 0] + [2, 0, 0, 0] + [0, 0]
    ensures Described(memory, 12) == Some(Symbols(12, 14, [0])) && Valid(memory, Symbols(12, 14, [0]))
  {
    SmallWord(memory, 0, 1);
    SmallWord(memory, 4, 0);
    SmallWord(memory, 8, 2);
    assert Words(memory, W32, 1) == [0];
    var area := memory[12..14];
    assert area == memory[..14][12..14] == [0, 0];
    assert Even(2) == 2 && RecordEnd(area, 0) == 2 && Chained(area, [0], 0);
  }

  lemma SmallWord(memory: seq<byte>, p: nat, a: byte)
    requires p + W32 <= 14 <= |memory| && memory[..14][p..p + W32] == [a, 0, 0, 0]
    ensures Word(memory, p) == a
  {
    assert memory[p..p + W32] == [a, 0, 0, 0];
    SmallLE(a);
  }

  lemma SmallLE(a: byte)
    ensures FromLE([a, 0, 0, 0]) == a
  {
    assert FromLE([0]) == 0 && FromLE([0, 0]) == 0 && FromLE([0, 0, 0]) == 0;
    assert [a, 0, 0, 0][1..] == [0, 0, 0];
  }
}
