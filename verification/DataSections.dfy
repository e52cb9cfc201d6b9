/** The object data sections of a module: merged into one mapping, each on pages of its own
    (load_object_data_sections in aot_loader.c), then moved behind the code (try_merge_data_and_text). */
module DataSections {
  import opened Bits
  import opened Bytes

  /** Where a section's bytes are: nowhere yet, in the file, or in the mapping. */
  datatype Pointer = Null | InFile(at: nat) | InMap(at: nat)

  datatype Section = Section(size: nat, data: Pointer)

  // ---- alignment in machine words ----

  /** `(v + m) & ~m` with `m = 2^k - 1` in n-bit arithmetic. */
  function AlignWord(v: nat, n: nat, k: nat): nat
    requires k <= n
  {
    PowMonotone(k, n);
    And((v + Pow2(k) - 1) % Pow2(n), Pow2(n) - Pow2(k))
  }

  lemma AlignWordIs(v: nat, n: nat, k: nat)
    requires k <= n && v + Pow2(k) - 1 < Pow2(n)
    ensures AlignWord(v, n, k) == AlignUp(v, Pow2(k))
  {
    hide And, AlignUp;
    ModIs(v + Pow2(k) - 1, Pow2(n), 0, v + Pow2(k) - 1);
    AlignByMask(v, n, k);
  }

  /** An aligned size that fits in the word was computed without wrapping. */
  lemma AlignedFits(v: nat, n: nat, k: nat)
    requires k <= n && AlignUp(v, Pow2(k)) < Pow2(n)
    ensures v + Pow2(k) - 1 < Pow2(n)
  {
    hide AlignUp, Pow2;
    PowAdd(n - k, k);
    RoundLimit(AlignUp(v, Pow2(k)), Pow2(k), Pow2(n - k), Pow2(n));
  }

  lemma RoundLimit(a: nat, p: nat, q: nat, limit: nat)
    requires p > 0 && a % p == 0 && limit == q * p && a < limit
    ensures a + p <= limit
  {
    var k := a / p;
    assert a == k * p;
    if k >= q {
      MulMore(k, q, p);
    } else {
      MulOrder(k, q, p);
    }
  }

  lemma MulMore(k: nat, q: nat, p: nat)
    requires k >= q
    ensures k * p >= q * p
  {
    if k > q { MulOrder(q, k, p); }
  }

  lemma WordSizes()
    ensures Pow2(W32 * 8) == U32 && Pow2(W64 * 8) == U64
  {
    EightBits();
    PowDouble(W64, 256);
    PowDouble(W64 + W64, U16);
    PowDouble(W32 * 8, U32);
  }

  lemma EightBits()
    ensures Pow2(W64) == 256
  {
  }

  lemma PowDouble(n: nat, p: nat)
    requires Pow2(n) == p
    ensures Pow2(n + n) == p * p
  {
    hide Pow2;
    PowAdd(n, n);
  }

  // ---- the mapped image ----

  /** A section on whole pages, the last one filled up with zeros. */
  function Padded(bytes: seq<byte>, page: nat): (s: seq<byte>)
    requires page > 0
    ensures |s| == AlignUp(|bytes|, page)
  {
    bytes + Zeros(AlignUp(|bytes|, page) - |bytes|)
  }

  function Image(contents: seq<seq<byte>>, page: nat): seq<byte>
    requires page > 0
  {
    if contents == [] then []
    else Image(contents[..|contents| - 1], page) + Padded(contents[|contents| - 1], page)
  }

  /** Where section i starts in the image. */
  function Start(contents: seq<seq<byte>>, page: nat, i: nat): nat
    requires page > 0 && i <= |contents|
  {
    |Image(contents[..i], page)|
  }

  lemma ImageSnoc(contents: seq<seq<byte>>, page: nat, i: nat)
    requires page > 0 && i < |contents|
    ensures Image(contents[..i + 1], page) == Image(contents[..i], page) + Padded(contents[i], page)
    ensures Start(contents, page, i + 1) == Start(contents, page, i) + AlignUp(|contents[i]|, page)
  {
    assert contents[..i + 1][..i] == contents[..i];
  }

  lemma {:induction false} StartMonotone(contents: seq<seq<byte>>, page: nat, i: nat, j: nat)
    requires page > 0 && i <= j <= |contents|
    ensures Start(contents, page, i) <= Start(contents, page, j)
    decreases j - i
  {
    if i < j {
      StartMonotone(contents, page, i, j - 1);
      ImageSnoc(contents, page, j - 1);
    }
  }

  /** Every section starts on a page edge. */
  lemma {:induction false} StartAligned(contents: seq<seq<byte>>, page: nat, i: nat)
    requires page > 0 && i <= |contents|
    ensures Start(contents, page, i) % page == 0
  {
    if i > 0 {
      StartAligned(contents, page, i - 1);
      ImageSnoc(contents, page, i - 1);
      AlignedSum(Start(contents, page, i - 1), AlignUp(|contents[i - 1]|, page), page);
    }
  }

  lemma AlignedSum(a: nat, b: nat, page: nat)
    requires page > 0 && a % page == 0 && b % page == 0
    ensures (a + b) % page == 0
  {
    var q, r := a / page, b / page;
    assert a + b == (q + r) * page + 0 by { assert (q + r) * page == q * page + r * page; }
    ModIs(a + b, page, q + r, 0);
  }

  /** Sections keep their order and do not overlap; the last page of the last one is the end of the image. */
  lemma SectionsApart(contents: seq<seq<byte>>, page: nat, i: nat, j: nat)
    requires page > 0 && i < j <= |contents|
    ensures Start(contents, page, i) + |contents[i]| <= Start(contents, page, j)
    ensures Start(contents, page, |contents|) == |Image(contents, page)|
  {
    ImageSnoc(contents, page, i);
    StartMonotone(contents, page, i + 1, j);
    assert contents[..|contents|] == contents;
  }

  /** Each section's bytes are in the image at its start. */
  lemma {:induction false} ImageHolds(contents: seq<seq<byte>>, page: nat, i: nat, n: nat)
    requires page > 0 && i < n <= |contents|
    ensures var at := Start(contents, page, i);
            at + |contents[i]| <= |Image(contents[..n], page)| && Image(contents[..n], page)[at..at + |contents[i]|] == contents[i]
    decreases n
  {
    ImageSnoc(contents, page, n - 1);
    if i < n - 1 {
      ImageHolds(contents, page, i, n - 1);
    } else {
      var image := Image(contents[..i], page);
      assert (image + Padded(contents[i], page))[|image|..|image| + |contents[i]|] == contents[i];
    }
  }

  // ---- loading ----

  /** A section of the file: its bytes start at `at`. */
  datatype Raw = Raw(at: nat, size: nat)

  ghost predicate InBounds(raws: seq<Raw>, file: seq<byte>)
  {
    forall i :: 0 <= i < |raws| ==> raws[i].at + raws[i].size <= |file| && raws[i].size < U32
  }

  ghost function Contents(raws: seq<Raw>, file: seq<byte>): (c: seq<seq<byte>>)
    requires InBounds(raws, file)
    ensures |c| == |raws|
  {
    seq(|raws|, i requires 0 <= i < |raws| => file[raws[i].at..raws[i].at + raws[i].size])
  }

  /** The section table leads to the contents: at the running page offsets from `base`, nowhere for an empty one. */
  ghost predicate Mapped(sections: seq<Section>, map_: seq<byte>, contents: seq<seq<byte>>, page: nat, base: nat)
    requires page > 0
  {
    && |sections| == |contents|
    && forall i :: 0 <= i < |sections| ==> SectionMapped(sections[i], map_, contents, page, base, i)
  }

  ghost predicate SectionMapped(s: Section, map_: seq<byte>, contents: seq<seq<byte>>, page: nat, base: nat, i: nat)
    requires page > 0 && i < |contents|
  {
    && s.size == |contents[i]|
    && (s.size == 0 || (s.data == InMap(base + Start(contents, page, i))
                        && base + Start(contents, page, i) + s.size <= |map_|
                        && map_[s.data.at..s.data.at + s.size] == contents[i]))
  }

  /** Bytes that a mapping of the sections takes, as the first pass adds them up in 64 bits. */
  method TotalSize(sizes: seq<nat>, k: nat, ghost contents: seq<seq<byte>>, first: nat) returns (total: nat)
    requires k <= 31 && |sizes| == |contents| && forall i :: 0 <= i < |sizes| ==> sizes[i] == |contents[i]| < U32
    ensures total == first + |Image(contents, Pow2(k))|
  {
    hide AlignUp, AlignWord;
    total := first;
    for i := 0 to |sizes|
      invariant total == first + Start(contents, Pow2(k), i)
    {
      SmallAlign(sizes[i], k);
      total := total + AlignWord(sizes[i], W64 * 8, k);
      ImageSnoc(contents, Pow2(k), i);
    }
    assert contents[..|contents|] == contents;
  }

  lemma SmallAlign(v: nat, k: nat)
    requires v < U32 && k <= 31
    ensures AlignWord(v, W64 * 8, k) == AlignUp(v, Pow2(k))
  {
    hide AlignUp, AlignWord;
    WordSizes();
    PowMonotone(k, W32 * 8);
    AlignWordIs(v, W64 * 8, k);
  }

  /** The 32-bit alignment of the second pass, once the total is known to fit 32 bits. */
  lemma NarrowAlign(v: nat, k: nat)
    requires k <= 31 && AlignUp(v, Pow2(k)) < U32
    ensures AlignWord(v, W32 * 8, k) == AlignUp(v, Pow2(k))
  {
    hide AlignUp, AlignWord;
    WordSizes();
    AlignedFits(v, W32 * 8, k);
    AlignWordIs(v, W32 * 8, k);
  }

  /** load_object_data_sections, after the section headers are read. A fresh mapping is zero. */
  method LoadDataSections(file: seq<byte>, raws: seq<Raw>, k: nat, maps: bool)
    returns (ok: bool, sections: array<Section>, merged: array<byte>)
    requires InBounds(raws, file) && k <= 31
    ensures var contents := Contents(raws, file);
            && (ok <==> |Image(contents, Pow2(k))| < U32 && (maps || Image(contents, Pow2(k)) == []))
            && (ok ==> merged[..] == Image(contents, Pow2(k)) && Mapped(sections[..], merged[..], contents, Pow2(k), 0))
            && (ok ==> forall i :: 0 <= i < sections.Length && sections[i].size == 0 ==> sections[i].data == Null)
  {
    ghost var contents := Contents(raws, file);
    sections := new Section[|raws|];
    merged := new byte[0];
    for i := 0 to |raws|
      invariant forall j :: 0 <= j < i ==> FromFile(sections[j], raws[j])
    {
      sections[i] := Section(raws[i].size, if raws[i].size > 0 then InFile(raws[i].at) else Null);
    }
    var total := TotalSize(seq(|raws|, i requires 0 <= i < |raws| => raws[i].size), k, contents, 0);
    if total > 0xFFFF_FFFF { return false, sections, merged; }
    if total > 0 {
      if !maps { return false, sections, merged; }
      merged := new byte[total](_ => 0);
    }
    assert merged[..] == Zeros(total);
    MoveSections(file, raws, sections, merged, k, 0, contents);
    assert merged[..] == merged[0..];
    ok := true;
  }

  predicate FromFile(s: Section, raw: Raw)
  {
    s == Section(raw.size, if raw.size > 0 then InFile(raw.at) else Null)
  }

  /** The second pass: copies every section to its pages and makes the table point there. */
  method MoveSections(file: seq<byte>, raws: seq<Raw>, sections: array<Section>, merged: array<byte>, k: nat, base: nat,
                      ghost contents: seq<seq<byte>>)
    requires InBounds(raws, file) && contents == Contents(raws, file) && k <= 31
    requires sections.Length == |raws| && forall j :: 0 <= j < |raws| ==> FromFile(sections[j], raws[j])
    requires merged.Length == base + |Image(contents, Pow2(k))| < U32 && merged[base..] == Zeros(|Image(contents, Pow2(k))|)
    modifies sections, merged
    ensures merged[base..] == Image(contents, Pow2(k)) && merged[..base] == old(merged[..base])
    ensures Mapped(sections[..], merged[..], contents, Pow2(k), base)
    ensures forall i :: 0 <= i < sections.Length && sections[i].size == 0 ==> sections[i].data == Null
  {
    hide Image, AlignWord, AlignUp, Wrote, PointsTo, Padded;
    ghost var page, before := Pow2(k), merged[..];
    var cursor := base;
    assert Start(contents, page, 0) == 0 && Image(contents[..0], page) == [] by { EmptyImage(contents, page); }
    for i := 0 to |raws|
      invariant cursor == base + Start(contents, page, i) <= merged.Length
      invariant merged[base..cursor] == Image(contents[..i], page) && merged[..base] == before[..base]
      invariant merged[cursor..] == Zeros(merged.Length - cursor)
      invariant forall j :: i <= j < |raws| ==> FromFile(sections[j], raws[j])
      invariant forall j :: 0 <= j < i ==> PointsTo(sections[j], contents, page, base, j)
      invariant forall j :: 0 <= j < i && sections[j].size == 0 ==> sections[j].data == Null
    {
      var s;
      s, cursor := MoveSection(file, raws[i], sections[i], merged, k, base, cursor, contents, i, before);
      sections[i] := s;
    }
    assert contents[..|contents|] == contents;
    assert merged[base..] == merged[base..cursor];
    AllMapped(sections[..], merged[..], contents, page, base);
  }

  /** One section of the second pass. */
  method MoveSection(file: seq<byte>, raw: Raw, s: Section, merged: array<byte>, k: nat, base: nat, cursor: nat,
                     ghost contents: seq<seq<byte>>, ghost i: nat, ghost before: seq<byte>) returns (s': Section, next: nat)
    requires k <= 31 && i < |contents| && raw.at + raw.size <= |file| && contents[i] == file[raw.at..raw.at + raw.size]
    requires FromFile(s, raw) && merged.Length == base + |Image(contents, Pow2(k))| < U32 && base <= |before|
    requires cursor == base + Start(contents, Pow2(k), i) <= merged.Length
    requires merged[base..cursor] == Image(contents[..i], Pow2(k)) && merged[..base] == before[..base]
    requires merged[cursor..] == Zeros(merged.Length - cursor)
    modifies merged
    ensures next == base + Start(contents, Pow2(k), i + 1) <= merged.Length
    ensures merged[base..next] == Image(contents[..i + 1], Pow2(k)) && merged[..base] == before[..base]
    ensures merged[next..] == Zeros(merged.Length - next)
    ensures PointsTo(s', contents, Pow2(k), base, i) && (s'.size == 0 ==> s'.data == Null)
  {
    hide Image, AlignWord, AlignUp, Wrote, PointsTo, Padded;
    ghost var page := Pow2(k);
    s', next := s, cursor;
    Room(contents, page, i);
    ImageSnoc(contents, page, i);
    if s.size > 0 {
      PutSection(merged, base, cursor, file[s.data.at..s.data.at + s.size], page, Image(contents[..i], page), before);
      s' := Section(s.size, InMap(cursor));
      NowPoints(s', contents, page, base, i);
      NarrowAlign(s.size, k);
      next := cursor + AlignWord(s.size, W32 * 8, k);
    } else {
      EmptySection(contents[i], page);
      NothingPoints(s, contents, page, base, i);
    }
  }

  ghost predicate PointsTo(s: Section, contents: seq<seq<byte>>, page: nat, base: nat, i: nat)
    requires page > 0 && i < |contents|
  {
    s.size == |contents[i]| && (s.size == 0 || s.data == InMap(base + Start(contents, page, i)))
  }

  lemma EmptyImage(contents: seq<seq<byte>>, page: nat)
    requires page > 0
    ensures Image(contents[..0], page) == []
  {
  }

  lemma EmptySection(bytes: seq<byte>, page: nat)
    requires page > 0 && bytes == []
    ensures AlignUp(|bytes|, page) == 0 && Padded(bytes, page) == []
  {
    ModIs(page - 1, page, 0, page - 1);
  }

  lemma Room(contents: seq<seq<byte>>, page: nat, i: nat)
    requires page > 0 && i < |contents|
    ensures Start(contents, page, i) + AlignUp(|contents[i]|, page) <= |Image(contents, page)|
  {
    ImageSnoc(contents, page, i);
    StartMonotone(contents, page, i + 1, |contents|);
    assert contents[..|contents|] == contents;
  }

  method PutSection(merged: array<byte>, base: nat, cursor: nat, bytes: seq<byte>, ghost page: nat, ghost image: seq<byte>,
                    ghost before: seq<byte>)
    requires page > 0 && base <= cursor && cursor + AlignUp(|bytes|, page) <= merged.Length && base <= |before|
    requires merged[base..cursor] == image && merged[..base] == before[..base]
    requires merged[cursor..] == Zeros(merged.Length - cursor)
    modifies merged
    ensures var end := cursor + AlignUp(|bytes|, page);
            && merged[base..end] == image + Padded(bytes, page) && merged[..base] == before[..base]
            && merged[end..] == Zeros(merged.Length - end)
  {
    hide AlignUp;
    ghost var s := merged[..];
    Copy(merged, cursor, bytes);
    SectionPut(s, merged[..], base, cursor, bytes, page);
  }

  lemma SectionPut(s: seq<byte>, t: seq<byte>, base: nat, cursor: nat, bytes: seq<byte>, page: nat)
    requires page > 0 && base <= cursor && cursor + AlignUp(|bytes|, page) <= |s|
    requires Wrote(s, t, cursor, cursor + |bytes|, bytes) && s[cursor..] == Zeros(|s| - cursor)
    ensures var end := cursor + AlignUp(|bytes|, page);
            && t[base..end] == s[base..cursor] + Padded(bytes, page) && t[..base] == s[..base]
            && t[end..] == Zeros(|t| - end)
  {
    hide AlignUp;
    var mid, end := cursor + |bytes|, cursor + AlignUp(|bytes|, page);
    assert t[base..mid] == t[..mid][base..] == s[base..cursor] + bytes;
    assert t[..base] == t[..mid][..base] == s[..base];
    assert t[mid..] == s[mid..] == s[cursor..][|bytes|..] == Zeros(|t| - mid);
    assert t[mid..end] == t[mid..][..end - mid] == Zeros(end - mid);
    assert t[end..] == t[mid..][end - mid..] == Zeros(|t| - end);
    assert t[base..end] == t[base..mid] + t[mid..end];
    Assoc(s[base..cursor], bytes, Zeros(end - mid));
  }

  /** What lies in the old mapping of a section. */
  lemma OldBytes(s: Section, merged: seq<byte>, contents: seq<seq<byte>>, page: nat, i: nat)
    requires page > 0 && i < |contents| && SectionMapped(s, merged, contents, page, 0, i)
    ensures s.size == |contents[i]|
    ensures s.size > 0 ==> s.data.InMap? && s.data.at + s.size <= |merged| && merged[s.data.at..s.data.at + s.size] == contents[i]
  {
  }

  lemma NothingPoints(s: Section, contents: seq<seq<byte>>, page: nat, base: nat, i: nat)
    requires page > 0 && i < |contents| && s == Section(0, Null) && |contents[i]| == 0
    ensures PointsTo(s, contents, page, base, i)
  {
  }

  lemma NowPoints(s: Section, contents: seq<seq<byte>>, page: nat, base: nat, i: nat)
    requires page > 0 && i < |contents| && s == Section(|contents[i]|, InMap(base + Start(contents, page, i)))
    ensures PointsTo(s, contents, page, base, i)
  {
  }

  lemma AllMapped(sections: seq<Section>, map_: seq<byte>, contents: seq<seq<byte>>, page: nat, base: nat)
    requires page > 0 && |sections| == |contents| && base + |Image(contents, page)| == |map_| && map_[base..] == Image(contents, page)
    requires forall j :: 0 <= j < |sections| ==> PointsTo(sections[j], contents, page, base, j)
    ensures Mapped(sections, map_, contents, page, base)
  {
    forall i | 0 <= i < |sections| ensures SectionMapped(sections[i], map_, contents, page, base, i) {
      ImageHolds(contents, page, i, |contents|);
      assert contents[..|contents|] == contents;
      var at, n := Start(contents, page, i), |contents[i]|;
      assert map_[base + at..base + at + n] == map_[base..][at..at + n];
    }
  }

  // ---- moving the data behind the code ----

  /** try_merge_data_and_text: a mapping with the code first and every data section behind it. Failing leaves
      everything as it was; with no code there is nothing to do. */
  method MergeDataAndText(code: seq<byte>, sections: array<Section>, merged: array<byte>, k: nat, maps: bool, protects: bool,
                          ghost contents: seq<seq<byte>>) returns (ok: bool, text: seq<byte>, together: array<byte>)
    requires k <= 31 && |code| < U64 - U32
    requires merged[..] == Image(contents, Pow2(k)) && Mapped(sections[..], merged[..], contents, Pow2(k), 0)
    requires forall i :: 0 <= i < |contents| ==> |contents[i]| < U32
    modifies sections
    ensures ok <==> code == [] || (AlignUp(|code|, Pow2(k)) + |Image(contents, Pow2(k))| < U32 && maps && protects)
    ensures !ok || code == [] ==> sections[..] == old(sections[..]) && together == merged
    ensures ok ==> text == code
    ensures ok && code != [] ==>
              && together[..] == Padded(code, Pow2(k)) + Image(contents, Pow2(k))
              && Mapped(sections[..], together[..], contents, Pow2(k), AlignUp(|code|, Pow2(k)))
  {
    hide Image, AlignWord, AlignUp, Wrote, Mapped;
    text, together := code, merged;
    if |code| == 0 { return true, text, together; }
    var sizes := SizesOf(sections, merged, contents, k);
    WideAlign(|code|, k);
    var first := AlignWord(|code|, W64 * 8, k);
    var total := TotalSize(sizes, k, contents, first);
    if total > 0xFFFF_FFFF { return false, text, together; }
    if !maps || !protects { return false, text, together; }
    together := new byte[total](_ => 0);
    assert together[..] == Zeros(total);
    PutSection(together, 0, 0, code, Pow2(k), [], []);
    text := together[..|code|];
    assert text == together[0..first][..|code|] == code;
    NarrowAlign(|code|, k);
    var cursor := AlignWord(|code|, W32 * 8, k);
    MigrateSections(sections, merged, together, k, cursor, contents, Padded(code, Pow2(k)));
    assert together[..] == together[..first] + together[first..];
    return true, text, together;
  }

  lemma WideAlign(v: nat, k: nat)
    requires v < U64 - U32 && k <= 31
    ensures AlignWord(v, W64 * 8, k) == AlignUp(v, Pow2(k))
  {
    hide AlignUp, AlignWord;
    WordSizes();
    PowMonotone(k, W32 * 8);
    AlignWordIs(v, W64 * 8, k);
  }

  method SizesOf(sections: array<Section>, merged: array<byte>, ghost contents: seq<seq<byte>>, ghost k: nat)
    returns (sizes: seq<nat>)
    requires Mapped(sections[..], merged[..], contents, Pow2(k), 0)
    ensures |sizes| == |contents| && forall i :: 0 <= i < |sizes| ==> sizes[i] == |contents[i]|
  {
    sizes := [];
    for i := 0 to sections.Length
      invariant |sizes| == i && forall j :: 0 <= j < i ==> sizes[j] == |contents[j]|
    {
      assert SectionMapped(sections[..][i], merged[..], contents, Pow2(k), 0, i);
      sizes := sizes + [sections[i].size];
    }
  }

  method MigrateSections(sections: array<Section>, merged: array<byte>, together: array<byte>, k: nat, base: nat,
                         ghost contents: seq<seq<byte>>, ghost head: seq<byte>)
    requires k <= 31 && together != merged && Mapped(sections[..], merged[..], contents, Pow2(k), 0)
    requires together.Length == base + |Image(contents, Pow2(k))| < U32
    requires together[..base] == head && together[base..] == Zeros(together.Length - base)
    modifies sections, together
    ensures together[..base] == head && together[base..] == Image(contents, Pow2(k))
    ensures Mapped(sections[..], together[..], contents, Pow2(k), base)
  {
    hide Image, AlignWord, AlignUp, Wrote, SectionMapped, PointsTo, Padded;
    ghost var page := Pow2(k);
    var cursor := base;
    EmptyImage(contents, page);
    for i := 0 to sections.Length
      invariant cursor == base + Start(contents, page, i) <= together.Length
      invariant together[base..cursor] == Image(contents[..i], page) && together[..base] == head
      invariant together[cursor..] == Zeros(together.Length - cursor)
      invariant forall j :: i <= j < sections.Length ==> SectionMapped(sections[j], merged[..], contents, page, 0, j)
      invariant forall j :: 0 <= j < i ==> PointsTo(sections[j], contents, page, base, j)
    {
      Room(contents, page, i);
      ImageSnoc(contents, page, i);
      var s := sections[i];
      OldBytes(s, merged[..], contents, page, i);
      var bytes := if s.size == 0 then [] else merged[s.data.at..s.data.at + s.size];
      assert bytes == contents[i];
      PutSection(together, base, cursor, bytes, page, Image(contents[..i], page), head);
      sections[i] := Section(s.size, InMap(cursor));
      NowPoints(sections[i], contents, page, base, i);
      NarrowAlign(s.size, k);
      cursor := cursor + AlignWord(s.size, W32 * 8, k);
    }
    assert contents[..|contents|] == contents;
    assert together[base..] == together[base..cursor];
    AllMapped(sections[..], together[..], contents, page, base);
  }
}
