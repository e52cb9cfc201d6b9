/** The dumper of aot_runtime.c: a sizing pass over the profiling data and a separate pass that writes it. */
module ProfileDump {
  import opened Bits
  import opened Bytes
  import opened ProfileRecorder
  import opened ProfileData
  import opened ProfileLayout
  import opened Wrappers

  // ---- walking the chains ----

  /** The loop that counts a site's nodes by following `next`. */
  method CountNodes(d: LLVMProfileData, site: nat) returns (n: nat)
    requires d.Valid() && d.values != null && site < |d.lists|
    ensures n == |d.lists[site]|
  {
    hide LLVMProfileData.Valid;
    ChainNode(d, site, 0);
    ghost var chain := d.chains[site];
    var node := d.values[site];
    n := 0;
    while node != null
      invariant n <= |chain| && node == At(chain, n)
      decreases |chain| - n
    {
      ChainNode(d, site, n);
      n := n + 1;
      node := node.next;
    }
  }

  method StorePair(buf: array<byte>, pos: nat, x: Entry)
    requires pos + 16 <= buf.Length
    modifies buf
    ensures Wrote(old(buf[..]), buf[..], pos, pos + 16, Pair(x))
  {
    hide Wrote;
    Store(buf, pos, x.value, W64);
    ghost var mid := buf[..];
    Store(buf, pos + W64, x.count, W64);
    WroteThen(old(buf[..]), mid, buf[..], pos, pos + W64, pos + 16, LE(x.value, W64), LE(x.count, W64));
  }

  lemma NodesSnoc(list: seq<Entry>, n: nat)
    requires n < |list|
    ensures Nodes(list[..n + 1]) == Nodes(list[..n]) + Pair(list[n])
  {
    assert list[..n + 1][..n] == list[..n];
  }

  /** The loop that writes a site's pairs. */
  method WriteNodes(d: LLVMProfileData, site: nat, buf: array<byte>, pos: nat) returns (end: nat)
    requires d.Valid() && d.values != null && site < |d.lists| && buf !in d.Repr
    requires pos + 16 * |d.lists[site]| <= buf.Length
    modifies buf
    ensures Wrote(old(buf[..]), buf[..], pos, end, Nodes(d.lists[site]))
  {
    hide Wrote, Nodes, Pair, LLVMProfileData.Valid;
    ChainNode(d, site, 0);
    ghost var chain, list, before := d.chains[site], d.lists[site], buf[..];
    var node := d.values[site];
    ghost var n := 0;
    end := pos;
    WroteNothing(before, pos);
    while node != null
      invariant d.Valid() && n <= |chain| && node == At(chain, n)
      invariant Wrote(before, buf[..], pos, end, Nodes(list[..n]))
      decreases |chain| - n
    {
      ChainNode(d, site, n);
      ghost var mid := buf[..];
      StorePair(buf, end, Entry(node.value, node.count));
      NodesSnoc(list, n);
      WroteThen(before, mid, buf[..], pos, end, end + 16, Nodes(list[..n]), Pair(list[n]));
      end := end + 16;
      node := node.next;
      n := n + 1;
    }
    assert list[..n] == list;
  }

  // ---- one value kind ----

  ghost function KindLists(d: LLVMProfileData, start: nat, n: nat): seq<seq<Entry>>
    requires start + n <= |d.lists|
    reads d
  {
    d.lists[start..start + n]
  }

  lemma CountsNone(lists: seq<seq<Entry>>)
    ensures Counts(lists[..0]) == []
  {
  }

  lemma CountsSnoc(lists: seq<seq<Entry>>, k: nat)
    requires k < |lists|
    ensures Counts(lists[..k + 1]) == Counts(lists[..k]) + [|lists[k]| % 256]
  {
  }

  lemma AllNodesSnoc(lists: seq<seq<Entry>>, k: nat)
    requires k < |lists|
    ensures AllNodes(lists[..k + 1]) == AllNodes(lists[..k]) + Nodes(lists[k])
  {
    assert lists[..k + 1][..k] == lists[..k];
  }

  lemma {:induction false} AllNodesEmpty(lists: seq<seq<Entry>>)
    requires forall i :: 0 <= i < |lists| ==> lists[i] == []
    ensures AllNodes(lists) == []
  {
    if lists != [] { AllNodesEmpty(lists[..|lists| - 1]); }
  }

  lemma NoTableNoNodes(d: LLVMProfileData, start: nat, n: nat)
    requires d.Valid() && d.values == null && start + n <= |d.lists|
    ensures AllNodes(KindLists(d, start, n)) == []
  {
    AllNodesEmpty(KindLists(d, start, n));
  }

  lemma PadRounds(n: nat)
    ensures PadLen(n) == if n % 8 == 0 then 0 else 8 - n % 8
  {
  }

  method SiteCount(d: LLVMProfileData, site: nat) returns (n: nat)
    requires d.Valid() && site < |d.lists|
    ensures n == |d.lists[site]|
  {
    hide LLVMProfileData.Valid;
    ChainNode(d, site, 0);
    n := 0;
    if d.values != null { n := CountNodes(d, site); }
  }

  /** The first loop over a kind's sites: one count byte each. */
  method WriteCounts(d: LLVMProfileData, start: nat, n: nat, buf: array<byte>, pos: nat) returns (end: nat)
    requires d.Valid() && start + n <= |d.lists| && buf !in d.Repr && pos + n <= buf.Length
    modifies buf
    ensures Wrote(old(buf[..]), buf[..], pos, end, Counts(KindLists(d, start, n)))
  {
    hide Wrote, Counts, LLVMProfileData.Valid;
    ghost var before, lists := buf[..], KindLists(d, start, n);
    end := pos;
    WroteNothing(before, pos);
    CountsNone(lists);
    for k := 0 to n
      invariant d.Valid() && end == pos + k
      invariant Wrote(before, buf[..], pos, end, Counts(lists[..k]))
    {
      var count := SiteCount(d, start + k);
      ghost var mid := buf[..];
      Copy(buf, end, [count % 256]);
      CountsSnoc(lists, k);
      WroteThen(before, mid, buf[..], pos, end, end + 1, Counts(lists[..k]), [count % 256]);
      end := end + 1;
    }
    assert lists[..n] == lists;
  }

  /** The second loop over a kind's sites: all pairs of the first site, then of the next, and so on. */
  method WriteAllNodes(d: LLVMProfileData, start: nat, n: nat, buf: array<byte>, pos: nat) returns (end: nat)
    requires d.Valid() && start + n <= |d.lists| && buf !in d.Repr
    requires pos + |AllNodes(KindLists(d, start, n))| <= buf.Length
    modifies buf
    ensures Wrote(old(buf[..]), buf[..], pos, end, AllNodes(KindLists(d, start, n)))
  {
    hide Wrote, AllNodes, Nodes, LLVMProfileData.Valid;
    ghost var before, lists := buf[..], KindLists(d, start, n);
    end := pos;
    WroteNothing(before, pos);
    if d.values == null {
      NoTableNoNodes(d, start, n);
      return;
    }
    AllNodesEmpty(lists[..0]);
    for k := 0 to n
      invariant d.Valid()
      invariant Wrote(before, buf[..], pos, end, AllNodes(lists[..k]))
    {
      ghost var mid, mark := buf[..], end;
      AllNodesSnoc(lists, k);
      AllNodesPrefix(lists, k + 1);
      end := WriteNodes(d, start + k, buf, end);
      WroteThen(before, mid, buf[..], pos, mark, end, AllNodes(lists[..k]), Nodes(lists[k]));
    }
    assert lists[..n] == lists;
  }

  lemma {:induction false} AllNodesPrefix(lists: seq<seq<Entry>>, k: nat)
    requires k <= |lists|
    ensures |AllNodes(lists[..k])| <= |AllNodes(lists)|
    decreases |lists|
  {
    if k < |lists| {
      assert lists[..|lists| - 1][..k] == lists[..k];
      AllNodesPrefix(lists[..|lists| - 1], k);
    } else {
      assert lists[..k] == lists;
    }
  }

  method WriteKind(d: LLVMProfileData, kind: nat, start: nat, n: nat, buf: array<byte>, pos: nat)
    returns (end: nat, ghost pad: seq<byte>)
    requires d.Valid() && start + n <= |d.lists| && buf !in d.Repr
    requires pos + KindSize(KindLists(d, start, n)) <= buf.Length
    modifies buf
    ensures |pad| == PadLen(n)
    ensures Wrote(old(buf[..]), buf[..], pos, end, KindBytes(kind, KindLists(d, start, n), pad))
  {
    hide Wrote, AllNodes, Counts, LE, LLVMProfileData.Valid, PadLen, KindBytes, KindSize;
    ghost var lists, s0 := KindLists(d, start, n), buf[..];
    KindSizeParts(lists);
    Store(buf, pos, kind, W32);
    ghost var s1 := buf[..];
    Store(buf, pos + W32, n, W32);
    ghost var s2 := buf[..];
    WroteThen(s0, s1, s2, pos, pos + W32, pos + 8, LE(kind, W32), LE(n, W32));
    end := WriteCounts(d, start, n, buf, pos + 8);
    ghost var s3 := buf[..];
    WroteThen(s0, s2, s3, pos, pos + 8, end, LE(kind, W32) + LE(n, W32), Counts(lists));
    ghost var mark := end;
    PadRounds(n);
    if n % 8 != 0 { end := end + (8 - n % 8); }
    assert end == mark + PadLen(n);
    pad := s3[mark..end];
    WroteSkip(s3, mark, end - mark);
    WroteThen(s0, s3, s3, pos, mark, end, LE(kind, W32) + LE(n, W32) + Counts(lists), pad);
    mark := end;
    end := WriteAllNodes(d, start, n, buf, end);
    WroteThen(s0, s3, buf[..], pos, mark, end, LE(kind, W32) + LE(n, W32) + Counts(lists) + pad, AllNodes(lists));
    KindParts(kind, lists, pad);
  }

  lemma KindSizeParts(lists: seq<seq<Entry>>)
    ensures KindSize(lists) == 8 + |Counts(lists)| + PadLen(|lists|) + |AllNodes(lists)|
  {
    hide AllNodes;
  }

  lemma KindParts(kind: nat, lists: seq<seq<Entry>>, pad: seq<byte>)
    ensures KindBytes(kind, lists, pad) == LE(kind, W32) + LE(|lists|, W32) + Counts(lists) + pad + AllNodes(lists)
  {
    hide AllNodes, LE, Counts;
  }

  // ---- the value data of one record ----

  /** The record's lists, split into its two kinds. */
  ghost function ValueAt(d: LLVMProfileData, lists: seq<seq<Entry>>, pad0: seq<byte>, pad1: seq<byte>): ValueData
    requires |lists| == d.numValueSites0 + d.numValueSites1
  {
    ValueData(lists[0..d.numValueSites0], lists[d.numValueSites0..d.numValueSites0 + d.numValueSites1], pad0, pad1)
  }

  ghost function ValueOf(d: LLVMProfileData, pad0: seq<byte>, pad1: seq<byte>): ValueData
    requires |d.lists| == d.numValueSites0 + d.numValueSites1
    reads d
  {
    ValueAt(d, d.lists, pad0, pad1)
  }

  /** Storing over the four bytes that were skipped at pos completes what was written around them. */
  lemma WroteBack(s: seq<byte>, t: seq<byte>, u: seq<byte>, pos: nat, end: nat, hole: seq<byte>, rest: seq<byte>, word: seq<byte>)
    requires Wrote(s, t, pos, end, hole + rest) && Wrote(t, u, pos, pos + |word|, word) && |word| == |hole|
    ensures Wrote(s, u, pos, end, word + rest)
  {
    var m := pos + |word|;
    assert t[m..end] == t[..end][m..] == rest;
    assert t[pos..] == t[pos..];
    assert t[..pos] == t[..end][..pos] == s[..pos];
    assert u[m..end] == u[m..][..end - m] == t[m..][..end - m] == rest;
    assert u[..end] == u[..m] + u[m..end];
    assert u[end..] == u[m..][end - m..] == t[m..][end - m..] == t[end..];
    assert s[..pos] + (word + rest) == (s[..pos] + word) + rest;
  }

  /** A record's value data: TotalSize is left out at first and stored once the end is known. */
  method WriteValueData(d: LLVMProfileData, buf: array<byte>, pos: nat)
    returns (end: nat, ghost pad0: seq<byte>, ghost pad1: seq<byte>)
    requires d.Valid() && buf !in d.Repr && pos + ValueOf(d, [], []).Size() <= buf.Length
    modifies buf
    ensures |pad0| == PadLen(d.numValueSites0) && |pad1| == PadLen(d.numValueSites1)
    ensures Wrote(old(buf[..]), buf[..], pos, end, ValueOf(d, pad0, pad1).Bytes())
    ensures end == pos + ValueOf(d, [], []).Size()
  {
    hide Wrote, LE, LLVMProfileData.Valid, ValueData.Size, ValueData.Bytes, ValueData.KindsBytes, ValueData.Kinds;
    var n0, n1 := d.numValueSites0, d.numValueSites1;
    ghost var s0 := buf[..];
    pad0, pad1, end := Zeros(PadLen(n0)), Zeros(PadLen(n1)), pos;
    SizeOfValue(d, pad0, pad1);
    if n0 == 0 && n1 == 0 {
      WroteNothing(s0, pos);
      return;
    }
    ghost var hole := s0[pos..pos + W32];
    WroteSkip(s0, pos, W32);
    var numKinds := if n0 > 0 && n1 > 0 then 2 else 1;
    Store(buf, pos + W32, numKinds, W32);
    ghost var s1 := buf[..];
    WroteThen(s0, s0, s1, pos, pos + W32, pos + 8, hole, LE(numKinds, W32));
    end, pad0, pad1 := WriteKinds(d, buf, pos + 8);
    ghost var s2, v := buf[..], ValueOf(d, pad0, pad1);
    SizeOfValue(d, pad0, pad1);
    WroteThen(s0, s1, s2, pos, pos + 8, end, hole + LE(numKinds, W32), v.KindsBytes());
    Store(buf, pos, end - pos, W32);
    Assoc(hole, LE(numKinds, W32), v.KindsBytes());
    WroteBack(s0, s2, buf[..], pos, end, hole, LE(numKinds, W32) + v.KindsBytes(), LE(end - pos, W32));
    Assoc(LE(end - pos, W32), LE(numKinds, W32), v.KindsBytes());
  }

  lemma SizeOfValue(d: LLVMProfileData, pad0: seq<byte>, pad1: seq<byte>)
    requires d.Valid()
    ensures |d.lists| == d.numValueSites0 + d.numValueSites1
    ensures ValueOf(d, pad0, pad1).Size() == ValueOf(d, [], []).Size()
    ensures var v, n0, n1 := ValueOf(d, pad0, pad1), d.numValueSites0, d.numValueSites1;
            if n0 == 0 && n1 == 0 then v.Size() == 0 && v.Bytes() == []
            else
              && v.Size() >= 8
              && v.Bytes() == LE(v.Size(), W32) + LE(if n0 > 0 && n1 > 0 then 2 else 1, W32) + v.KindsBytes()
  {
    hide LE, AllNodes, ValueData.KindsBytes;
  }

  /** The loop over the two value kinds. */
  method WriteKinds(d: LLVMProfileData, buf: array<byte>, pos: nat)
    returns (end: nat, ghost pad0: seq<byte>, ghost pad1: seq<byte>)
    requires d.Valid() && buf !in d.Repr && (d.numValueSites0 > 0 || d.numValueSites1 > 0)
    requires pos + ValueOf(d, [], []).Size() <= buf.Length + 8
    modifies buf
    ensures |pad0| == PadLen(d.numValueSites0) && |pad1| == PadLen(d.numValueSites1)
    ensures Wrote(old(buf[..]), buf[..], pos, end, ValueOf(d, pad0, pad1).KindsBytes())
    ensures end + 8 == pos + ValueOf(d, [], []).Size()
  {
    hide Wrote, AllNodes, KindBytes, KindSize, PadLen, LLVMProfileData.Valid, ValueData.Size, ValueData.KindsBytes, ValueOf;
    var n0, n1 := d.numValueSites0, d.numValueSites1;
    ghost var s0 := buf[..];
    pad0, pad1, end := Zeros(PadLen(n0)), Zeros(PadLen(n1)), pos;
    KindsParts(d, [], []);
    if n0 > 0 {
      end, pad0 := WriteKind(d, 0, 0, n0, buf, end);
      KindLength(0, KindLists(d, 0, n0), pad0);
    }
    ghost var s1, mark := buf[..], end;
    if n1 > 0 {
      end, pad1 := WriteKind(d, 1, n0, n1, buf, end);
      KindLength(1, KindLists(d, n0, n1), pad1);
      if n0 > 0 {
        WroteThen(s0, s1, buf[..], pos, mark, end, KindBytes(0, KindLists(d, 0, n0), pad0),
                  KindBytes(1, KindLists(d, n0, n1), pad1));
      }
    }
    KindsParts(d, pad0, pad1);
  }

  /** What the two kinds add to a record that has value sites. */
  lemma KindsParts(d: LLVMProfileData, pad0: seq<byte>, pad1: seq<byte>)
    requires d.Valid() && (d.numValueSites0 > 0 || d.numValueSites1 > 0)
    ensures |d.lists| == d.numValueSites0 + d.numValueSites1
    ensures var v, n0, n1 := ValueOf(d, pad0, pad1), d.numValueSites0, d.numValueSites1;
            var k0, k1 := KindLists(d, 0, n0), KindLists(d, n0, n1);
            && v.Size() == 8 + (if n0 > 0 then KindSize(k0) else 0) + (if n1 > 0 then KindSize(k1) else 0)
            && v.KindsBytes() == if n0 == 0 then KindBytes(1, k1, pad1) else if n1 == 0 then KindBytes(0, k0, pad0)
                                 else KindBytes(0, k0, pad0) + KindBytes(1, k1, pad1)
  {
    hide KindBytes, KindSize;
  }

  lemma KindLength(kind: nat, lists: seq<seq<Entry>>, pad: seq<byte>)
    requires |pad| == PadLen(|lists|)
    ensures |KindBytes(kind, lists, pad)| == KindSize(lists)
  {
  }

  // ---- the module's data sections ----

  /** A data section: its bytes, or for a section of profiling data the record that lives in them. */
  datatype Section = Section(name: string, bytes: seq<byte>, data: LLVMProfileData?)

  predicate IsData(s: Section)
  {
    "__llvm_prf_data" <= s.name && s.data != null
  }

  predicate IsCounters(s: Section)
  {
    "__llvm_prf_cnts" <= s.name
  }

  predicate IsNames(s: Section)
  {
    "__llvm_prf_names" <= s.name
  }

  lemma KindsOfSectionDiffer(s: Section)
    ensures IsData(s) ==> !IsCounters(s) && !IsNames(s)
    ensures IsCounters(s) ==> !IsNames(s)
  {
    var a, b, c := "__llvm_prf_data", "__llvm_prf_cnts", "__llvm_prf_names";
    assert a[11] == 'd' && b[11] == 'c' && c[11] == 'n';
  }

  function DataOf(ss: seq<Section>): (ds: seq<LLVMProfileData>)
    ensures forall d :: d in ds ==> exists i :: 0 <= i < |ss| && ss[i].data == d
  {
    if ss == [] then []
    else
      var s := ss[|ss| - 1];
      DataOf(ss[..|ss| - 1]) + (if IsData(s) then [s.data] else [])
  }

  function CounterBytes(ss: seq<Section>): seq<byte>
  {
    if ss == [] then []
    else
      var s := ss[|ss| - 1];
      CounterBytes(ss[..|ss| - 1]) + (if IsCounters(s) then s.bytes else [])
  }

  /** The last names section counts. */
  function NameBytes(ss: seq<Section>): seq<byte>
  {
    if ss == [] then []
    else
      var s := ss[|ss| - 1];
      if IsNames(s) then s.bytes else NameBytes(ss[..|ss| - 1])
  }

  lemma SectionsSnoc(ss: seq<Section>, i: nat)
    requires i < |ss|
    ensures DataOf(ss[..i + 1]) == if IsData(ss[i]) then DataOf(ss[..i]) + [ss[i].data] else DataOf(ss[..i])
    ensures CounterBytes(ss[..i + 1]) == if IsCounters(ss[i]) then CounterBytes(ss[..i]) + ss[i].bytes
                                         else CounterBytes(ss[..i])
    ensures NameBytes(ss[..i + 1]) == if IsNames(ss[i]) then ss[i].bytes else NameBytes(ss[..i])
  {
    assert ss[..i + 1][..i] == ss[..i];
  }

  lemma {:induction false} SectionPrefix(ss: seq<Section>, i: nat, n: nat)
    requires i <= n <= |ss|
    ensures DataOf(ss[..i]) <= DataOf(ss[..n]) && CounterBytes(ss[..i]) <= CounterBytes(ss[..n])
    ensures (forall j :: i <= j < n ==> !IsNames(ss[j])) ==> NameBytes(ss[..n]) == NameBytes(ss[..i])
    decreases n
  {
    hide DataOf, CounterBytes, NameBytes, IsData, IsCounters, IsNames;
    if i < n {
      SectionPrefix(ss, i, n - 1);
      SectionsSnoc(ss, n - 1);
    }
  }

  /** Records and counters are in the order of their sections: behind those of all sections before. Names are those of
      the last section of them. */
  lemma SectionInPlace(ss: seq<Section>, i: nat)
    requires i < |ss|
    ensures IsData(ss[i]) ==> |DataOf(ss[..i])| < |DataOf(ss)| && DataOf(ss)[|DataOf(ss[..i])|] == ss[i].data
    ensures IsCounters(ss[i]) ==>
              var at := |CounterBytes(ss[..i])|;
              at + |ss[i].bytes| <= |CounterBytes(ss)| && CounterBytes(ss)[at..at + |ss[i].bytes|] == ss[i].bytes
    ensures IsNames(ss[i]) && (forall j :: i < j < |ss| ==> !IsNames(ss[j])) ==> NameBytes(ss) == ss[i].bytes
  {
    hide DataOf, CounterBytes, NameBytes, IsData, IsCounters, IsNames;
    assert ss[..|ss|] == ss;
    SectionsSnoc(ss, i);
    SectionPrefix(ss, i + 1, |ss|);
  }

  function NumCounters(ds: seq<LLVMProfileData>): nat
  {
    if ds == [] then 0 else NumCounters(ds[..|ds| - 1]) + ds[|ds| - 1].numCounters
  }

  /** The counter sections hold the eight-byte counters the records speak of, as far as 32-bit sums can tell. */
  predicate CountersMatch(ss: seq<Section>)
  {
    Wrap(|CounterBytes(ss)|) == 8 * Wrap(NumCounters(DataOf(ss)))
  }

  /** Counter sections that do match are taken for it exactly if the wrapped number of counters has at most 29 bits. */
  lemma MatchedIff(ss: seq<Section>)
    requires |CounterBytes(ss)| == 8 * NumCounters(DataOf(ss))
    ensures CountersMatch(ss) <==> Wrap(NumCounters(DataOf(ss))) < U32 / 8
  {
    var n := NumCounters(DataOf(ss));
    var k := n / U32;
    assert n == k * U32 + Wrap(n);
    WrapPeriod(8 * Wrap(n), 8 * k);
  }

  /** And short of wrapping only those are. */
  lemma MatchExact(ss: seq<Section>)
    requires |CounterBytes(ss)| < U32 && NumCounters(DataOf(ss)) < U32
    ensures CountersMatch(ss) <==> |CounterBytes(ss)| == 8 * NumCounters(DataOf(ss))
  {
  }

  ghost function ValuesLength(ds: seq<LLVMProfileData>, all: seq<seq<seq<Entry>>>): nat
    requires Shaped(ds, all)
  {
    if ds == [] then 0
    else
      var n := |ds| - 1;
      ValuesLength(ds[..n], all[..n]) + ValueAt(ds[n], all[n], [], []).Size()
  }

  /** How far the writing pass moves its cursor, given the names the sizing pass reported. */
  ghost function WrittenLength(ss: seq<Section>, all: seq<seq<seq<Entry>>>, names: seq<byte>): nat
    requires Shaped(DataOf(ss), all)
  {
    HEADER_SIZE + RECORD_SIZE * |DataOf(ss)| + |CounterBytes(ss)| + |names| + NamePadding(|names|)
    + ValuesLength(DataOf(ss), all)
  }

  /** What the sizing pass returns. */
  ghost function SizePass(ss: seq<Section>, all: seq<seq<seq<Entry>>>): nat
    requires Shaped(DataOf(ss), all)
  {
    if CountersMatch(ss) then Wrap(WrittenLength(ss, all, NameBytes(ss))) else 0
  }

  /** The names the writing pass works with: the sizing pass reports none when it gives up. */
  function ReportedNames(ss: seq<Section>): seq<byte>
  {
    if CountersMatch(ss) then NameBytes(ss) else []
  }

  /** The two passes agree exactly when the counter sections match the records and the file has a 32-bit size. With
      sections that do not match the sizing pass returns zero, which every buffer length satisfies, and the writing pass
      still advances. */
  lemma PassesAgreeIff(ss: seq<Section>, all: seq<seq<seq<Entry>>>)
    requires Shaped(DataOf(ss), all)
    ensures SizePass(ss, all) == WrittenLength(ss, all, ReportedNames(ss)) 
            <==> CountersMatch(ss) && WrittenLength(ss, all, NameBytes(ss)) < U32
    ensures !CountersMatch(ss) ==> SizePass(ss, all) == 0 && WrittenLength(ss, all, ReportedNames(ss)) >= HEADER_SIZE
  {
  }

  /** The size of the value data as the sizing pass reports it. */
  ghost function ReportedValues(ss: seq<Section>, all: seq<seq<seq<Entry>>>): nat
    requires Shaped(DataOf(ss), all)
  {
    if CountersMatch(ss) then Wrap(ValuesLength(DataOf(ss), all)) else 0
  }

  lemma {:induction false} NoValuesIff(ds: seq<LLVMProfileData>, all: seq<seq<seq<Entry>>>)
    requires Shaped(ds, all)
    ensures ValuesLength(ds, all) == 0 <==> forall i :: 0 <= i < |ds| ==> Sites(ds[i]) == 0
  {
    hide KindSize;
    if ds != [] {
      var n := |ds| - 1;
      NoValuesIff(ds[..n], all[..n]);
      assert ValueAt(ds[n], all[n], [], []).Size() == 0 <==> Sites(ds[n]) == 0;
      assert forall i :: 0 <= i < n ==> ds[..n][i] == ds[i];
    }
  }

  /** The dumper's closing assertion compares the size of the value data that it wrote with what was reported. It holds
      exactly when the counter sections match the records or the size is 0 in 32 bits; below 4 GB the latter means that
      no record has a value site. */
  lemma ClosingAssertIff(ss: seq<Section>, all: seq<seq<seq<Entry>>>)
    requires Shaped(DataOf(ss), all)
    ensures ReportedValues(ss, all) == Wrap(ValuesLength(DataOf(ss), all))
            <==> CountersMatch(ss) || Wrap(ValuesLength(DataOf(ss), all)) == 0
    ensures ValuesLength(DataOf(ss), all) < U32 ==>
              (Wrap(ValuesLength(DataOf(ss), all)) == 0 <==> forall i :: 0 <= i < |DataOf(ss)| ==> Sites(DataOf(ss)[i]) == 0)
  {
    NoValuesIff(DataOf(ss), all);
  }

  /** One counter byte and no records: the length check accepts a buffer of no bytes, the closing assertion holds,
      and yet a header and more is written. */
  lemma StrayCounterByte()
    ensures var ss := [Section("__llvm_prf_cnts", [0], null)];
            && DataOf(ss) == [] && !CountersMatch(ss)
            && SizePass(ss, []) == 0 && WrittenLength(ss, [], ReportedNames(ss)) == HEADER_SIZE + 1
            && ReportedValues(ss, []) == Wrap(ValuesLength(DataOf(ss), []))
  {
    var s := Section("__llvm_prf_cnts", [0], null);
    KindsOfSectionDiffer(s);
    assert [s][..0] == [] && "__llvm_prf_cnts" <= s.name;
    assert DataOf([s]) == [] && CounterBytes([s]) == [0] && NameBytes([s]) == [];
  }

  /** A record with a counter and a value site but no counter section: the closing assertion fails. */
  lemma MissingCounters(d: LLVMProfileData, lists: seq<seq<Entry>>)
    requires 0 < d.numCounters < U32 && Sites(d) > 0 && |lists| == Sites(d) && ValuesLength([d], [lists]) < U32
    ensures var ss := [Section("__llvm_prf_data", [], d)];
            && DataOf(ss) == [d] && Shaped(DataOf(ss), [lists])
            && ReportedValues(ss, [lists]) != Wrap(ValuesLength(DataOf(ss), [lists]))
  {
    hide DataOf, CountersMatch, ValuesLength, ValueAt;
    OneDataSection(d);
    var ss := [Section("__llvm_prf_data", [], d)];
    assert Shaped([d], [lists]);
    ClosingAssertIff(ss, [lists]);
    assert Sites(DataOf(ss)[0]) > 0;
  }

  lemma OneDataSection(d: LLVMProfileData)
    ensures var ss := [Section("__llvm_prf_data", [], d)];
            DataOf(ss) == [d] && (0 < d.numCounters < U32 ==> !CountersMatch(ss))
  {
    var s := Section("__llvm_prf_data", [], d);
    KindsOfSectionDiffer(s);
    assert [s][..0] == [] && "__llvm_prf_data" <= s.name;
    assert DataOf([s]) == [d] && CounterBytes([s]) == [];
    assert NumCounters([d]) == d.numCounters;
  }

  // ---- the sizing pass ----

  lemma CountersSnoc(ds: seq<LLVMProfileData>, d: LLVMProfileData)
    ensures NumCounters(ds + [d]) == NumCounters(ds) + d.numCounters
  {
    assert (ds + [d])[..|ds|] == ds;
  }

  lemma ValuesLengthSnoc(ds: seq<LLVMProfileData>, all: seq<seq<seq<Entry>>>, k: nat)
    requires Shaped(ds, all) && k < |ds|
    ensures Shaped(ds[..k], all[..k]) && Shaped(ds[..k + 1], all[..k + 1])
    ensures ValuesLength(ds[..k + 1], all[..k + 1])
            == ValuesLength(ds[..k], all[..k]) + ValueAt(ds[k], all[k], [], []).Size()
  {
    assert ds[..k + 1][..k] == ds[..k] && all[..k + 1][..k] == all[..k];
  }

  /** The size of one kind's data, by walking its chains. */
  method KindDataSize(d: LLVMProfileData, start: nat, n: nat) returns (size: nat)
    requires d.Valid() && start + n <= |d.lists|
    ensures size == KindSize(KindLists(d, start, n))
  {
    hide AllNodes, Nodes, AlignUp, LLVMProfileData.Valid;
    ghost var lists := KindLists(d, start, n);
    size := 8 + AlignUp(n, 8);
    if d.values == null {
      NoTableNoNodes(d, start, n);
      return;
    }
    AllNodesEmpty(lists[..0]);
    for k := 0 to n
      invariant size == 8 + AlignUp(n, 8) + |AllNodes(lists[..k])|
    {
      var nodes := CountNodes(d, start + k);
      AllNodesSnoc(lists, k);
      size := size + nodes * 8 * 2;
    }
    assert lists[..n] == lists;
  }

  method ValueDataSize(d: LLVMProfileData) returns (size: nat)
    requires d.Valid()
    ensures size == ValueOf(d, [], []).Size()
  {
    hide KindSize;
    size := 0;
    if d.numValueSites0 > 0 || d.numValueSites1 > 0 {
      size := 8;
      if d.numValueSites0 > 0 {
        var s0 := KindDataSize(d, 0, d.numValueSites0);
        size := size + s0;
      }
      if d.numValueSites1 > 0 {
        var s1 := KindDataSize(d, d.numValueSites0, d.numValueSites1);
        size := size + s1;
      }
    }
  }

  /** get_pgo_prof_data_size; all sums are 32-bit words. */
  method GetProfDataSize(ss: seq<Section>, ds: seq<LLVMProfileData>, ghost all: seq<seq<seq<Entry>>>)
    returns (total: nat, numData: nat, numCounters: nat, valuesSize: nat, names: seq<byte>)
    requires ds == DataOf(ss) && Shaped(ds, all)
    requires forall i :: 0 <= i < |ds| ==> ds[i].Valid() && ds[i].lists == all[i]
    ensures total == SizePass(ss, all) && names == ReportedNames(ss) && valuesSize == ReportedValues(ss, all)
    ensures CountersMatch(ss) ==> numData == Wrap(|ds|) && numCounters == Wrap(NumCounters(ds))
    ensures !CountersMatch(ss) ==> numData == 0 && numCounters == 0
  {
    hide Wrap, DataOf, CounterBytes, NameBytes, NumCounters, ValuesLength, LLVMProfileData.Valid;
    var countersSize;
    numData, numCounters, countersSize, names := SumSections(ss);
    if countersSize != numCounters * 8 {
      return 0, 0, 0, 0, [];
    }
    total := Wrap(HEADER_SIZE + numData * RECORD_SIZE + countersSize + |names|);
    var padding := 8 - |names| % 8;
    if padding != 8 { total := Wrap(total + padding); }
    valuesSize := SumValueSizes(ss, ds, all);
    HeadWrapped(|ds|, |CounterBytes(ss)|, |names|, NamePadding(|names|), ValuesLength(ds, all));
    total := Wrap(total + valuesSize);
  }

  /** Wrapping on the way makes no difference to the sum. */
  lemma HeadWrapped(records: nat, counters: nat, names: nat, padding: nat, values: nat)
    ensures var head := Wrap(HEADER_SIZE + Wrap(records) * RECORD_SIZE + Wrap(counters) + names);
            var all := HEADER_SIZE + RECORD_SIZE * records + counters + names + padding + values;
            && Wrap(Wrap(head + padding) + Wrap(values)) == Wrap(all)
            && (padding == 0 ==> Wrap(head + Wrap(values)) == Wrap(all))
  {
    hide Wrap;
    WrapOff(records);
    WrapOff(counters);
    WrapOff(values);
    var k, c := WrapsOf(records), WrapsOf(counters);
    var head := HEADER_SIZE + Wrap(records) * RECORD_SIZE + Wrap(counters) + names;
    WrapPeriod(head, RECORD_SIZE * k + c);
    assert head + (RECORD_SIZE * k + c) * U32 == HEADER_SIZE + RECORD_SIZE * records + counters + names;
    var sum := HEADER_SIZE + RECORD_SIZE * records + counters + names;
    WrapInner(sum, padding);
    WrapInner(sum + padding, Wrap(values));
    WrapInner(values, sum + padding);
    WrapInner(sum, Wrap(values));
  }

  /** How often a sum has wrapped. */
  function WrapsOf(x: nat): nat
  {
    x / U32
  }

  lemma WrapOff(x: nat)
    ensures x == Wrap(x) + WrapsOf(x) * U32
  {
  }

  lemma NoSums(ss: seq<Section>)
    ensures DataOf(ss[..0]) == [] && NumCounters([]) == 0 && CounterBytes(ss[..0]) == [] && NameBytes(ss[..0]) == []
    ensures Wrap(0) == 0
  {
  }

  /** The first loop of the sizing pass. */
  method SumSections(ss: seq<Section>) returns (numData: nat, numCounters: nat, countersSize: nat, names: seq<byte>)
    ensures numData == Wrap(|DataOf(ss)|) && numCounters == Wrap(NumCounters(DataOf(ss)))
    ensures countersSize == Wrap(|CounterBytes(ss)|) && names == NameBytes(ss)
  {
    hide Wrap, DataOf, CounterBytes, NameBytes, NumCounters, IsCounters, IsNames;
    numData, numCounters, countersSize, names := 0, 0, 0, [];
    NoSums(ss);
    for i := 0 to |ss|
      invariant numData == Wrap(|DataOf(ss[..i])|) && numCounters == Wrap(NumCounters(DataOf(ss[..i])))
      invariant countersSize == Wrap(|CounterBytes(ss[..i])|) && names == NameBytes(ss[..i])
    {
      SectionsSnoc(ss, i);
      KindsOfSectionDiffer(ss[i]);
      if IsData(ss[i]) {
        CountersSnoc(DataOf(ss[..i]), ss[i].data);
        WrapInner(|DataOf(ss[..i])|, 1);
        WrapInner(NumCounters(DataOf(ss[..i])), ss[i].data.numCounters);
        numData := Wrap(numData + 1);
        numCounters := Wrap(numCounters + ss[i].data.numCounters);
      } else if IsCounters(ss[i]) {
        WrapInner(|CounterBytes(ss[..i])|, |ss[i].bytes|);
        countersSize := Wrap(countersSize + |ss[i].bytes|);
      } else if IsNames(ss[i]) {
        names := ss[i].bytes;
      }
    }
    assert ss[..|ss|] == ss;
  }

  /** The second loop of the sizing pass. */
  method SumValueSizes(ss: seq<Section>, ds: seq<LLVMProfileData>, ghost all: seq<seq<seq<Entry>>>) returns (size: nat)
    requires ds == DataOf(ss) && Shaped(ds, all)
    requires forall i :: 0 <= i < |ds| ==> ds[i].Valid() && ds[i].lists == all[i]
    ensures size == Wrap(ValuesLength(ds, all))
  {
    hide DataOf, ValuesLength, LLVMProfileData.Valid, Wrap;
    size := 0;
    var k := 0;
    NoSections(ds, all);
    assert ss[..0] == [];
    for i := 0 to |ss|
      invariant k <= |ds| && ds[..k] == DataOf(ss[..i])
      invariant Shaped(ds[..k], all[..k]) && size == Wrap(ValuesLength(ds[..k], all[..k]))
    {
      NextData(ss, i, k);
      if IsData(ss[i]) {
        ValuesLengthSnoc(ds, all, k);
        var own := ValueDataSize(ds[k]);
        WrapInner(ValuesLength(ds[..k], all[..k]), own);
        size := Wrap(size + own);
        k := k + 1;
      }
    }
    AllData(ss, k);
    assert ds[..k] == ds && all[..k] == all;
  }

  lemma NoSections(ds: seq<LLVMProfileData>, all: seq<seq<seq<Entry>>>)
    ensures DataOf([]) == ds[..0] && Shaped(ds[..0], all[..0]) && ValuesLength(ds[..0], all[..0]) == 0
  {
  }

  /** Going over the sections in order visits the records in order. */
  lemma NextData(ss: seq<Section>, i: nat, k: nat)
    requires i < |ss| && k <= |DataOf(ss)| && DataOf(ss)[..k] == DataOf(ss[..i])
    ensures IsData(ss[i]) ==> k < |DataOf(ss)| && DataOf(ss)[k] == ss[i].data && DataOf(ss)[..k + 1] == DataOf(ss[..i + 1])
    ensures !IsData(ss[i]) ==> DataOf(ss)[..k] == DataOf(ss[..i + 1])
  {
    hide DataOf, IsData;
    SectionsSnoc(ss, i);
    SectionPrefix(ss, i + 1, |ss|);
    assert ss[..|ss|] == ss;
  }

  lemma AllData(ss: seq<Section>, k: nat)
    requires k <= |DataOf(ss)| && DataOf(ss)[..k] == DataOf(ss[..|ss|])
    ensures k == |DataOf(ss)|
  {
    assert ss[..|ss|] == ss;
  }

  // ---- the writing pass ----

  method StoreInts(buf: array<byte>, pos: nat, vs: seq<nat>, widths: seq<nat>) returns (end: nat)
    requires |vs| == |widths| && pos + SumOf(widths) <= buf.Length
    modifies buf
    ensures Wrote(old(buf[..]), buf[..], pos, end, IntsBytes(vs, widths))
    decreases |vs|
  {
    hide Wrote, LE;
    ghost var s0 := buf[..];
    end := pos;
    WroteNothing(s0, pos);
    if vs != [] {
      Store(buf, pos, vs[0], widths[0]);
      ghost var s1 := buf[..];
      end := StoreInts(buf, pos + widths[0], vs[1..], widths[1..]);
      WroteThen(s0, s1, buf[..], pos, pos + widths[0], end, LE(vs[0], widths[0]), IntsBytes(vs[1..], widths[1..]));
    }
  }

  /** The offset stored in record i, as the 64-bit word that holds it: from the record's own place in the
      file to the place of its first counter. */
  function OffsetOf(numData: nat, ds: seq<LLVMProfileData>, i: nat): nat
    requires i <= |ds|
  {
    (RECORD_SIZE * numData - RECORD_SIZE * i + 8 * NumCounters(ds[..i])) % U64
  }

  function InfoOf(numData: nat, ds: seq<LLVMProfileData>, i: nat, values: nat): RecordInfo
    requires i < |ds|
  {
    var d := ds[i];
    RecordInfo(d.funcMd5, d.funcHash, OffsetOf(numData, ds, i), d.funcPtr, values, d.numCounters,
               d.numValueSites0, d.numValueSites1)
  }

  /** The loop that gives every record the offset of its counters. */
  method ComputeOffsets(ss: seq<Section>, ds: seq<LLVMProfileData>, numData: nat) returns (offsets: seq<nat>)
    requires ds == DataOf(ss)
    ensures |offsets| == |ds| && forall i :: 0 <= i < |ds| ==> offsets[i] == OffsetOf(numData, ds, i)
  {
    hide DataOf;
    var countersDelta, offsetCounters := RECORD_SIZE * numData, 0;
    offsets := [];
    NoSections(ds, []);
    assert ss[..0] == [];
    for i := 0 to |ss|
      invariant |offsets| <= |ds| && ds[..|offsets|] == DataOf(ss[..i])
      invariant countersDelta == RECORD_SIZE * numData - RECORD_SIZE * |offsets|
      invariant offsetCounters == 8 * NumCounters(ds[..|offsets|])
      invariant forall k :: 0 <= k < |offsets| ==> offsets[k] == OffsetOf(numData, ds, k)
    {
      ghost var k := |offsets|;
      NextData(ss, i, k);
      if IsData(ss[i]) {
        offsets := offsets + [(countersDelta + offsetCounters) % U64];
        CountersSnoc(ds[..k], ds[k]);
        assert ds[..k + 1] == ds[..k] + [ds[k]];
        offsetCounters := offsetCounters + ss[i].data.numCounters * 8;
        countersDelta := countersDelta - RECORD_SIZE;
      }
    }
    AllData(ss, |offsets|);
  }

  lemma RecordsSnoc(records: seq<RecordInfo>, r: RecordInfo)
    ensures RecordsBytes(records + [r]) == RecordsBytes(records) + IntsBytes(r.Fields(), RECORD_WIDTHS)
  {
    assert (records + [r])[..|records|] == records;
  }

  ghost predicate Describes(records: seq<RecordInfo>, numData: nat, ds: seq<LLVMProfileData>)
  {
    |records| <= |ds| && forall i :: 0 <= i < |records| ==> records[i] == InfoOf(numData, ds, i, records[i].values)
  }

  method WriteRecords(ss: seq<Section>, ds: seq<LLVMProfileData>, numData: nat, buf: array<byte>, pos: nat)
    returns (end: nat, ghost records: seq<RecordInfo>)
    requires ds == DataOf(ss) && pos + RECORD_SIZE * |ds| <= buf.Length
    modifies buf
    ensures |records| == |ds| && Describes(records, numData, ds)
    ensures forall i :: 0 <= i < |ds| ==> records[i].values == if ds[i].values == null then 0 else ds[i].tableAddress
    ensures Wrote(old(buf[..]), buf[..], pos, end, RecordsBytes(records))
  {
    hide DataOf, Wrote, IntsBytes, RecordsBytes, OffsetOf;
    var offsets := ComputeOffsets(ss, ds, numData);
    ghost var s0 := buf[..];
    records, end := [], pos;
    NoRecords();
    WroteNothing(s0, pos);
    var k := 0;
    NoSections(ds, []);
    assert ss[..0] == [];
    for i := 0 to |ss|
      invariant k == |records| <= |ds| && ds[..k] == DataOf(ss[..i])
      invariant Describes(records, numData, ds)
      invariant forall j :: 0 <= j < k ==> records[j].values == if ds[j].values == null then 0 else ds[j].tableAddress
      invariant Wrote(s0, buf[..], pos, end, RecordsBytes(records))
    {
      NextData(ss, i, k);
      if IsData(ss[i]) {
        var d := ss[i].data;
        var r := RecordInfo(d.funcMd5, d.funcHash, offsets[k], d.funcPtr, if d.values == null then 0 else d.tableAddress,
                            d.numCounters, d.numValueSites0, d.numValueSites1);
        ghost var s1, mark := buf[..], end;
        HeaderAndRecordWidths();
        RecordsLength(records);
        IntsLength(r.Fields(), RECORD_WIDTHS);
        end := StoreInts(buf, end, r.Fields(), RECORD_WIDTHS);
        WroteThen(s0, s1, buf[..], pos, mark, end, RecordsBytes(records), IntsBytes(r.Fields(), RECORD_WIDTHS));
        RecordsSnoc(records, r);
        records := records + [r];
        k := k + 1;
      }
    }
    AllData(ss, k);
  }

  lemma NoRecords()
    ensures RecordsBytes([]) == [] && ValuesBytes([]) == []
  {
  }

  method WriteCounters(ss: seq<Section>, buf: array<byte>, pos: nat) returns (end: nat)
    requires pos + |CounterBytes(ss)| <= buf.Length
    modifies buf
    ensures Wrote(old(buf[..]), buf[..], pos, end, CounterBytes(ss))
  {
    hide Wrote, CounterBytes, IsCounters, DataOf, NameBytes;
    ghost var s0 := buf[..];
    end := pos;
    WroteNothing(s0, pos);
    NoCounters();
    for i := 0 to |ss|
      invariant Wrote(s0, buf[..], pos, end, CounterBytes(ss[..i]))
    {
      SectionsSnoc(ss, i);
      CounterRoom(ss, i + 1);
      if IsCounters(ss[i]) {
        ghost var s1, mark := buf[..], end;
        Copy(buf, end, ss[i].bytes);
        end := end + |ss[i].bytes|;
        WroteThen(s0, s1, buf[..], pos, mark, end, CounterBytes(ss[..i]), ss[i].bytes);
      }
    }
    assert ss[..|ss|] == ss;
  }

  lemma CounterRoom(ss: seq<Section>, i: nat)
    requires i <= |ss|
    ensures |CounterBytes(ss[..i])| <= |CounterBytes(ss)|
  {
    hide DataOf, CounterBytes, NameBytes;
    SectionPrefix(ss, i, |ss|);
    assert ss[..|ss|] == ss;
  }

  lemma NoCounters()
    ensures CounterBytes([]) == []
  {
  }

  method WriteNames(names: seq<byte>, buf: array<byte>, pos: nat) returns (end: nat)
    requires pos + |names| + NamePadding(|names|) <= buf.Length
    modifies buf
    ensures Wrote(old(buf[..]), buf[..], pos, end, names + Zeros(NamePadding(|names|)))
  {
    hide Wrote;
    ghost var s0 := buf[..];
    end := pos;
    WroteNothing(s0, pos);
    if |names| > 0 {
      Copy(buf, pos, names);
      ghost var s1 := buf[..];
      end := pos + |names|;
      WroteNothing(s1, end);
      var padding := 8 - |names| % 8;
      if padding != 8 {
        Copy(buf, end, Zeros(padding));
        end := end + padding;
      } else {
        assert Zeros(NamePadding(|names|)) == [];
      }
      WroteThen(s0, s1, buf[..], pos, pos + |names|, end, names, Zeros(NamePadding(|names|)));
    } else {
      assert names + Zeros(NamePadding(|names|)) == [];
    }
  }

  /** v holds the record's lists and paddings of the right length. */
  ghost predicate Holds(v: ValueData, d: LLVMProfileData, lists: seq<seq<Entry>>)
  {
    && |lists| == d.numValueSites0 + d.numValueSites1
    && v == ValueAt(d, lists, v.pad0, v.pad1)
    && |v.pad0| == PadLen(d.numValueSites0) && |v.pad1| == PadLen(d.numValueSites1)
  }

  lemma ValuesSnoc(vs: seq<ValueData>, v: ValueData)
    ensures ValuesBytes(vs + [v]) == ValuesBytes(vs) + v.Bytes()
  {
    assert (vs + [v])[..|vs|] == vs;
  }

  method WriteValues(ss: seq<Section>, ds: seq<LLVMProfileData>, ghost all: seq<seq<seq<Entry>>>, buf: array<byte>, pos: nat)
    returns (end: nat, size: nat, ghost vs: seq<ValueData>)
    requires ds == DataOf(ss) && Shaped(ds, all) && pos + ValuesLength(ds, all) <= buf.Length
    requires forall i :: 0 <= i < |ds| ==> ds[i].Valid() && buf !in ds[i].Repr && ds[i].lists == all[i]
    modifies buf
    ensures |vs| == |ds| && forall i :: 0 <= i < |ds| ==> Holds(vs[i], ds[i], all[i])
    ensures Wrote(old(buf[..]), buf[..], pos, end, ValuesBytes(vs))
    ensures end == pos + ValuesLength(ds, all) && size == Wrap(ValuesLength(ds, all))
  {
    hide Wrap, DataOf, Wrote, ValuesBytes, ValuesLength, LLVMProfileData.Valid, Holds, ValueData.Bytes;
    ghost var s0 := buf[..];
    vs, end, size := [], pos, 0;
    NoRecords();
    WroteNothing(s0, pos);
    var k := 0;
    NoSections(ds, all);
    assert ss[..0] == [];
    for i := 0 to |ss|
      invariant k == |vs| <= |ds| && ds[..k] == DataOf(ss[..i])
      invariant forall j :: 0 <= j < |ds| ==> ds[j].Valid() && buf !in ds[j].Repr && ds[j].lists == all[j]
      invariant forall j :: 0 <= j < k ==> Holds(vs[j], ds[j], all[j])
      invariant Wrote(s0, buf[..], pos, end, ValuesBytes(vs))
      invariant ValuesAt(ds, all, k, pos, end, size)
    {
      NextData(ss, i, k);
      if IsData(ss[i]) {
        ghost var s1, mark := buf[..], end;
        ghost var v;
        end, size, v := WriteNextValue(ds, all, k, buf, pos, end, size);
        WroteThen(s0, s1, buf[..], pos, mark, end, ValuesBytes(vs), v.Bytes());
        ValuesSnoc(vs, v);
        vs := vs + [v];
        k := k + 1;
      }
    }
    AllData(ss, k);
    assert ds[..k] == ds && all[..k] == all;
  }

  /** Cursor and 32-bit size after k records. */
  ghost predicate ValuesAt(ds: seq<LLVMProfileData>, all: seq<seq<seq<Entry>>>, k: nat, pos: nat, end: nat, size: nat)
    requires k <= |ds| && Shaped(ds, all)
  {
    && Shaped(ds[..k], all[..k])
    && end == pos + ValuesLength(ds[..k], all[..k]) && size == Wrap(ValuesLength(ds[..k], all[..k]))
  }

  /** The value data of the next record. */
  method WriteNextValue(ds: seq<LLVMProfileData>, ghost all: seq<seq<seq<Entry>>>, k: nat, buf: array<byte>, ghost pos: nat,
                        mark: nat, before: nat) returns (end: nat, size: nat, ghost v: ValueData)
    requires k < |ds| && Shaped(ds, all) && pos + ValuesLength(ds, all) <= buf.Length
    requires ds[k].Valid() && buf !in ds[k].Repr && ds[k].lists == all[k] && ValuesAt(ds, all, k, pos, mark, before)
    modifies buf
    ensures Holds(v, ds[k], all[k]) && Wrote(old(buf[..]), buf[..], mark, end, v.Bytes())
    ensures ValuesAt(ds, all, k + 1, pos, end, size)
  {
    hide Wrap, Wrote, ValuesLength, LLVMProfileData.Valid, ValueData.Bytes, ValueData.Size;
    ValuesLengthSnoc(ds, all, k);
    ValuesPrefix(ds, all, k + 1);
    ghost var pad0, pad1;
    end, pad0, pad1 := WriteValueData(ds[k], buf, mark);
    WrapInner(ValuesLength(ds[..k], all[..k]), end - mark);
    size := Wrap(before + (end - mark));
    v := ValueAt(ds[k], all[k], pad0, pad1);
  }

  lemma {:induction false} ValuesPrefix(ds: seq<LLVMProfileData>, all: seq<seq<seq<Entry>>>, k: nat)
    requires Shaped(ds, all) && k <= |ds|
    ensures Shaped(ds[..k], all[..k]) && ValuesLength(ds[..k], all[..k]) <= ValuesLength(ds, all)
    decreases |ds|
  {
    var n := |ds| - 1;
    if k < |ds| {
      assert ds[..n][..k] == ds[..k] && all[..n][..k] == all[..k];
      ValuesPrefix(ds[..n], all[..n], k);
    } else {
      assert ds[..k] == ds && all[..k] == all;
    }
  }

  /** aot_dump_pgo_prof_data_to_buf. The caller's buffer must have room for what gets written; when the
      two passes agree that is no more than the length check itself asks for. `reported` and `written` are the two
      sizes that the closing assertion compares. */
  method Dump(ss: seq<Section>, ds: seq<LLVMProfileData>, ghost all: seq<seq<seq<Entry>>>, buf: array<byte>, len: nat)
    returns (total: nat, end: nat, reported: nat, written: nat, ghost records: seq<RecordInfo>, ghost vs: seq<ValueData>)
    requires ds == DataOf(ss) && Shaped(ds, all)
    requires forall i :: 0 <= i < |ds| ==> ds[i].Valid() && buf !in ds[i].Repr && ds[i].lists == all[i]
    requires len >= SizePass(ss, all) ==> WrittenLength(ss, all, ReportedNames(ss)) <= buf.Length
    modifies buf
    ensures len < SizePass(ss, all) ==> total == 0 && end == 0 && buf[..] == old(buf[..])
    ensures len >= SizePass(ss, all) ==>
              && total == SizePass(ss, all)
              && end == WrittenLength(ss, all, ReportedNames(ss))
              && reported == ReportedValues(ss, all) && written == Wrap(ValuesLength(ds, all))
              && |records| == |ds| && Describes(records, if CountersMatch(ss) then Wrap(|ds|) else 0, ds)
              && (forall i :: 0 <= i < |ds| ==> records[i].values == if ds[i].values == null then 0 else ds[i].tableAddress)
              && |vs| == |ds| && (forall i :: 0 <= i < |ds| ==> Holds(vs[i], ds[i], all[i]))
              && Wrote(old(buf[..]), buf[..], 0, end, FileBytes(HeaderOf(ss), records, CounterBytes(ss), ReportedNames(ss), vs))
  {
    hide DataOf, Wrote, ValuesBytes, ValuesLength, LLVMProfileData.Valid, IntsBytes, RecordsBytes, CounterBytes, NumCounters;
    var numData, numCounters, names;
    records, vs, written := [], [], 0;
    total, numData, numCounters, reported, names := GetProfDataSize(ss, ds, all);
    if len < total {
      return 0, 0, 0, 0, [], [];
    }
    ghost var s0 := buf[..];
    HeaderAndRecordWidths();
    end := StoreInts(buf, 0, HeaderFields(numData, numCounters, |names|), HEADER_WIDTHS);
    ghost var s1, m1 := buf[..], end;
    IntsLength(HeaderFields(numData, numCounters, |names|), HEADER_WIDTHS);
    end, records := WriteRecords(ss, ds, numData, buf, end);
    ghost var s2, m2 := buf[..], end;
    RecordsLength(records);
    end := WriteCounters(ss, buf, end);
    ghost var s3, m3 := buf[..], end;
    end := WriteNames(names, buf, end);
    ghost var s4, m4 := buf[..], end;
    end, written, vs := WriteValues(ss, ds, all, buf, end);
    FilePut(s0, s1, s2, s3, s4, buf[..], m1, m2, m3, m4, end, HeaderOf(ss), records, CounterBytes(ss), names, vs);
  }

  /** The header the writing pass stores. */
  function HeaderOf(ss: seq<Section>): (h: seq<nat>)
    ensures |h| == |HEADER_WIDTHS|
  {
    if CountersMatch(ss) then HeaderFields(Wrap(|DataOf(ss)|), Wrap(NumCounters(DataOf(ss))), |NameBytes(ss)|)
    else HeaderFields(0, 0, 0)
  }

  lemma FilePut(s0: seq<byte>, s1: seq<byte>, s2: seq<byte>, s3: seq<byte>, s4: seq<byte>, s5: seq<byte>,
                m1: nat, m2: nat, m3: nat, m4: nat, end: nat, header: seq<nat>, records: seq<RecordInfo>,
                counters: seq<byte>, names: seq<byte>, vs: seq<ValueData>)
    requires |header| == |HEADER_WIDTHS|
    requires Wrote(s0, s1, 0, m1, IntsBytes(header, HEADER_WIDTHS)) && Wrote(s1, s2, m1, m2, RecordsBytes(records))
    requires Wrote(s2, s3, m2, m3, counters) && Wrote(s3, s4, m3, m4, names + Zeros(NamePadding(|names|)))
    requires Wrote(s4, s5, m4, end, ValuesBytes(vs))
    ensures Wrote(s0, s5, 0, end, FileBytes(header, records, counters, names, vs))
  {
    hide Wrote, IntsBytes, RecordsBytes, ValuesBytes;
    var a, b, z := IntsBytes(header, HEADER_WIDTHS), RecordsBytes(records), Zeros(NamePadding(|names|));
    WroteThen(s0, s1, s2, 0, m1, m2, a, b);
    WroteThen(s0, s2, s3, 0, m2, m3, a + b, counters);
    WroteThen(s0, s3, s4, 0, m3, m4, a + b + counters, names + z);
    WroteThen(s0, s4, s5, 0, m4, end, a + b + counters + (names + z), ValuesBytes(vs));
    Assoc(a + b + counters, names, z);
  }

  // ---- what a reader gets back ----

  /** The fields of the records fit the widths the file gives them. */
  ghost predicate FieldsFit(ds: seq<LLVMProfileData>)
  {
    && |ds| < U32 && NumCounters(ds) < U32
    && forall i :: 0 <= i < |ds| ==>
         && ds[i].funcMd5 < U64 && ds[i].funcHash < U64 && ds[i].funcPtr < U64 && ds[i].tableAddress < U64
         && ds[i].numCounters < U32 && ds[i].numValueSites0 < U16 && ds[i].numValueSites1 < U16
  }

  /** Every list is one that the recorder can have left: at most 255 entries of 64-bit numbers. */
  predicate Recorded(all: seq<seq<seq<Entry>>>)
  {
    forall i, k :: 0 <= i < |all| && 0 <= k < |all[i]| ==> |all[i][k]| <= MAX_NUM_VAL_PER_SITE && SmallEntries(all[i][k])
  }

  /** Whenever the sizing pass accepts the module, reading the dumped bytes gives back the header, the
      records, the counters, the names and every site's list. */
  lemma DumpReadsBack(ss: seq<Section>, all: seq<seq<seq<Entry>>>, records: seq<RecordInfo>, vs: seq<ValueData>, rest: seq<byte>)
    requires Shaped(DataOf(ss), all) && CountersMatch(ss)
    requires FieldsFit(DataOf(ss)) && Recorded(all) && |CounterBytes(ss)| < U32 && |NameBytes(ss)| < U64
    requires |records| == |vs| == |DataOf(ss)| && Describes(records, |DataOf(ss)|, DataOf(ss))
    requires forall i :: 0 <= i < |vs| ==> Holds(vs[i], DataOf(ss)[i], all[i]) && records[i].values < U64
    ensures ReadProfile(FileBytes(HeaderOf(ss), records, CounterBytes(ss), NameBytes(ss), vs) + rest)
            == Got(Profile(HeaderOf(ss), records, CounterBytes(ss), NameBytes(ss), KindsOf(vs)), rest)
  {
    hide ReadProfile, FileBytes, DataOf, CounterBytes, NameBytes, NumCounters, Holds, Belongs, Recorded;
    var ds := DataOf(ss);
    forall i | 0 <= i < |records| ensures Belongs(records[i], vs[i]) && records[i].Small() {
      HeldBelongs(records[i], vs[i], ds[i], all, i);
      assert records[i] == InfoOf(|ds|, ds, i, records[i].values);
    }
    ReadProfileBack(records, NumCounters(ds), CounterBytes(ss), NameBytes(ss), vs, rest);
  }

  /** So a reader of the dumped buffer finds, behind header and records, every site's list as the heap holds it,
      and goes on where the dump ended. */
  lemma BufferReadsBack(ss: seq<Section>, all: seq<seq<seq<Entry>>>, records: seq<RecordInfo>, vs: seq<ValueData>,
                        before: seq<byte>, buf: seq<byte>, end: nat)
    requires Shaped(DataOf(ss), all) && CountersMatch(ss)
    requires FieldsFit(DataOf(ss)) && Recorded(all) && |CounterBytes(ss)| < U32 && |NameBytes(ss)| < U64
    requires |records| == |vs| == |DataOf(ss)| && Describes(records, |DataOf(ss)|, DataOf(ss))
    requires forall i :: 0 <= i < |vs| ==> Holds(vs[i], DataOf(ss)[i], all[i]) && records[i].values < U64
    requires Wrote(before, buf, 0, end, FileBytes(HeaderOf(ss), records, CounterBytes(ss), NameBytes(ss), vs))
    ensures ReadProfile(buf) == Got(Profile(HeaderOf(ss), records, CounterBytes(ss), NameBytes(ss), KindsOf(vs)), before[end..])
    ensures forall i, k :: 0 <= i < |vs| && 0 <= k < |all[i]| ==>
              ReadSite(KindsOf(vs)[i], DataOf(ss)[i].numValueSites0, k) == Some(all[i][k])
  {
    hide ReadProfile, FileBytes, FieldsFit, Recorded, Describes, CountersMatch, HeaderOf, ReadSite, ValueData.Kinds;
    forall i, k | 0 <= i < |vs| && 0 <= k < |all[i]|
      ensures ReadSite(KindsOf(vs)[i], DataOf(ss)[i].numValueSites0, k) == Some(all[i][k])
    {
      assert Holds(vs[i], DataOf(ss)[i], all[i]) && vs[i].lists0 + vs[i].lists1 == all[i];
      SiteFound(vs[i], k);
    }
    DumpReadsBack(ss, all, records, vs, before[end..]);
    WholeBuffer(before, buf, end, FileBytes(HeaderOf(ss), records, CounterBytes(ss), NameBytes(ss), vs));
  }

  lemma WholeBuffer(before: seq<byte>, buf: seq<byte>, end: nat, bytes: seq<byte>)
    requires Wrote(before, buf, 0, end, bytes)
    ensures buf == bytes + before[end..]
  {
    assert buf == buf[..end] + buf[end..];
    assert before[..0] + bytes == bytes;
  }

  /** A kind with fewer than 2^16 sites of at most 255 nodes takes less than half of what 32 bits can count. */
  lemma KindFits(lists: seq<seq<Entry>>)
    requires |lists| < U16 && forall k :: 0 <= k < |lists| ==> |lists[k]| <= MAX_NUM_VAL_PER_SITE
    ensures KindSize(lists) + 8 < U32 / 2
  {
    hide AllNodes, AlignUp;
    AllNodesBelow(lists);
  }

  lemma {:induction false} AllNodesBelow(lists: seq<seq<Entry>>)
    requires forall k :: 0 <= k < |lists| ==> |lists[k]| <= MAX_NUM_VAL_PER_SITE
    ensures |AllNodes(lists)| <= 16 * MAX_NUM_VAL_PER_SITE * |lists|
  {
    hide Nodes;
    if lists != [] {
      var n := |lists| - 1;
      AllNodesBelow(lists[..n]);
      assert |Nodes(lists[n])| <= 16 * MAX_NUM_VAL_PER_SITE;
      assert |AllNodes(lists)| == |AllNodes(lists[..n])| + |Nodes(lists[n])|;
    }
  }

  lemma HeldBelongs(r: RecordInfo, v: ValueData, d: LLVMProfileData, all: seq<seq<seq<Entry>>>, i: nat)
    requires i < |all| && Recorded(all) && Holds(v, d, all[i])
    requires r.sites0 == d.numValueSites0 < U16 && r.sites1 == d.numValueSites1 < U16
    ensures Belongs(r, v)
  {
    hide AllNodes, KindSize;
    assert forall k :: 0 <= k < |v.lists0| ==> v.lists0[k] == all[i][k];
    assert forall k :: 0 <= k < |v.lists1| ==> v.lists1[k] == all[i][d.numValueSites0 + k];
    KindFits(v.lists0);
    KindFits(v.lists1);
  }

  /** The offset in record i leads a reader from the record to the record's own counters. */
  lemma OffsetFindsCounters(ds: seq<LLVMProfileData>, i: nat, header: seq<nat>, records: seq<RecordInfo>,
                            counters: seq<byte>, names: seq<byte>, vs: seq<ValueData>)
    requires i < |ds| == |records| && |header| == |HEADER_WIDTHS| && |counters| == 8 * NumCounters(ds)
    requires RECORD_SIZE * |ds| + 8 * NumCounters(ds) < U64
    ensures var own, first := HEADER_SIZE + RECORD_SIZE * i, 8 * NumCounters(ds[..i]);
            var at, size := own + OffsetOf(|ds|, ds, i), 8 * ds[i].numCounters;
            var file := FileBytes(header, records, counters, names, vs);
            && first + size <= |counters| && at + size <= |file|
            && file[at..at + size] == counters[first..first + size]
  {
    hide IntsBytes, RecordsBytes, ValuesBytes, NumCounters, OffsetOf, SumOf, NamePadding;
    var first, size := 8 * NumCounters(ds[..i]), 8 * ds[i].numCounters;
    CountersUpTo(ds, i);
    OffsetValue(ds, i);
    HeaderAndRecordWidths();
    IntsLength(header, HEADER_WIDTHS);
    RecordsLength(records);
    var front := IntsBytes(header, HEADER_WIDTHS) + RecordsBytes(records);
    var back := names + (Zeros(NamePadding(|names|)) + ValuesBytes(vs));
    AssocFive(front, counters, names, Zeros(NamePadding(|names|)), ValuesBytes(vs));
    SliceMiddle(front, counters, back, first, size);
  }

  /** A reader that takes the header's delta off the offset stored in a record, less 48 bytes for each record before it,
      gets the distance from the first counter to the record's own counters, and finds them there. */
  lemma DeltaFindsCounters(ss: seq<Section>, all: seq<seq<seq<Entry>>>, records: seq<RecordInfo>, vs: seq<ValueData>,
                           before: seq<byte>, buf: seq<byte>, end: nat, i: nat)
    requires Shaped(DataOf(ss), all) && CountersMatch(ss)
    requires FieldsFit(DataOf(ss)) && Recorded(all) && |CounterBytes(ss)| < U32 && |NameBytes(ss)| < U64
    requires |records| == |vs| == |DataOf(ss)| && Describes(records, |DataOf(ss)|, DataOf(ss))
    requires forall i :: 0 <= i < |vs| ==> Holds(vs[i], DataOf(ss)[i], all[i]) && records[i].values < U64
    requires Wrote(before, buf, 0, end, FileBytes(HeaderOf(ss), records, CounterBytes(ss), NameBytes(ss), vs))
    requires i < |DataOf(ss)|
    ensures ReadProfile(buf).Got?
    ensures var p, ds := ReadProfile(buf).value, DataOf(ss);
            && |p.header| == 11 && |p.records| == |ds|
            && var at := (p.records[i].offset - (p.header[8] - 48 * i)) % U64;
               && at == 8 * NumCounters(ds[..i]) && at + 8 * ds[i].numCounters <= |p.counters|
               && p.counters == CounterBytes(ss)
  {
    hide ReadProfile, FileBytes, Recorded, DataOf, Holds, Wrote, CounterBytes, NameBytes, NumCounters;
    var ds := DataOf(ss);
    BufferReadsBack(ss, all, records, vs, before, buf, end);
    CountersUpTo(ds, i);
    assert records[i] == InfoOf(|ds|, ds, i, records[i].values);
  }

  // ---- the fields in place ----

  /** The header in bytes: magic number, version, the counts, the distance from the records to the counters, the last
      value kind; all else is zero. */
  lemma HeaderPlaced(ss: seq<Section>, records: seq<RecordInfo>, vs: seq<ValueData>)
    ensures var f := FileBytes(HeaderOf(ss), records, CounterBytes(ss), ReportedNames(ss), vs);
            var n, c := Wrap(|DataOf(ss)|), Wrap(NumCounters(DataOf(ss)));
            && |f| >= 88
            && f[0..8] == [0x81, 0x72, 0x66, 0x6F, 0x72, 0x70, 0x6C, 0xFF] && f[8..16] == [8, 0, 0, 0, 0, 0, 0, 0x41]
            && f[16..24] == f[32..40] == f[48..56] == f[72..80] == Zeros(8)
            && f[24..32] == LE(if CountersMatch(ss) then n else 0, 8) && f[40..48] == LE(if CountersMatch(ss) then c else 0, 8)
            && f[56..64] == LE(|ReportedNames(ss)|, 8) && f[64..72] == LE(if CountersMatch(ss) then 48 * n else 0, 8)
            && f[80..88] == [1, 0, 0, 0, 0, 0, 0, 0]
  {
    hide IntsBytes, LE, FileBytes, CounterBytes, NameBytes, DataOf, NumCounters, CountersMatch;
    var h := HeaderOf(ss);
    var f := FileBytes(h, records, CounterBytes(ss), ReportedNames(ss), vs);
    HeaderNumbers();
    HeaderSlice(h, records, CounterBytes(ss), ReportedNames(ss), vs);
    assert f[8 * 0..8 * 0 + 8] == LE(h[0], 8) && f[8 * 1..8 * 1 + 8] == LE(h[1], 8) && f[8 * 2..8 * 2 + 8] == LE(h[2], 8);
    assert f[8 * 3..8 * 3 + 8] == LE(h[3], 8) && f[8 * 4..8 * 4 + 8] == LE(h[4], 8) && f[8 * 5..8 * 5 + 8] == LE(h[5], 8);
    assert f[8 * 6..8 * 6 + 8] == LE(h[6], 8) && f[8 * 7..8 * 7 + 8] == LE(h[7], 8) && f[8 * 8..8 * 8 + 8] == LE(h[8], 8);
    assert f[8 * 9..8 * 9 + 8] == LE(h[9], 8) && f[8 * 10..8 * 10 + 8] == LE(h[10], 8);
  }

  lemma HeaderSlice(h: seq<nat>, records: seq<RecordInfo>, counters: seq<byte>, names: seq<byte>, vs: seq<ValueData>)
    requires |h| == |HEADER_WIDTHS|
    ensures var f := FileBytes(h, records, counters, names, vs);
            |f| >= 88 && forall j :: 0 <= j < 11 ==> f[8 * j..8 * j + 8] == LE(h[j], 8)
  {
    hide IntsBytes, LE, RecordsBytes, ValuesBytes;
    var f := FileBytes(h, records, counters, names, vs);
    IntsLength(h, HEADER_WIDTHS);
    HeaderAndRecordWidths();
    assert f[0..88] == IntsBytes(h, HEADER_WIDTHS);
    forall j | 0 <= j < 11 ensures f[8 * j..8 * j + 8] == LE(h[j], 8) {
      EightBytesEach(h, HEADER_WIDTHS, j);
      Inner(f, 0, 88, 8 * j, 8);
    }
  }

  lemma HeaderNumbers()
    ensures LE(MAGIC, 8) == [0x81, 0x72, 0x66, 0x6F, 0x72, 0x70, 0x6C, 0xFF] && LE(VERSION, 8) == [8, 0, 0, 0, 0, 0, 0, 0x41]
    ensures LE(0, 8) == Zeros(8) && LE(1, 8) == [1, 0, 0, 0, 0, 0, 0, 0]
  {
    hide LE;
    MagicBytes();
    VersionBytes();
    ZeroBytes(7);
    ZeroBytes(8);
    LowByte(1, 8);
  }

  lemma MagicBytes()
    ensures LE(MAGIC, 8) == [0x81, 0x72, 0x66, 0x6F, 0x72, 0x70, 0x6C, 0xFF]
  {
    hide LE;
    LowByte(0xFF, 1);
    LowByte(0xFF6C, 2);
    LowByte(0xFF6C70, 3);
    LowByte(0xFF6C7072, 4);
    LowByte(0xFF6C70726F, 5);
    LowByte(0xFF6C70726F66, 6);
    LowByte(0xFF6C70726F6672, 7);
    LowByte(MAGIC, 8);
    ZeroBytes(0);
  }

  lemma VersionBytes()
    ensures LE(VERSION, 8) == [8, 0, 0, 0, 0, 0, 0, 0x41]
  {
    hide LE;
    LowByte(0x41, 1);
    LowByte(0x4100, 2);
    LowByte(0x410000, 3);
    LowByte(0x41000000, 4);
    LowByte(0x4100000000, 5);
    LowByte(0x410000000000, 6);
    LowByte(0x41000000000000, 7);
    LowByte(VERSION, 8);
    ZeroBytes(0);
  }

  lemma LowByte(v: nat, n: nat)
    requires n > 0
    ensures LE(v, n) == [v % 256] + LE(v / 256, n - 1)
  {
  }

  lemma {:induction false} ZeroBytes(n: nat)
    ensures LE(0, n) == Zeros(n)
  {
    if n > 0 { ZeroBytes(n - 1); }
  }

  /** Record i in bytes, each field of the function's data in its place. */
  lemma RecordPlaced(numData: nat, ds: seq<LLVMProfileData>, i: nat, header: seq<nat>, records: seq<RecordInfo>,
                     counters: seq<byte>, names: seq<byte>, vs: seq<ValueData>)
    requires i < |ds| == |records| && |header| == |HEADER_WIDTHS| && Describes(records, numData, ds)
    ensures var f, at, d := FileBytes(header, records, counters, names, vs), 88 + 48 * i, ds[i];
            && at + 48 <= |f|
            && f[at..at + 8] == LE(d.funcMd5, 8) && f[at + 8..at + 16] == LE(d.funcHash, 8)
            && f[at + 16..at + 24] == LE((48 * numData - 48 * i + 8 * NumCounters(ds[..i])) % U64, 8)
            && f[at + 24..at + 32] == LE(d.funcPtr, 8) && f[at + 32..at + 40] == LE(records[i].values, 8)
            && f[at + 40..at + 44] == LE(d.numCounters, 4)
            && f[at + 44..at + 46] == LE(d.numValueSites0, 2) && f[at + 46..at + 48] == LE(d.numValueSites1, 2)
  {
    hide IntsBytes, LE, FileBytes, NumCounters;
    var f, at := FileBytes(header, records, counters, names, vs), 88 + 48 * i;
    RecordSlice(i, header, records, counters, names, vs);
    RecordFields(records[i]);
    assert records[i] == InfoOf(numData, ds, i, records[i].values);
    Inner(f, at, 48, 0, 8);
    Inner(f, at, 48, 8, 8);
    Inner(f, at, 48, 16, 8);
    Inner(f, at, 48, 24, 8);
    Inner(f, at, 48, 32, 8);
    Inner(f, at, 48, 40, 4);
    Inner(f, at, 48, 44, 2);
    Inner(f, at, 48, 46, 2);
  }

  lemma RecordSlice(i: nat, header: seq<nat>, records: seq<RecordInfo>, counters: seq<byte>, names: seq<byte>, vs: seq<ValueData>)
    requires i < |records| && |header| == |HEADER_WIDTHS|
    ensures var f, at := FileBytes(header, records, counters, names, vs), 88 + 48 * i;
            at + 48 <= |f| && f[at..at + 48] == IntsBytes(records[i].Fields(), RECORD_WIDTHS)
  {
    hide IntsBytes, RecordsBytes, ValuesBytes;
    var h, rs := IntsBytes(header, HEADER_WIDTHS), RecordsBytes(records);
    var rest := counters + (names + (Zeros(NamePadding(|names|)) + ValuesBytes(vs)));
    IntsLength(header, HEADER_WIDTHS);
    HeaderAndRecordWidths();
    RecordsAt(records, i);
    AssocFive(h + rs, counters, names, Zeros(NamePadding(|names|)), ValuesBytes(vs));
    Assoc(h, rs, rest);
    SliceMiddle(h, rs, rest, 48 * i, 48);
  }

  lemma OffsetValue(ds: seq<LLVMProfileData>, i: nat)
    requires i < |ds| && RECORD_SIZE * |ds| + 8 * NumCounters(ds) < U64
    ensures OffsetOf(|ds|, ds, i) == RECORD_SIZE * |ds| - RECORD_SIZE * i + 8 * NumCounters(ds[..i])
  {
    CountersUpTo(ds, i);
  }

  lemma AssocFive(a: seq<byte>, b: seq<byte>, c: seq<byte>, d: seq<byte>, e: seq<byte>)
    ensures a + b + c + d + e == a + (b + (c + (d + e)))
  {
    Assoc(a + b + c, d, e);
    Assoc(a + b, c, d + e);
    Assoc(a, b, c + (d + e));
  }

  lemma SliceMiddle(a: seq<byte>, b: seq<byte>, c: seq<byte>, k: nat, n: nat)
    requires k + n <= |b|
    ensures (a + (b + c))[|a| + k..|a| + k + n] == b[k..k + n]
  {
  }

  lemma {:induction false} CountersUpTo(ds: seq<LLVMProfileData>, i: nat)
    requires i < |ds|
    ensures NumCounters(ds[..i]) + ds[i].numCounters <= NumCounters(ds)
    decreases |ds|
  {
    var n := |ds| - 1;
    if i < n {
      assert ds[..n][..i] == ds[..i];
      CountersUpTo(ds[..n], i);
    }
  }
}
