/** The raw profile file: its layout as byte strings, a reader, and the proof that the reader undoes the layout. */
module ProfileLayout {
  import opened Bits
  import opened Bytes
  import opened ProfileRecorder
  import opened Wrappers

  const HEADER_SIZE := 88
  const RECORD_SIZE := 48
  const MAGIC := 0xFF6C_7072_6F66_7281
  const VERSION := 0x4100_0000_0000_0008   // version 8 with the IR and memory-profile variant bits

  datatype Read<+T> = Bad | Got(value: T, rest: seq<byte>)

  function ReadInt(s: seq<byte>, n: nat): Read<nat>
  {
    if |s| < n then Bad else Got(FromLE(s[..n]), s[n..])
  }

  lemma ReadIntLE(v: nat, n: nat, rest: seq<byte>)
    requires v < Pow256(n)
    ensures ReadInt(LE(v, n) + rest, n) == Got(v, rest)
  {
    DecodeLE(v, n);
    var s := LE(v, n) + rest;
    assert s[..n] == LE(v, n) && s[n..] == rest;
  }

  // ---- value data of one record ----

  predicate SmallEntries(list: seq<Entry>)
  {
    forall k :: 0 <= k < |list| ==> list[k].value < U64 && list[k].count < U64
  }

  predicate SmallLists(lists: seq<seq<Entry>>)
  {
    && |lists| < U16
    && forall i :: 0 <= i < |lists| ==> |lists[i]| <= MAX_NUM_VAL_PER_SITE && SmallEntries(lists[i])
  }

  function Pair(x: Entry): (s: seq<byte>)
    ensures |s| == 16
  {
    LE(x.value, W64) + LE(x.count, W64)
  }

  function Nodes(list: seq<Entry>): (s: seq<byte>)
    ensures |s| == 16 * |list|
  {
    if list == [] then [] else Nodes(list[..|list| - 1]) + Pair(list[|list| - 1])
  }

  function AllNodes(lists: seq<seq<Entry>>): seq<byte>
  {
    if lists == [] then [] else AllNodes(lists[..|lists| - 1]) + Nodes(lists[|lists| - 1])
  }

  /** The per-site counts, one byte each, as the cast `(uint8)num_value_nodes` leaves them. */
  function Counts(lists: seq<seq<Entry>>): (s: seq<byte>)
    ensures |s| == |lists|
  {
    seq(|lists|, i requires 0 <= i < |lists| => |lists[i]| % 256)
  }

  function PadLen(n: nat): (p: nat)
    ensures p < 8
  {
    AlignUp(n, 8) - n
  }

  /** One value kind: its number, its site count, the per-site counts, padding that the writer skips
      over without storing, and the (value, count) pairs of all sites in order. */
  function KindBytes(kind: nat, lists: seq<seq<Entry>>, pad: seq<byte>): seq<byte>
  {
    LE(kind, W32) + LE(|lists|, W32) + Counts(lists) + pad + AllNodes(lists)
  }

  function KindSize(lists: seq<seq<Entry>>): nat
  {
    8 + AlignUp(|lists|, 8) + |AllNodes(lists)|
  }

  function ReadPair(s: seq<byte>): Read<Entry>
  {
    match ReadInt(s, W64)
    case Bad => Bad
    case Got(value, s1) =>
      match ReadInt(s1, W64)
      case Bad => Bad
      case Got(count, s2) => Got(Entry(value, count), s2)
  }

  function ReadEntries(s: seq<byte>, n: nat): Read<seq<Entry>>
    decreases n
  {
    if n == 0 then Got([], s)
    else match ReadPair(s)
      case Bad => Bad
      case Got(x, s1) =>
        match ReadEntries(s1, n - 1)
        case Bad => Bad
        case Got(list, s2) => Got([x] + list, s2)
  }

  function ReadLists(s: seq<byte>, counts: seq<byte>): Read<seq<seq<Entry>>>
    decreases |counts|
  {
    if counts == [] then Got([], s)
    else match ReadEntries(s, counts[0])
      case Bad => Bad
      case Got(list, s1) =>
        match ReadLists(s1, counts[1..])
        case Bad => Bad
        case Got(lists, s2) => Got([list] + lists, s2)
  }

  datatype KindData = KindData(kind: nat, lists: seq<seq<Entry>>)

  function ReadKind(s: seq<byte>): Read<KindData>
  {
    match ReadInt(s, W32)
    case Bad => Bad
    case Got(kind, s1) =>
      match ReadInt(s1, W32)
      case Bad => Bad
      case Got(n, s2) =>
        if |s2| < AlignUp(n, 8) then Bad
        else match ReadLists(s2[AlignUp(n, 8)..], s2[..n])
          case Bad => Bad
          case Got(lists, s3) => Got(KindData(kind, lists), s3)
  }

  lemma {:induction false} NodesHead(list: seq<Entry>)
    requires list != []
    ensures Nodes(list) == Pair(list[0]) + Nodes(list[1..])
    decreases |list|
  {
    var n := |list| - 1;
    if n > 0 {
      NodesHead(list[..n]);
      assert list[..n][1..] == list[1..][..n - 1];
      Assoc(Pair(list[0]), Nodes(list[1..n]), Pair(list[n]));
    }
  }

  lemma ReadPairBack(x: Entry, rest: seq<byte>)
    requires x.value < U64 && x.count < U64
    ensures ReadPair(Pair(x) + rest) == Got(x, rest)
  {
    Widths();
    ReadIntLE(x.value, 8, LE(x.count, W64) + rest);
    ReadIntLE(x.count, 8, rest);
    assert Pair(x) + rest == LE(x.value, W64) + (LE(x.count, W64) + rest);
  }

  lemma ReadEntriesStep(s: seq<byte>, n: nat, x: Entry, s1: seq<byte>, list: seq<Entry>, s2: seq<byte>)
    requires ReadPair(s) == Got(x, s1) && ReadEntries(s1, n) == Got(list, s2)
    ensures ReadEntries(s, n + 1) == Got([x] + list, s2)
  {
  }

  lemma {:induction false} ReadEntriesBack(list: seq<Entry>, rest: seq<byte>)
    requires SmallEntries(list)
    ensures ReadEntries(Nodes(list) + rest, |list|) == Got(list, rest)
    decreases |list|
  {
    if list != [] {
      var tail := Nodes(list[1..]) + rest;
      NodesHead(list);
      Assoc(Pair(list[0]), Nodes(list[1..]), rest);
      ReadPairBack(list[0], tail);
      ReadEntriesBack(list[1..], rest);
      ReadEntriesStep(Pair(list[0]) + tail, |list| - 1, list[0], tail, list[1..], rest);
      assert [list[0]] + list[1..] == list;
    } else {
      assert Nodes(list) + rest == rest;
    }
  }

  lemma {:induction false} AllNodesHead(lists: seq<seq<Entry>>)
    requires lists != []
    ensures AllNodes(lists) == Nodes(lists[0]) + AllNodes(lists[1..])
    decreases |lists|
  {
    hide Nodes;
    var n := |lists| - 1;
    if n > 0 {
      AllNodesHead(lists[..n]);
      assert lists[..n][1..] == lists[1..][..n - 1];
      Assoc(Nodes(lists[0]), AllNodes(lists[1..n]), Nodes(lists[n]));
    }
  }

  lemma ReadListsStep(s: seq<byte>, c: byte, counts: seq<byte>, list: seq<Entry>, s1: seq<byte>,
                      lists: seq<seq<Entry>>, s2: seq<byte>)
    requires ReadEntries(s, c) == Got(list, s1) && ReadLists(s1, counts) == Got(lists, s2)
    ensures ReadLists(s, [c] + counts) == Got([list] + lists, s2)
  {
    assert ([c] + counts)[1..] == counts;
  }

  lemma {:induction false} ReadListsBack(lists: seq<seq<Entry>>, rest: seq<byte>)
    requires SmallLists(lists)
    ensures ReadLists(AllNodes(lists) + rest, Counts(lists)) == Got(lists, rest)
    decreases |lists|
  {
    hide ReadEntries, Nodes;
    if lists == [] {
      assert AllNodes(lists) + rest == rest;
    } else {
      var tail := AllNodes(lists[1..]) + rest;
      assert ReadEntries(Nodes(lists[0]) + tail, |lists[0]|) == Got(lists[0], tail) by {
        ReadEntriesBack(lists[0], tail);
      }
      AllNodesHead(lists);
      Assoc(Nodes(lists[0]), AllNodes(lists[1..]), rest);
      assert Counts(lists) == [|lists[0]|] + Counts(lists[1..]);
      ReadListsBack(lists[1..], rest);
      ReadListsStep(Nodes(lists[0]) + tail, |lists[0]|, Counts(lists[1..]), lists[0], tail, lists[1..], rest);
      assert [lists[0]] + lists[1..] == lists;
    }
  }

  /** The reader recovers every site's list from a kind's bytes, whatever the padding holds. */
  lemma ReadKindBack(kind: nat, lists: seq<seq<Entry>>, pad: seq<byte>, rest: seq<byte>)
    requires kind < U32 && SmallLists(lists) && |pad| == PadLen(|lists|)
    ensures ReadKind(KindBytes(kind, lists, pad) + rest) == Got(KindData(kind, lists), rest)
    ensures |KindBytes(kind, lists, pad)| == KindSize(lists)
  {
    hide KindBytes, KindSize, PadLen, AllNodes, Counts, ReadLists, ReadInt, ReadKind, LE, AlignUp;
    var n := |lists|;
    var body := AllNodes(lists) + rest;
    var s2 := Counts(lists) + pad + body;
    KindBytesSplit(kind, lists, pad, rest);
    ReadTwoInts(kind, n, s2);
    ReadListsBack(lists, rest);
    ReadKindStep(LE(kind, W32) + (LE(n, W32) + s2), kind, LE(n, W32) + s2, n, s2, lists, rest);
  }

  lemma KindBytesSplit(kind: nat, lists: seq<seq<Entry>>, pad: seq<byte>, rest: seq<byte>)
    requires |pad| == PadLen(|lists|)
    ensures |KindBytes(kind, lists, pad)| == KindSize(lists)
    ensures var n, s2 := |lists|, Counts(lists) + pad + (AllNodes(lists) + rest);
            && KindBytes(kind, lists, pad) + rest == LE(kind, W32) + (LE(n, W32) + s2)
            && |s2| >= AlignUp(n, 8) && s2[..n] == Counts(lists) && s2[AlignUp(n, 8)..] == AllNodes(lists) + rest
  {
    hide AllNodes, LE, AlignUp;
    var n, a, b := |lists|, LE(kind, W32), LE(|lists|, W32);
    var c, d := Counts(lists) + pad, AllNodes(lists);
    assert KindBytes(kind, lists, pad) == a + b + c + d;
    Assoc(a + b + c, d, rest);
    Assoc(a + b, c, d + rest);
    Assoc(a, b, c + (d + rest));
  }

  lemma ReadKindStep(s: seq<byte>, kind: nat, s1: seq<byte>, n: nat, s2: seq<byte>, lists: seq<seq<Entry>>, s3: seq<byte>)
    requires ReadInt(s, W32) == Got(kind, s1) && ReadInt(s1, W32) == Got(n, s2)
    requires n <= AlignUp(n, 8) <= |s2| && ReadLists(s2[AlignUp(n, 8)..], s2[..n]) == Got(lists, s3)
    ensures ReadKind(s) == Got(KindData(kind, lists), s3)
  {
    hide AlignUp, ReadLists, ReadInt;
  }

  /** The site lists of one record, by kind, with whatever the two skipped paddings held. */
  datatype ValueData = ValueData(lists0: seq<seq<Entry>>, lists1: seq<seq<Entry>>, pad0: seq<byte>, pad1: seq<byte>)
  {
    predicate Small()
    {
      && SmallLists(lists0) && SmallLists(lists1)
      && |pad0| == PadLen(|lists0|) && |pad1| == PadLen(|lists1|)
    }

    /** TotalSize of the record; a record without value sites has no value data at all. */
    function Size(): nat
    {
      if |lists0| == 0 && |lists1| == 0 then 0
      else 8 + (if |lists0| == 0 then 0 else KindSize(lists0)) + (if |lists1| == 0 then 0 else KindSize(lists1))
    }

    function Kinds(): seq<KindData>
    {
      if |lists0| == 0 then (if |lists1| == 0 then [] else [KindData(1, lists1)])
      else if |lists1| == 0 then [KindData(0, lists0)]
      else [KindData(0, lists0), KindData(1, lists1)]
    }

    function KindsBytes(): seq<byte>
    {
      if |lists0| == 0 then (if |lists1| == 0 then [] else KindBytes(1, lists1, pad1))
      else if |lists1| == 0 then KindBytes(0, lists0, pad0)
      else KindBytes(0, lists0, pad0) + KindBytes(1, lists1, pad1)
    }

    function Bytes(): seq<byte>
    {
      if Size() == 0 then [] else LE(Size(), W32) + LE(|Kinds()|, W32) + KindsBytes()
    }

    lemma SizeIsLength()
      requires Small()
      ensures |Bytes()| == Size()
    {
      ReadKindBack(0, lists0, pad0, []);
      ReadKindBack(1, lists1, pad1, []);
    }

    /** Every value record is a whole number of eight-byte units. */
    lemma SizeMultipleOf8()
      ensures Size() % 8 == 0
    {
      hide KindSize;
      KindMultiple(lists0);
      KindMultiple(lists1);
    }
  }

  lemma KindMultiple(lists: seq<seq<Entry>>)
    ensures KindSize(lists) % 8 == 0
  {
    hide AllNodes, AlignUp;
    AllNodesMultiple(lists);
    EightsAdd(AlignUp(|lists|, 8), |AllNodes(lists)|);
  }

  lemma EightsAdd(a: nat, b: nat)
    requires a % 8 == 0 && b % 16 == 0
    ensures (8 + a + b) % 8 == 0
  {
  }

  lemma {:induction false} AllNodesMultiple(lists: seq<seq<Entry>>)
    ensures |AllNodes(lists)| % 16 == 0
  {
    if lists != [] { AllNodesMultiple(lists[..|lists| - 1]); }
  }

  function ReadKinds(s: seq<byte>, n: nat): Read<seq<KindData>>
    decreases n
  {
    if n == 0 then Got([], s)
    else match ReadKind(s)
      case Bad => Bad
      case Got(k, s1) =>
        match ReadKinds(s1, n - 1)
        case Bad => Bad
        case Got(ks, s2) => Got([k] + ks, s2)
  }

  /** Reads a value record and insists that its TotalSize field is the number of bytes it occupies. */
  function ReadValue(s: seq<byte>): Read<seq<KindData>>
  {
    match ReadInt(s, W32)
    case Bad => Bad
    case Got(total, s1) =>
      match ReadInt(s1, W32)
      case Bad => Bad
      case Got(n, s2) =>
        match ReadKinds(s2, n)
        case Bad => Bad
        case Got(kinds, s3) => if total + |s3| == |s| then Got(kinds, s3) else Bad
  }

  lemma ReadKindsStep(s: seq<byte>, n: nat, k: KindData, s1: seq<byte>, ks: seq<KindData>, s2: seq<byte>)
    requires ReadKind(s) == Got(k, s1) && ReadKinds(s1, n) == Got(ks, s2)
    ensures ReadKinds(s, n + 1) == Got([k] + ks, s2)
  {
  }

  lemma ReadOneKind(kind: nat, lists: seq<seq<Entry>>, pad: seq<byte>, rest: seq<byte>)
    requires kind < U32 && SmallLists(lists) && |pad| == PadLen(|lists|)
    ensures ReadKinds(KindBytes(kind, lists, pad) + rest, 1) == Got([KindData(kind, lists)], rest)
  {
    ReadKindBack(kind, lists, pad, rest);
    assert ReadKinds(rest, 0) == Got([], rest);
    ReadKindsStep(KindBytes(kind, lists, pad) + rest, 0, KindData(kind, lists), rest, [], rest);
    assert [KindData(kind, lists)] + [] == [KindData(kind, lists)];
  }

  lemma KindsByCase(v: ValueData)
    ensures |v.lists0| == 0 < |v.lists1| ==>
              v.KindsBytes() == KindBytes(1, v.lists1, v.pad1) && v.Kinds() == [KindData(1, v.lists1)]
    ensures |v.lists1| == 0 < |v.lists0| ==>
              v.KindsBytes() == KindBytes(0, v.lists0, v.pad0) && v.Kinds() == [KindData(0, v.lists0)]
    ensures |v.lists0| > 0 && |v.lists1| > 0 ==>
              && v.KindsBytes() == KindBytes(0, v.lists0, v.pad0) + KindBytes(1, v.lists1, v.pad1)
              && v.Kinds() == [KindData(0, v.lists0)] + [KindData(1, v.lists1)]
  {
  }

  lemma ReadBothKinds(lists0: seq<seq<Entry>>, pad0: seq<byte>, lists1: seq<seq<Entry>>, pad1: seq<byte>, rest: seq<byte>)
    requires SmallLists(lists0) && |pad0| == PadLen(|lists0|) && SmallLists(lists1) && |pad1| == PadLen(|lists1|)
    ensures ReadKinds((KindBytes(0, lists0, pad0) + KindBytes(1, lists1, pad1)) + rest, 2)
            == Got([KindData(0, lists0)] + [KindData(1, lists1)], rest)
  {
    var b0, b1 := KindBytes(0, lists0, pad0), KindBytes(1, lists1, pad1);
    Assoc(b0, b1, rest);
    ReadOneKind(1, lists1, pad1, rest);
    ReadKindBack(0, lists0, pad0, b1 + rest);
    ReadKindsStep(b0 + (b1 + rest), 1, KindData(0, lists0), b1 + rest, [KindData(1, lists1)], rest);
  }

  lemma ReadKindsBack(v: ValueData, rest: seq<byte>)
    requires v.Small() && (|v.lists0| > 0 || |v.lists1| > 0)
    ensures ReadKinds(v.KindsBytes() + rest, |v.Kinds()|) == Got(v.Kinds(), rest)
  {
    KindsByCase(v);
    if |v.lists0| == 0 {
      ReadOneKind(1, v.lists1, v.pad1, rest);
    } else if |v.lists1| == 0 {
      ReadOneKind(0, v.lists0, v.pad0, rest);
    } else {
      ReadBothKinds(v.lists0, v.pad0, v.lists1, v.pad1, rest);
    }
  }

  lemma ReadValueStep(s: seq<byte>, total: nat, s1: seq<byte>, n: nat, s2: seq<byte>, kinds: seq<KindData>, s3: seq<byte>)
    requires ReadInt(s, W32) == Got(total, s1) && ReadInt(s1, W32) == Got(n, s2)
    requires ReadKinds(s2, n) == Got(kinds, s3) && total + |s3| == |s|
    ensures ReadValue(s) == Got(kinds, s3)
  {
  }

  lemma ReadTwoInts(a: nat, b: nat, rest: seq<byte>)
    requires a < U32 && b < U32
    ensures ReadInt(LE(a, W32) + (LE(b, W32) + rest), 4) == Got(a, LE(b, W32) + rest)
    ensures ReadInt(LE(b, W32) + rest, 4) == Got(b, rest)
  {
    Widths();
    ReadIntLE(a, 4, LE(b, W32) + rest);
    ReadIntLE(b, 4, rest);
  }

  lemma ValueBytesSplit(v: ValueData, rest: seq<byte>)
    requires v.Size() > 0
    ensures v.Bytes() + rest == LE(v.Size(), W32) + (LE(|v.Kinds()|, W32) + (v.KindsBytes() + rest))
    ensures |v.Kinds()| <= 2 && (|v.lists0| > 0 || |v.lists1| > 0)
  {
    hide ValueData.KindsBytes, LE, KindSize;
    Assoc(LE(v.Size(), W32), LE(|v.Kinds()|, W32), v.KindsBytes());
    Assoc(LE(v.Size(), W32), LE(|v.Kinds()|, W32) + v.KindsBytes(), rest);
    Assoc(LE(|v.Kinds()|, W32), v.KindsBytes(), rest);
  }

  /** The reader recovers a record's lists. */
  lemma ReadValueBack(v: ValueData, rest: seq<byte>)
    requires v.Small() && 0 < v.Size() < U32
    ensures ReadValue(v.Bytes() + rest) == Got(v.Kinds(), rest)
  {
    hide ReadKinds, ReadInt, ReadValue, LE, AllNodes, ValueData.Size, ValueData.Kinds, ValueData.KindsBytes, ValueData.Bytes, ValueData.Small;
    var n, s2 := |v.Kinds()|, v.KindsBytes() + rest;
    var s1 := LE(n, W32) + s2;
    var s := LE(v.Size(), W32) + s1;
    ValueBytesSplit(v, rest);
    v.SizeIsLength();
    ReadTwoInts(v.Size(), n, s2);
    ReadKindsBack(v, rest);
    ReadValueStep(s, v.Size(), s1, n, s2, v.Kinds(), rest);
  }

  // ---- the whole file ----

  datatype RecordInfo = RecordInfo(md5: nat, hash: nat, offset: nat, ptr: nat, values: nat,
                                   counters: nat, sites0: nat, sites1: nat)
  {
    predicate Small()
    {
      && md5 < U64 && hash < U64 && offset < U64 && ptr < U64 && values < U64
      && counters < U32 && sites0 < U16 && sites1 < U16
    }

    function Fields(): seq<nat>
    {
      [md5, hash, offset, ptr, values, counters, sites0, sites1]
    }
  }

  const RECORD_WIDTHS: seq<nat> := [W64, W64, W64, W64, W64, W32, W16, W16]
  const HEADER_WIDTHS: seq<nat> := [W64, W64, W64, W64, W64, W64, W64, W64, W64, W64, W64]

  function ReadInts(s: seq<byte>, widths: seq<nat>): Read<seq<nat>>
    decreases |widths|
  {
    if widths == [] then Got([], s)
    else match ReadInt(s, widths[0])
      case Bad => Bad
      case Got(v, s1) =>
        match ReadInts(s1, widths[1..])
        case Bad => Bad
        case Got(vs, s2) => Got([v] + vs, s2)
  }

  function IntsBytes(vs: seq<nat>, widths: seq<nat>): seq<byte>
    requires |vs| == |widths|
  {
    if vs == [] then [] else LE(vs[0], widths[0]) + IntsBytes(vs[1..], widths[1..])
  }

  lemma {:induction false} ReadIntsBack(vs: seq<nat>, widths: seq<nat>, rest: seq<byte>)
    requires |vs| == |widths| && forall i :: 0 <= i < |vs| ==> vs[i] < Pow256(widths[i])
    ensures ReadInts(IntsBytes(vs, widths) + rest, widths) == Got(vs, rest)
    decreases |vs|
  {
    hide LE, FromLE, ReadInt;
    if vs == [] {
      assert IntsBytes(vs, widths) + rest == rest;
    } else {
      var first, tail := LE(vs[0], widths[0]), IntsBytes(vs[1..], widths[1..]) + rest;
      Assoc(first, IntsBytes(vs[1..], widths[1..]), rest);
      ReadIntLE(vs[0], widths[0], tail);
      ReadIntsBack(vs[1..], widths[1..], rest);
      ReadIntsStep(first + tail, widths, vs[0], tail, vs[1..], rest);
      assert [vs[0]] + vs[1..] == vs;
    }
  }

  lemma ReadIntsStep(s: seq<byte>, widths: seq<nat>, v: nat, s1: seq<byte>, vs: seq<nat>, s2: seq<byte>)
    requires widths != [] && ReadInt(s, widths[0]) == Got(v, s1) && ReadInts(s1, widths[1..]) == Got(vs, s2)
    ensures ReadInts(s, widths) == Got([v] + vs, s2)
  {
  }

  function SumOf(widths: seq<nat>): nat
  {
    if widths == [] then 0 else widths[0] + SumOf(widths[1..])
  }

  lemma {:induction false} IntsLength(vs: seq<nat>, widths: seq<nat>)
    requires |vs| == |widths|
    ensures |IntsBytes(vs, widths)| == SumOf(widths)
    decreases |vs|
  {
    if vs != [] { IntsLength(vs[1..], widths[1..]); }
  }

  function HeaderFields(numData: nat, numCounters: nat, namesSize: nat): seq<nat>
  {
    [MAGIC, VERSION, 0, numData, 0, numCounters, 0, namesSize, RECORD_SIZE * numData, 0, 1]
  }

  function RecordsBytes(records: seq<RecordInfo>): seq<byte>
  {
    if records == [] then []
    else RecordsBytes(records[..|records| - 1]) + IntsBytes(records[|records| - 1].Fields(), RECORD_WIDTHS)
  }

  function ValuesBytes(values: seq<ValueData>): seq<byte>
  {
    if values == [] then [] else ValuesBytes(values[..|values| - 1]) + values[|values| - 1].Bytes()
  }

  function NamePadding(n: nat): nat
  {
    if n % 8 == 0 then 0 else 8 - n % 8
  }

  function FileBytes(header: seq<nat>, records: seq<RecordInfo>, counters: seq<byte>, names: seq<byte>,
                     values: seq<ValueData>): seq<byte>
    requires |header| == |HEADER_WIDTHS|
  {
    IntsBytes(header, HEADER_WIDTHS)
    + RecordsBytes(records) + counters + names + Zeros(NamePadding(|names|)) + ValuesBytes(values)
  }

  lemma HeaderAndRecordWidths()
    ensures SumOf(RECORD_WIDTHS) == RECORD_SIZE && SumOf(HEADER_WIDTHS) == HEADER_SIZE
  {
    assert SumOf([8, 8, 8, 8, 8, 4, 2, 2]) == 48;
    assert SumOf([8, 8, 8, 8, 8, 8, 8, 8, 8, 8, 8]) == 88;
  }

  lemma {:induction false} RecordsLength(records: seq<RecordInfo>)
    ensures |RecordsBytes(records)| == RECORD_SIZE * |records|
  {
    if records != [] {
      RecordsLength(records[..|records| - 1]);
      HeaderAndRecordWidths();
      IntsLength(records[|records| - 1].Fields(), RECORD_WIDTHS);
    }
  }

  // ---- where the fields are ----

  lemma {:induction false} IntsAt(vs: seq<nat>, widths: seq<nat>, j: nat)
    requires |vs| == |widths| && j < |vs|
    ensures var s, at := IntsBytes(vs, widths), SumOf(widths[..j]);
            at + widths[j] <= |s| && s[at..at + widths[j]] == LE(vs[j], widths[j])
    decreases j
  {
    hide LE;
    var first, rest := LE(vs[0], widths[0]), IntsBytes(vs[1..], widths[1..]);
    if j == 0 {
      assert SumOf(widths[..0]) == 0;
    } else {
      IntsAt(vs[1..], widths[1..], j - 1);
      var at := SumOf(widths[1..][..j - 1]);
      assert widths[..j][0] == widths[0] && widths[..j][1..] == widths[1..][..j - 1];
      assert (first + rest)[|first| + at..|first| + at + widths[j]] == rest[at..at + widths[j]];
    }
  }

  lemma {:induction false} RecordsAt(records: seq<RecordInfo>, i: nat)
    requires i < |records|
    ensures |RecordsBytes(records)| == RECORD_SIZE * |records|
    ensures RecordsBytes(records)[RECORD_SIZE * i..RECORD_SIZE * i + RECORD_SIZE] == IntsBytes(records[i].Fields(), RECORD_WIDTHS)
  {
    hide IntsBytes;
    var n := |records| - 1;
    RecordsLength(records);
    RecordsLength(records[..n]);
    if i < n { RecordsAt(records[..n], i); }
  }

  lemma {:induction false} SumSnoc(widths: seq<nat>, j: nat)
    requires j < |widths|
    ensures SumOf(widths[..j + 1]) == SumOf(widths[..j]) + widths[j]
    decreases j
  {
    var rest := widths[1..];
    assert widths[..j + 1][1..] == rest[..j];
    if j > 0 {
      SumSnoc(rest, j - 1);
      assert widths[..j][1..] == rest[..j - 1];
    }
  }

  /** Field j at its place, and where the next one is. */
  lemma FieldAt(vs: seq<nat>, widths: seq<nat>, j: nat, at: nat)
    requires |vs| == |widths| && j < |vs| && at == SumOf(widths[..j])
    ensures var s := IntsBytes(vs, widths); at + widths[j] <= |s| && s[at..at + widths[j]] == LE(vs[j], widths[j])
    ensures SumOf(widths[..j + 1]) == at + widths[j]
  {
    IntsAt(vs, widths, j);
    SumSnoc(widths, j);
  }

  /** Where each field of a record is. */
  lemma RecordFields(r: RecordInfo)
    ensures var s := IntsBytes(r.Fields(), RECORD_WIDTHS);
            && |s| == RECORD_SIZE
            && s[0..8] == LE(r.md5, 8) && s[8..16] == LE(r.hash, 8) && s[16..24] == LE(r.offset, 8)
            && s[24..32] == LE(r.ptr, 8) && s[32..40] == LE(r.values, 8) && s[40..44] == LE(r.counters, 4)
            && s[44..46] == LE(r.sites0, 2) && s[46..48] == LE(r.sites1, 2)
  {
    hide IntsBytes, LE, SumOf;
    var vs, ws := r.Fields(), RECORD_WIDTHS;
    IntsLength(vs, ws);
    HeaderAndRecordWidths();
    NoSum(ws);
    FieldAt(vs, ws, 0, 0);
    FieldAt(vs, ws, 1, 8);
    FieldAt(vs, ws, 2, 16);
    FieldAt(vs, ws, 3, 24);
    FieldAt(vs, ws, 4, 32);
    FieldAt(vs, ws, 5, 40);
    FieldAt(vs, ws, 6, 44);
    FieldAt(vs, ws, 7, 46);
  }

  lemma NoSum(widths: seq<nat>)
    ensures SumOf(widths[..0]) == 0
  {
  }

  /** Where each field of the header is: eight bytes each. */
  lemma {:induction false} EightBytesEach(h: seq<nat>, widths: seq<nat>, j: nat)
    requires |h| == |widths| && j < |h| && forall i :: 0 <= i < |widths| ==> widths[i] == 8
    ensures SumOf(widths[..j]) == 8 * j
    ensures var s := IntsBytes(h, widths); 8 * j + 8 <= |s| && s[8 * j..8 * j + 8] == LE(h[j], 8)
  {
    hide IntsBytes, LE;
    if j > 0 {
      EightBytesEach(h, widths, j - 1);
      SumSnoc(widths, j - 1);
    }
    IntsAt(h, widths, j);
  }

  // ---- reading the file ----

  function ReadRecord(s: seq<byte>): Read<RecordInfo>
  {
    match ReadInts(s, RECORD_WIDTHS)
    case Bad => Bad
    case Got(f, s1) =>
      if |f| != 8 then Bad
      else Got(RecordInfo(f[0], f[1], f[2], f[3], f[4], f[5], f[6], f[7]), s1)
  }

  function ReadRecords(s: seq<byte>, n: nat): Read<seq<RecordInfo>>
    decreases n
  {
    if n == 0 then Got([], s)
    else match ReadRecord(s)
      case Bad => Bad
      case Got(r, s1) =>
        match ReadRecords(s1, n - 1)
        case Bad => Bad
        case Got(rs, s2) => Got([r] + rs, s2)
  }

  /** The value data of a record; one without sites has none. */
  function ReadOwnValue(s: seq<byte>, r: RecordInfo): Read<seq<KindData>>
  {
    if r.sites0 == 0 && r.sites1 == 0 then Got([], s) else ReadValue(s)
  }

  function ReadValues(s: seq<byte>, records: seq<RecordInfo>): Read<seq<seq<KindData>>>
    decreases |records|
  {
    if records == [] then Got([], s)
    else
      match ReadOwnValue(s, records[0])
      case Bad => Bad
      case Got(kinds, s1) =>
        match ReadValues(s1, records[1..])
        case Bad => Bad
        case Got(rest, s2) => Got([kinds] + rest, s2)
  }

  datatype Profile = Profile(header: seq<nat>, records: seq<RecordInfo>, counters: seq<byte>, names: seq<byte>,
                             values: seq<seq<KindData>>)

  function ReadProfile(s: seq<byte>): Read<Profile>
  {
    match ReadInts(s, HEADER_WIDTHS)
    case Bad => Bad
    case Got(h, s1) =>
      if |h| != 11 then Bad
      else match ReadRecords(s1, h[3])
        case Bad => Bad
        case Got(records, s2) =>
          var c, z := 8 * h[5], h[7];
          var e := c + z + NamePadding(z);
          if |s2| < e then Bad
          else match ReadValues(s2[e..], records)
            case Bad => Bad
            case Got(values, s3) => Got(Profile(h, records, s2[..c], s2[c..c + z], values), s3)
  }

  /** The list at place j among a record's lists of one kind. */
  function FindList(kinds: seq<KindData>, kind: nat, j: nat): Option<seq<Entry>>
  {
    if kinds == [] then None
    else if kinds[0].kind == kind then (if j < |kinds[0].lists| then Some(kinds[0].lists[j]) else None)
    else FindList(kinds[1..], kind, j)
  }

  /** The list that a reader takes to be that of site k of a record: the first `sites0` sites are of kind 0, those behind them of kind 1. */
  function ReadSite(kinds: seq<KindData>, sites0: nat, k: nat): Option<seq<Entry>>
  {
    if k < sites0 then FindList(kinds, 0, k) else FindList(kinds, 1, k - sites0)
  }

  lemma SiteFound(v: ValueData, k: nat)
    requires k < |v.lists0| + |v.lists1|
    ensures ReadSite(v.Kinds(), |v.lists0|, k) == Some((v.lists0 + v.lists1)[k])
  {
    KindsByCase(v);
    var kinds := v.Kinds();
    if |v.lists0| == 0 {
      assert kinds == [KindData(1, v.lists1)] && v.lists0 + v.lists1 == v.lists1;
    } else if |v.lists1| > 0 {
      assert kinds[1..] == [KindData(1, v.lists1)];
      if k >= |v.lists0| { assert FindList(kinds, 1, k - |v.lists0|) == FindList(kinds[1..], 1, k - |v.lists0|); }
    }
  }

  lemma {:induction false} RecordsHead(records: seq<RecordInfo>)
    requires records != []
    ensures RecordsBytes(records) == IntsBytes(records[0].Fields(), RECORD_WIDTHS) + RecordsBytes(records[1..])
    decreases |records|
  {
    hide IntsBytes;
    var n := |records| - 1;
    if n > 0 {
      RecordsHead(records[..n]);
      assert records[..n][1..] == records[1..][..n - 1];
      Assoc(IntsBytes(records[0].Fields(), RECORD_WIDTHS), RecordsBytes(records[1..n]), IntsBytes(records[n].Fields(), RECORD_WIDTHS));
    }
  }

  lemma ReadRecordsStep(s: seq<byte>, n: nat, r: RecordInfo, s1: seq<byte>, rs: seq<RecordInfo>, s2: seq<byte>)
    requires ReadRecord(s) == Got(r, s1) && ReadRecords(s1, n) == Got(rs, s2)
    ensures ReadRecords(s, n + 1) == Got([r] + rs, s2)
  {
  }

  lemma {:induction false} ReadRecordsBack(records: seq<RecordInfo>, rest: seq<byte>)
    requires forall i :: 0 <= i < |records| ==> records[i].Small()
    ensures ReadRecords(RecordsBytes(records) + rest, |records|) == Got(records, rest)
    decreases |records|
  {
    if records == [] {
      assert RecordsBytes(records) + rest == rest;
    } else {
      var tail := RecordsBytes(records[1..]) + rest;
      var first := IntsBytes(records[0].Fields(), RECORD_WIDTHS);
      RecordsHead(records);
      Assoc(first, RecordsBytes(records[1..]), rest);
      ReadOneRecord(records[0], tail);
      ReadRecordsBack(records[1..], rest);
      ReadRecordsStep(first + tail, |records| - 1, records[0], tail, records[1..], rest);
      assert [records[0]] + records[1..] == records;
    }
  }

  lemma ReadOneRecord(r: RecordInfo, rest: seq<byte>)
    requires r.Small()
    ensures ReadRecord(IntsBytes(r.Fields(), RECORD_WIDTHS) + rest) == Got(r, rest)
  {
    Widths();
    ReadIntsBack(r.Fields(), RECORD_WIDTHS, rest);
  }

  lemma {:induction false} ValuesHead(values: seq<ValueData>)
    requires values != []
    ensures ValuesBytes(values) == values[0].Bytes() + ValuesBytes(values[1..])
    decreases |values|
  {
    hide ValueData.Bytes;
    var n := |values| - 1;
    if n > 0 {
      ValuesHead(values[..n]);
      assert values[..n][1..] == values[1..][..n - 1];
      Assoc(values[0].Bytes(), ValuesBytes(values[1..n]), values[n].Bytes());
    }
  }

  /** A record's value data goes with it: as many lists as it says it has sites. */
  predicate Belongs(r: RecordInfo, v: ValueData)
  {
    r.sites0 == |v.lists0| && r.sites1 == |v.lists1| && v.Small() && v.Size() < U32
  }

  function KindsOf(values: seq<ValueData>): (r: seq<seq<KindData>>)
    ensures |r| == |values|
  {
    seq(|values|, i requires 0 <= i < |values| => values[i].Kinds())
  }

  lemma ReadOwnValueBack(r: RecordInfo, v: ValueData, rest: seq<byte>)
    requires Belongs(r, v)
    ensures ReadOwnValue(v.Bytes() + rest, r) == Got(v.Kinds(), rest)
  {
    if v.Size() > 0 {
      ReadValueBack(v, rest);
    } else {
      assert |v.lists0| == 0 && |v.lists1| == 0 && v.Kinds() == [];
      assert v.Bytes() == [] && [] + rest == rest;
    }
  }

  lemma ReadValuesStep(s: seq<byte>, records: seq<RecordInfo>, kinds: seq<KindData>, s1: seq<byte>,
                       rest: seq<seq<KindData>>, s2: seq<byte>)
    requires records != [] && ReadOwnValue(s, records[0]) == Got(kinds, s1)
    requires ReadValues(s1, records[1..]) == Got(rest, s2)
    ensures ReadValues(s, records) == Got([kinds] + rest, s2)
  {
  }

  lemma {:induction false} ReadValuesBack(s: seq<byte>, records: seq<RecordInfo>, values: seq<ValueData>, rest: seq<byte>)
    requires |records| == |values| && forall i :: 0 <= i < |records| ==> Belongs(records[i], values[i])
    requires s == ValuesBytes(values) + rest
    ensures ReadValues(s, records) == Got(KindsOf(values), rest)
    decreases |records|
  {
    hide ReadOwnValue, ValueData.Bytes, ValueData.Kinds, KindsOf;
    if records == [] {
      assert ValuesBytes(values) + rest == rest;
    } else {
      var v, tail := values[0], ValuesBytes(values[1..]) + rest;
      ValuesHead(values);
      Assoc(v.Bytes(), ValuesBytes(values[1..]), rest);
      ReadOwnValueBack(records[0], v, tail);
      ReadValuesBack(tail, records[1..], values[1..], rest);
      ReadValuesStep(s, records, v.Kinds(), tail, KindsOf(values[1..]), rest);
      KindsOfHead(values);
    }
  }

  lemma KindsOfHead(values: seq<ValueData>)
    requires values != []
    ensures KindsOf(values) == [values[0].Kinds()] + KindsOf(values[1..])
  {
    hide ValueData.Kinds;
  }

  /** The round trip: reading the file gives back the header, every record, the counter and name bytes
      and, for every record and value kind, every site's (value, count) list. */
  lemma ReadProfileBack(records: seq<RecordInfo>, numCounters: nat, counters: seq<byte>, names: seq<byte>,
                        values: seq<ValueData>, rest: seq<byte>)
    requires |records| == |values| && forall i :: 0 <= i < |records| ==> Belongs(records[i], values[i])
    requires forall i :: 0 <= i < |records| ==> records[i].Small()
    requires |counters| == 8 * numCounters
    requires RECORD_SIZE * |records| < U64 && numCounters < U64 && |names| < U64
    ensures ReadProfile(FileBytes(HeaderFields(|records|, numCounters, |names|), records, counters, names, values) + rest)
            == Got(Profile(HeaderFields(|records|, numCounters, |names|), records, counters, names, KindsOf(values)), rest)
  {
    hide ReadInts, ReadRecords, ReadValues, IntsBytes, RecordsBytes, ValuesBytes, ReadProfile, FileBytes;
    var h := HeaderFields(|records|, numCounters, |names|);
    var pad := Zeros(NamePadding(|names|));
    var s3 := ValuesBytes(values) + rest;
    var s2 := counters + (names + (pad + s3));
    var s1 := RecordsBytes(records) + s2;
    var s := IntsBytes(h, HEADER_WIDTHS) + s1;
    FileTail(h, records, counters, names, values, rest);
    ReadHeader(h, s1);
    ReadRecordsBack(records, s2);
    ReadValuesBack(s3, records, values, rest);
    SliceTail(counters, names, pad, s3);
    ReadProfileStep(s, h, s1, records, s2, KindsOf(values), rest);
  }

  lemma ReadHeader(h: seq<nat>, rest: seq<byte>)
    requires |h| == 11 && forall i :: 0 <= i < 11 ==> h[i] < U64
    ensures ReadInts(IntsBytes(h, HEADER_WIDTHS) + rest, HEADER_WIDTHS) == Got(h, rest)
  {
    Widths();
    ReadIntsBack(h, HEADER_WIDTHS, rest);
  }

  lemma FileTail(h: seq<nat>, records: seq<RecordInfo>, counters: seq<byte>, names: seq<byte>,
                 values: seq<ValueData>, rest: seq<byte>)
    requires |h| == |HEADER_WIDTHS|
    ensures FileBytes(h, records, counters, names, values) + rest
            == IntsBytes(h, HEADER_WIDTHS)
               + (RecordsBytes(records) + (counters + (names + (Zeros(NamePadding(|names|)) + (ValuesBytes(values) + rest)))))
  {
    AssocAll(IntsBytes(h, HEADER_WIDTHS), RecordsBytes(records), counters, names, Zeros(NamePadding(|names|)),
             ValuesBytes(values), rest);
  }

  lemma AssocAll(a: seq<byte>, b: seq<byte>, c: seq<byte>, d: seq<byte>, e: seq<byte>, f: seq<byte>, g: seq<byte>)
    ensures a + b + c + d + e + f + g == a + (b + (c + (d + (e + (f + g)))))
  {
    Assoc(a + b + c + d + e, f, g);
    Assoc(a + b + c + d, e, f + g);
    Assoc(a + b + c, d, e + (f + g));
    Assoc(a + b, c, d + (e + (f + g)));
    Assoc(a, b, c + (d + (e + (f + g))));
  }

  lemma SliceTail(counters: seq<byte>, names: seq<byte>, pad: seq<byte>, s3: seq<byte>)
    ensures var s, c, z := counters + (names + (pad + s3)), |counters|, |names|;
            s[..c] == counters && s[c..c + z] == names && s[c + z + |pad|..] == s3
  {
  }

  lemma ReadProfileStep(s: seq<byte>, h: seq<nat>, s1: seq<byte>, records: seq<RecordInfo>, s2: seq<byte>,
                        values: seq<seq<KindData>>, s3: seq<byte>)
    requires ReadInts(s, HEADER_WIDTHS) == Got(h, s1) && |h| == 11 && ReadRecords(s1, h[3]) == Got(records, s2)
    requires var e := 8 * h[5] + h[7] + NamePadding(h[7]);
             |s2| >= e && ReadValues(s2[e..], records) == Got(values, s3)
    ensures var c, z := 8 * h[5], h[7];
            ReadProfile(s) == Got(Profile(h, records, s2[..c], s2[c..c + z], values), s3)
  {
    hide ReadInts, ReadRecords, ReadValues, NamePadding;
  }
}
