/** The profiler from end to end: a history of recorded events, the dump, and a reader of the dumped buffer. */
module ProfileSession {
  import opened Bytes
  import opened ProfileRecorder
  import opened ProfileData
  import opened ProfileLayout
  import opened ProfileDump
  import opened Wrappers

  /** Lists that a history leaves are such as the dumper can write. */
  lemma HistoryRecorded(ds: seq<LLVMProfileData>, all: seq<seq<seq<Entry>>>, now: set<nat>, tables: set<nat>, calls: seq<SiteCall>)
    requires Left(ds, all, now, tables, calls) && CallsFit(ds, calls)
    ensures Recorded(all)
  {
    hide Run;
    forall r, k | 0 <= r < |all| && 0 <= k < |all[r]|
      ensures |all[r][k]| <= MAX_NUM_VAL_PER_SITE && SmallEntries(all[r][k])
    {
      assert all[r][k] == ListAt(tables, calls, r, k);
      var events, own := EventsAt(tables, calls, r, k), CallsAt(calls, r, k);
      EventsMatch(tables, calls, r, k);
      MatchedSums(events, own, 0);
      RunAccount(events, MAX_NUM_VAL_PER_SITE);
      forall i | 0 <= i < |own| ensures own[i].target < U64 { CallsAtTarget(calls, r, k, i); }
      forall i | 0 <= i < |all[r][k]| ensures all[r][k][i].value < U64 && all[r][k][i].count < U64 {
        RunTargets(events, MAX_NUM_VAL_PER_SITE, i);
      }
    }
  }

  lemma {:induction false} CallsAtTarget(calls: seq<SiteCall>, r: nat, k: nat, i: nat)
    requires i < |CallsAt(calls, r, k)| && forall j :: 0 <= j < |calls| ==> calls[j].call.target < U64
    ensures CallsAt(calls, r, k)[i].target < U64
    decreases |calls|
  {
    var front := calls[..|calls| - 1];
    if i < |CallsAt(front, r, k)| { CallsAtTarget(front, r, k, i); }
  }

  /** Reading the buffer from its start gives these header, counter and name bytes and, for each site of each record,
      the list in `all`; `rest` lies behind. */
  ghost predicate ReadsAs(buf: seq<byte>, ss: seq<Section>, ds: seq<LLVMProfileData>, all: seq<seq<seq<Entry>>>, rest: seq<byte>)
  {
    match ReadProfile(buf)
    case Bad => false
    case Got(p, tail) =>
      && tail == rest && p.header == HeaderOf(ss) && p.counters == CounterBytes(ss) && p.names == NameBytes(ss)
      && |p.values| == |ds| == |all|
      && forall r, k :: 0 <= r < |ds| && 0 <= k < |all[r]| ==> ReadSite(p.values[r], ds[r].numValueSites0, k) == Some(all[r][k])
  }

  /** What is read for each site counts every value's full weight if and only if the site saw at most 255 values. */
  ghost predicate ReadsExactly(buf: seq<byte>, ds: seq<LLVMProfileData>, calls: seq<SiteCall>)
  {
    match ReadProfile(buf)
    case Bad => false
    case Got(p, _) =>
      && |p.values| == |ds|
      && forall r, k :: 0 <= r < |ds| && 0 <= k < Sites(ds[r]) ==>
           ExactFor(ReadSite(p.values[r], ds[r].numValueSites0, k), CallsAt(calls, r, k))
  }

  ghost predicate ExactFor(list: Option<seq<Entry>>, calls: seq<Call>)
  {
    list.Some? && ((forall v: nat :: Count(list.value, v) == WeightIn(calls, v)) <==> |ValuesIn(calls)| <= MAX_NUM_VAL_PER_SITE)
  }

  lemma ReadIsExact(buf: seq<byte>, ss: seq<Section>, ds: seq<LLVMProfileData>, all: seq<seq<seq<Entry>>>, rest: seq<byte>,
                    now: set<nat>, tables: set<nat>, calls: seq<SiteCall>)
    requires ReadsAs(buf, ss, ds, all, rest) && Left(ds, all, now, tables, calls) && CallsFit(ds, calls) && MemoryAlways(calls)
    ensures ReadsExactly(buf, ds, calls)
  {
    hide ListAt, ReadProfile, HeaderOf, Count, WeightIn, ValuesIn, ReadSite;
    var p := ReadProfile(buf).value;
    forall r, k | 0 <= r < |ds| && 0 <= k < Sites(ds[r])
      ensures ExactFor(ReadSite(p.values[r], ds[r].numValueSites0, k), CallsAt(calls, r, k))
    {
      assert all[r][k] == ListAt(tables, calls, r, k);
      ExactAtIff(tables, calls, r, k);
    }
  }

  lemma SeparateFacts(ds: seq<LLVMProfileData>)
    requires Separate(ds)
    ensures forall i :: 0 <= i < |ds| ==> ds[i].Valid() && ds[i].Repr <= Reprs(ds)
    ensures forall i, j :: 0 <= i < j < |ds| ==> ds[i].Repr !! ds[j].Repr
  {
  }

  lemma StillSeparate(ds: seq<LLVMProfileData>)
    requires forall i :: 0 <= i < |ds| ==> ds[i].Valid()
    requires forall i, j :: 0 <= i < j < |ds| ==> ds[i].Repr !! ds[j].Repr
    ensures Separate(ds)
  {
  }

  /** The most value data that records with these sites can come to. */
  function MaxValues(ds: seq<LLVMProfileData>): nat
  {
    if ds == [] then 0 else MaxValues(ds[..|ds| - 1]) + MaxValue(ds[|ds| - 1])
  }

  function MaxValue(d: LLVMProfileData): nat
  {
    38 + (16 * MAX_NUM_VAL_PER_SITE + 1) * Sites(d)
  }

  /** The most bytes that a dump of the module can come to. */
  function MaxFile(ss: seq<Section>): nat
  {
    HEADER_SIZE + RECORD_SIZE * |DataOf(ss)| + |CounterBytes(ss)| + |NameBytes(ss)| + NamePadding(|NameBytes(ss)|)
    + MaxValues(DataOf(ss))
  }

  lemma ValueBound(d: LLVMProfileData, lists: seq<seq<Entry>>)
    requires |lists| == Sites(d) && forall k :: 0 <= k < |lists| ==> |lists[k]| <= MAX_NUM_VAL_PER_SITE
    ensures ValueAt(d, lists, [], []).Size() <= MaxValue(d)
  {
    hide AllNodes, KindSize;
    KindBound(lists[0..d.numValueSites0]);
    KindBound(lists[d.numValueSites0..Sites(d)]);
  }

  lemma KindBound(lists: seq<seq<Entry>>)
    requires forall k :: 0 <= k < |lists| ==> |lists[k]| <= MAX_NUM_VAL_PER_SITE
    ensures KindSize(lists) <= 15 + (16 * MAX_NUM_VAL_PER_SITE + 1) * |lists|
  {
    hide AllNodes;
    AllNodesBelow(lists);
  }

  lemma {:induction false} ValuesBound(ds: seq<LLVMProfileData>, all: seq<seq<seq<Entry>>>)
    requires Shaped(ds, all) && Recorded(all)
    ensures ValuesLength(ds, all) <= MaxValues(ds)
  {
    hide MaxValue, ValueAt;
    if ds != [] {
      var n := |ds| - 1;
      assert Recorded(all[..n]) && Shaped(ds[..n], all[..n]);
      ValuesBound(ds[..n], all[..n]);
      ValueBound(ds[n], all[n]);
    }
  }

  /** With room for the most that can be written, both passes agree on the size. */
  lemma SizesFit(ss: seq<Section>, all: seq<seq<seq<Entry>>>)
    requires Shaped(DataOf(ss), all) && Recorded(all) && CountersMatch(ss) && MaxFile(ss) < U32
    ensures SizePass(ss, all) == WrittenLength(ss, all, NameBytes(ss)) >= HEADER_SIZE
    ensures ReportedNames(ss) == NameBytes(ss) && |CounterBytes(ss)| < U32 && |NameBytes(ss)| < U64
  {
    hide DataOf, CounterBytes, NameBytes, MaxValues, ValuesLength, Recorded;
    ValuesBound(DataOf(ss), all);
  }

  /** For any interleaved history over all sites of a module's records whose dump cannot outgrow 32 bits: if the buffer
      has room for what the sizing pass then asks for, reading what is dumped gives at every site the list of the run
      over that site's own events, and what lies behind the dump is untouched; otherwise nothing is written. If the
      calls always found memory, a site that saw at most 255 values reads back with the full weight of each. */
  method RecordAndDump(ss: seq<Section>, ds: seq<LLVMProfileData>, calls: seq<SiteCall>, buf: array<byte>) returns (total: nat)
    requires ds == DataOf(ss) && CountersMatch(ss) && FieldsFit(ds) && MaxFile(ss) < U32
    requires Separate(ds) && CallsFit(ds, calls) && buf !in Reprs(ds)
    requires forall r, k :: 0 <= r < |ds| && 0 <= k < |ds[r].lists| ==> ds[r].lists[k] == []
    modifies Reprs(ds), buf
    ensures Separate(ds) && Left(ds, AllLists(ds), Tables(ds), old(Tables(ds)), calls)
    ensures total > 0 <==> buf.Length >= SizePass(ss, AllLists(ds))
    ensures total == 0 ==> buf[..] == old(buf[..])
    ensures total > 0 ==> total == SizePass(ss, AllLists(ds)) <= buf.Length
    ensures total > 0 ==> ReadsAs(buf[..], ss, ds, AllLists(ds), old(buf[total..]))
    ensures total > 0 && MemoryAlways(calls) ==> ReadsExactly(buf[..], ds, calls)
  {
    hide Separate, Reprs, LLVMProfileData.Valid, DataOf, CountersMatch, CounterBytes, NameBytes, CallsFit, Left, ListAt,
         MaxFile, SizePass, FieldsFit, ReadsAs, ReadsExactly, Recorded, AllLists, MemoryAlways, SiteSettled;
    ghost var tables := Tables(ds);
    RecordStream(ds, calls);
    ghost var all, now := AllLists(ds), Tables(ds);
    assert buf !in Reprs(ds);
    SeparateFacts(ds);
    LeftShaped(ds, all, now, tables, calls);
    HistoryRecorded(ds, all, now, tables, calls);
    total := DumpAndRead(ss, ds, all, buf);
    StillSeparate(ds);
    if total > 0 && MemoryAlways(calls) { ReadIsExact(buf[..], ss, ds, all, old(buf[total..]), now, tables, calls); }
  }

  lemma LeftShaped(ds: seq<LLVMProfileData>, all: seq<seq<seq<Entry>>>, now: set<nat>, tables: set<nat>, calls: seq<SiteCall>)
    requires Left(ds, all, now, tables, calls)
    ensures Shaped(ds, all)
  {
  }

  /** The dump into the whole buffer. */
  method DumpAndRead(ss: seq<Section>, ds: seq<LLVMProfileData>, ghost all: seq<seq<seq<Entry>>>, buf: array<byte>)
    returns (total: nat)
    requires ds == DataOf(ss) && Shaped(ds, all) && CountersMatch(ss) && FieldsFit(ds) && MaxFile(ss) < U32 && Recorded(all)
    requires forall i :: 0 <= i < |ds| ==> ds[i].Valid() && buf !in ds[i].Repr && ds[i].lists == all[i]
    modifies buf
    ensures total > 0 <==> buf.Length >= SizePass(ss, all)
    ensures total == 0 ==> buf[..] == old(buf[..])
    ensures total > 0 ==> total == SizePass(ss, all) <= buf.Length && ReadsAs(buf[..], ss, ds, all, old(buf[total..]))
  {
    hide Holds, Describes, FileBytes, HeaderOf, LLVMProfileData.Valid, DataOf, CountersMatch, CounterBytes, NameBytes, MaxFile,
         SizePass, WrittenLength, ReportedNames, FieldsFit, Recorded, ReadSite, ReadProfile;
    SizesFit(ss, all);
    ghost var before := buf[..];
    var end, reported, written;
    ghost var records, vs;
    total, end, reported, written, records, vs := Dump(ss, ds, all, buf, buf.Length);
    if total > 0 {
      RecordsSmall(ds, records);
      BufferReadsBack(ss, all, records, vs, before, buf[..], end);
    }
  }

  lemma RecordsSmall(ds: seq<LLVMProfileData>, records: seq<RecordInfo>)
    requires FieldsFit(ds) && |records| == |ds|
    requires forall i :: 0 <= i < |ds| ==> records[i].values == if ds[i].values == null then 0 else ds[i].tableAddress
    ensures |ds| < U32 && forall i :: 0 <= i < |ds| ==> records[i].values < U64
  {
  }
}
