/** The global offset table for function addresses on x86-64 (load_relocation_section and do_text_relocation in
    aot_loader.c). A first pass over the relocations collects the functions that need a slot; the real pass reads
    the same bytes again and looks the slots up.

    Positions are relative to an address that is a multiple of four. Converting digits is left to the C library:
    `atoi` stands for it. */
module GotTable {
  import opened Wrappers
  import opened Bytes
  import opened SymbolTable

  const R_X86_64_GOTPCREL := 9
  const NAME_BUF := 128
  const RELOC_SIZE := 24

  datatype Reloc = Reloc(offset: nat, addend: nat, kind: nat, symbol: nat)

  datatype Group = Group(name: nat, relocs: seq<Reloc>)

  type Atoi = seq<byte> -> nat

  // ---- the bytes ----

  function At(b: seq<byte>, p: nat, n: nat): nat
    requires p + n <= |b|
  {
    FromLE(b[p..p + n])
  }

  function RelocAt(b: seq<byte>, p: nat): Reloc
    requires p + RELOC_SIZE <= |b|
  {
    Reloc(At(b, p, W64), At(b, p + 8, W64), At(b, p + 16, W32), At(b, p + 20, W32))
  }

  function RelocsAt(b: seq<byte>, p: nat, n: nat): (s: seq<Reloc>)
    requires p + RELOC_SIZE * n <= |b|
    ensures |s| == n
  {
    if n == 0 then [] else RelocsAt(b, p, n - 1) + [RelocAt(b, p + RELOC_SIZE * (n - 1))]
  }

  /** The group at p and where it ends. */
  function GroupAt(b: seq<byte>, p: nat): (r: Option<(Group, nat)>)
    ensures r.Some? ==> r.value.1 <= |b|
  {
    var q := Aligned(p);
    if q + 8 > |b| then None
    else
      var n := At(b, q + 4, W32);
      var end := q + 8 + RELOC_SIZE * n;
      if end > |b| then None else Some((Group(At(b, q, W32), RelocsAt(b, q + 8, n)), end))
  }

  /** The next n groups from p on. */
  function GroupsAt(b: seq<byte>, p: nat, n: nat): Option<seq<Group>>
    decreases n
  {
    if n == 0 then Some([]) else
      var g := GroupAt(b, p);
      if g.None? then None else
        var rest := GroupsAt(b, g.value.1, n - 1);
        if rest.None? then None else Some([g.value.0] + rest.value)
  }

  function Relocs(groups: seq<Group>): seq<Reloc>
  {
    if groups == [] then [] else Relocs(groups[..|groups| - 1]) + groups[|groups| - 1].relocs
  }

  lemma RelocsSnoc(groups: seq<Group>, g: Group)
    ensures Relocs(groups + [g]) == Relocs(groups) + g.relocs
  {
    assert (groups + [g])[..|groups|] == groups;
  }

  lemma {:induction false} RelocsOf(groups: seq<Group>, k: nat, r: Reloc)
    requires k < |groups| && r in groups[k].relocs
    ensures r in Relocs(groups)
  {
    if k < |groups| - 1 { RelocsOf(groups[..|groups| - 1], k, r); }
  }

  /** Having read `done`, the cursor stands at p with n groups to come. */
  ghost predicate Reading(all: Option<seq<Group>>, done: seq<Group>, b: seq<byte>, p: nat, n: nat)
  {
    var rest := GroupsAt(b, p, n);
    all == if rest.None? then None else Some(done + rest.value)
  }

  lemma ReadingStart(b: seq<byte>, p: nat, n: nat)
    ensures Reading(GroupsAt(b, p, n), [], b, p, n)
  {
    var rest := GroupsAt(b, p, n);
    assert rest.Some? ==> [] + rest.value == rest.value;
  }

  lemma ReadingStep(all: Option<seq<Group>>, done: seq<Group>, b: seq<byte>, p: nat, n: nat)
    requires n > 0 && Reading(all, done, b, p, n)
    ensures GroupAt(b, p).None? ==> all.None?
    ensures GroupAt(b, p).Some? ==> Reading(all, done + [GroupAt(b, p).value.0], b, GroupAt(b, p).value.1, n - 1)
  {
    hide GroupAt;
    var g := GroupAt(b, p);
    if g.Some? && GroupsAt(b, g.value.1, n - 1).Some? {
      var rest := GroupsAt(b, g.value.1, n - 1).value;
      assert done + ([g.value.0] + rest) == (done + [g.value.0]) + rest;
    }
  }

  // ---- names ----

  /** The C string in a buffer: up to its first zero. */
  function Text(s: seq<byte>): (t: seq<byte>)
    ensures t <= s
  {
    if s == [] || s[0] == 0 then [] else [s[0]] + Text(s[1..])
  }

  /** "aot_func#" */
  const AOT_FUNC_PREFIX: seq<byte> := [97, 111, 116, 95, 102, 117, 110, 99, 35]

  /** What the first pass sees of a name: it copies names into a buffer of 128 bytes, and the copy of a longer
      one leaves the buffer zeroed. */
  function ScannedName(s: seq<byte>): seq<byte>
  {
    if |s| <= NAME_BUF then Text(s) else []
  }

  /** The string of a symbol in an accepted table. */
  function Name(area: seq<byte>, offsets: seq<nat>, k: nat): seq<byte>
    requires Tiled(area, offsets) && k < |offsets|
  {
    RecordsApart(area, offsets, k, |offsets|);
    RecordBytes(area, offsets[k])
  }

  /** The function of which the first pass makes a slot on account of a relocation. */
  function Wanted(area: seq<byte>, offsets: seq<nat>, atoi: Atoi, r: Reloc): Option<nat>
    requires Tiled(area, offsets) && r.symbol < |offsets|
  {
    var name := ScannedName(Name(area, offsets, r.symbol));
    if r.kind == R_X86_64_GOTPCREL && AOT_FUNC_PREFIX <= name then Some(atoi(name[|AOT_FUNC_PREFIX|..])) else None
  }

  lemma {:induction false} RelocsAtIndex(b: seq<byte>, p: nat, n: nat, j: nat)
    requires p + RELOC_SIZE * n <= |b| && j < n
    ensures RelocAt(b, p + RELOC_SIZE * j) in RelocsAt(b, p, n)
  {
    if j < n - 1 { RelocsAtIndex(b, p, n - 1, j); }
  }

  lemma {:induction false} RelocsAtPrefix(b: seq<byte>, p: nat, n: nat, j: nat)
    requires p + RELOC_SIZE * n <= |b| && j <= n
    ensures RelocsAt(b, p, j) <= RelocsAt(b, p, n)
  {
    if j < n { RelocsAtPrefix(b, p, n - 1, j); }
  }

  predicate SymbolsInRange(relocs: seq<Reloc>, count: nat)
  {
    forall r :: r in relocs ==> r.symbol < count
  }

  predicate GroupsInRange(groups: seq<Group>, count: nat)
  {
    forall k :: 0 <= k < |groups| ==> groups[k].name < count && SymbolsInRange(groups[k].relocs, count)
  }

  /** The list has exactly one item for every function that some relocation wants. */
  ghost predicate Collected(items: seq<nat>, relocs: seq<Reloc>, area: seq<byte>, offsets: seq<nat>, atoi: Atoi)
    requires Tiled(area, offsets) && SymbolsInRange(relocs, |offsets|)
  {
    && (forall i, j :: 0 <= i < j < |items| ==> items[i] != items[j])
    && (forall k :: 0 <= k < |items| ==> Demanded(items[k], relocs, area, offsets, atoi))
    && (forall r :: r in relocs && Wanted(area, offsets, atoi, r).Some? ==> Wanted(area, offsets, atoi, r).value in items)
  }

  /** Some relocation wants a slot for the function. */
  ghost predicate Demanded(func: nat, relocs: seq<Reloc>, area: seq<byte>, offsets: seq<nat>, atoi: Atoi)
    requires Tiled(area, offsets) && SymbolsInRange(relocs, |offsets|)
  {
    exists r :: r in relocs && Wanted(area, offsets, atoi, r) == Some(func)
  }

  lemma CollectedStep(items: seq<nat>, items': seq<nat>, relocs: seq<Reloc>, r: Reloc,
                      area: seq<byte>, offsets: seq<nat>, atoi: Atoi)
    requires Tiled(area, offsets) && SymbolsInRange(relocs, |offsets|) && r.symbol < |offsets|
    requires Collected(items, relocs, area, offsets, atoi)
    requires var w := Wanted(area, offsets, atoi, r);
             items' == if w.Some? && w.value !in items then items + [w.value] else items
    ensures SymbolsInRange(relocs + [r], |offsets|) && Collected(items', relocs + [r], area, offsets, atoi)
  {
    hide Wanted, Tiled;
    forall k | 0 <= k < |items'| ensures Demanded(items'[k], relocs + [r], area, offsets, atoi) {
      if k < |items| {
        assert Demanded(items[k], relocs, area, offsets, atoi);
        var q :| q in relocs && Wanted(area, offsets, atoi, q) == Some(items[k]);
        assert q in relocs + [r];
      } else {
        assert r in relocs + [r];
      }
    }
  }

  /** No relocation wants a slot for a function that the module does not have. */
  ghost predicate WantsInModule(relocs: seq<Reloc>, area: seq<byte>, offsets: seq<nat>, atoi: Atoi, count: nat)
    requires Tiled(area, offsets) && SymbolsInRange(relocs, |offsets|)
  {
    forall r :: r in relocs && Wanted(area, offsets, atoi, r).Some? ==> Wanted(area, offsets, atoi, r).value < count
  }

  /** The section can be read, and all its indices are in range. */
  ghost predicate Scannable(all: Option<seq<Group>>, area: seq<byte>, offsets: seq<nat>, atoi: Atoi, count: nat)
    requires Tiled(area, offsets)
  {
    && all.Some? && GroupsInRange(all.value, |offsets|)
    && (RangesMeet(all.value, |offsets|); WantsInModule(Relocs(all.value), area, offsets, atoi, count))
  }

  lemma {:induction false} RangesMeet(groups: seq<Group>, count: nat)
    ensures GroupsInRange(groups, count) ==> SymbolsInRange(Relocs(groups), count)
  {
    if groups != [] {
      RangesMeet(groups[..|groups| - 1], count);
    }
  }

  /** The groups of the section whose group count is read at p. */
  function SectionAt(b: seq<byte>, p: nat): Option<seq<Group>>
  {
    var q := Aligned(p);
    if q + W32 > |b| then None else GroupsAt(b, q + W32, At(b, q, W32))
  }

  /** The functions that relocations want slots for. */
  ghost function WantedSet(relocs: seq<Reloc>, area: seq<byte>, offsets: seq<nat>, atoi: Atoi): set<nat>
    requires Tiled(area, offsets)
  {
    set r | r in relocs && r.symbol < |offsets| && Wanted(area, offsets, atoi, r).Some? :: Wanted(area, offsets, atoi, r).value
  }

  lemma WantedGrows(relocs: seq<Reloc>, more: seq<Reloc>, area: seq<byte>, offsets: seq<nat>, atoi: Atoi)
    requires Tiled(area, offsets) && forall r :: r in relocs ==> r in more
    ensures |WantedSet(relocs, area, offsets, atoi)| <= |WantedSet(more, area, offsets, atoi)|
  {
    hide Wanted, Tiled;
    SubsetCard(WantedSet(relocs, area, offsets, atoi), WantedSet(more, area, offsets, atoi));
  }

  /** The list is as long as there are functions wanted. */
  lemma CollectedCount(items: seq<nat>, relocs: seq<Reloc>, area: seq<byte>, offsets: seq<nat>, atoi: Atoi)
    requires Tiled(area, offsets) && ScannedTo(items, relocs, area, offsets, atoi)
    ensures |items| == |WantedSet(relocs, area, offsets, atoi)|
  {
    hide Wanted, Tiled;
    var all := set k | 0 <= k < |items| :: items[k];
    forall f ensures f in all <==> f in WantedSet(relocs, area, offsets, atoi) {
      if k :| 0 <= k < |items| && items[k] == f { assert Demanded(items[k], relocs, area, offsets, atoi); }
    }
    assert all == WantedSet(relocs, area, offsets, atoi);
    DistinctCount(items);
  }

  lemma {:induction false} DistinctCount(items: seq<nat>)
    requires forall i, j :: 0 <= i < j < |items| ==> items[i] != items[j]
    ensures |set k | 0 <= k < |items| :: items[k]| == |items|
  {
    if items != [] {
      var n := |items| - 1;
      DistinctCount(items[..n]);
      assert (set k | 0 <= k < |items| :: items[k]) == (set k | 0 <= k < n :: items[..n][k]) + {items[n]};
    }
  }

  /** Memory for as many items as there are functions is always enough. */
  lemma FewWanted(all: seq<Group>, area: seq<byte>, offsets: seq<nat>, atoi: Atoi, count: nat)
    requires Tiled(area, offsets) && Scannable(Some(all), area, offsets, atoi, count)
    ensures |WantedSet(Relocs(all), area, offsets, atoi)| <= count
  {
    hide Wanted, Tiled;
    RangesMeet(all, |offsets|);
    BelowCount(WantedSet(Relocs(all), area, offsets, atoi), count);
  }

  lemma {:induction false} BelowCount(s: set<nat>, n: nat)
    requires forall x :: x in s ==> x < n
    ensures |s| <= n
  {
    if n > 0 {
      BelowCount(s - {n - 1}, n - 1);
    } else {
      assert s == {};
    }
  }

  // ---- the two passes ----

  class AotModule {
    const funcPtrs: seq<nat>
    var gotItems: seq<nat>
    var gotFuncPtrs: seq<nat>

    constructor (funcPtrs: seq<nat>)
      ensures this.funcPtrs == funcPtrs && gotItems == gotFuncPtrs == []
    {
      this.funcPtrs := funcPtrs;
      gotItems, gotFuncPtrs := [], [];
    }

    /** All items stand for functions of the module. */
    ghost predicate InModule()
      reads `gotItems
    {
      forall k :: 0 <= k < |gotItems| ==> gotItems[k] < |funcPtrs|
    }

    /** Looks a function up in the list: its position, or the length of the list. */
    method FindItem(func: nat) returns (k: nat)
      ensures k <= |gotItems| && (k < |gotItems| ==> gotItems[k] == func)
      ensures k < |gotItems| <==> func in gotItems
    {
      k := 0;
      while k < |gotItems| && gotItems[k] != func
        invariant k <= |gotItems| && forall j :: 0 <= j < k ==> gotItems[j] != func
      {
        k := k + 1;
      }
    }

    /** The first pass over one relocation, with the type and the symbol just read. At most `room` items can
        be allocated. */
    method ScanReloc(kind: nat, symbol: nat, ghost r: Reloc, area: seq<byte>, offsets: seq<nat>, atoi: Atoi, room: nat,
                     ghost relocs: seq<Reloc>) returns (ok: bool)
      requires Tiled(area, offsets) && InModule() && r.kind == kind && r.symbol == symbol
      requires ScannedTo(gotItems, relocs, area, offsets, atoi) && |gotItems| <= room
      modifies `gotItems
      ensures ok ==> InModule() && ScannedTo(gotItems, relocs + [r], area, offsets, atoi) && |gotItems| <= room
      ensures !ok ==> symbol >= |offsets| || |WantedSet(relocs + [r], area, offsets, atoi)| > room
                      || (Wanted(area, offsets, atoi, r).Some? && Wanted(area, offsets, atoi, r).value >= |funcPtrs|)
    {
      if symbol >= |offsets| { return false; }
      var name := ScannedName(Name(area, offsets, symbol));
      ghost var items := gotItems;
      if kind == R_X86_64_GOTPCREL && AOT_FUNC_PREFIX <= name {
        var func := atoi(name[|AOT_FUNC_PREFIX|..]);
        if func >= |funcPtrs| { return false; }
        var k := FindItem(func);
        if k == |gotItems| {
          if |gotItems| >= room {
            CollectedStep(items, items + [func], relocs, r, area, offsets, atoi);
            CollectedCount(items + [func], relocs + [r], area, offsets, atoi);
            return false;
          }
          gotItems := gotItems + [func];
        }
      }
      CollectedStep(items, gotItems, relocs, r, area, offsets, atoi);
      return true;
    }

    /** The relocations of one group; the offset and the addend are skipped without a look. */
    method ScanGroup(b: seq<byte>, p: nat, n: nat, area: seq<byte>, offsets: seq<nat>, atoi: Atoi, room: nat,
                     ghost relocs: seq<Reloc>) returns (ok: bool, p': nat)
      requires Tiled(area, offsets) && InModule() && p % W32 == 0 && p <= |b|
      requires ScannedTo(gotItems, relocs, area, offsets, atoi) && |gotItems| <= room
      modifies `gotItems
      ensures ok ==> p' == p + RELOC_SIZE * n <= |b| && InModule() && |gotItems| <= room
      ensures ok ==> ScannedTo(gotItems, relocs + RelocsAt(b, p, n), area, offsets, atoi)
      ensures !ok ==> p + RELOC_SIZE * n > |b| || |WantedSet(relocs + RelocsAt(b, p, n), area, offsets, atoi)| > room || !SymbolsInRange(RelocsAt(b, p, n), |offsets|)
                      || !WantsInModule(RelocsAt(b, p, n), area, offsets, atoi, |funcPtrs|)
    {
      hide Collected, Tiled, SymbolsInRange, At, WantsInModule, Wanted, ScannedTo;
      p' := p;
      assert relocs + RelocsAt(b, p, 0) == relocs;
      for j := 0 to n
        invariant p' == p + RELOC_SIZE * j <= |b| && InModule() && |gotItems| <= room
        invariant ScannedTo(gotItems, relocs + RelocsAt(b, p, j), area, offsets, atoi)
      {
        p' := p' + 2 * W64;
        p' := Aligned(p');
        if p' + W32 > |b| { return false, p'; }
        var kind := At(b, p', W32);
        p' := p' + W32;
        p' := Aligned(p');
        if p' + W32 > |b| { return false, p'; }
        var symbol := At(b, p', W32);
        p' := p' + W32;
        ghost var q := p + RELOC_SIZE * j;
        ghost var done := relocs + RelocsAt(b, p, j);
        ok := ScanReloc(kind, symbol, RelocAt(b, q), area, offsets, atoi, room, done);
        if !ok {
          if p + RELOC_SIZE * n <= |b| { BadReloc(b, p, n, j, relocs, area, offsets, atoi, room); }
          return false, p';
        }
        assert done + [RelocAt(b, q)] == relocs + RelocsAt(b, p, j + 1);
      }
      ok := true;
    }

    lemma BadReloc(b: seq<byte>, p: nat, n: nat, j: nat, relocs: seq<Reloc>, area: seq<byte>, offsets: seq<nat>, atoi: Atoi,
                   room: nat)
      requires Tiled(area, offsets) && p + RELOC_SIZE * n <= |b| && j < n
      requires var r := RelocAt(b, p + RELOC_SIZE * j);
               r.symbol >= |offsets| || |WantedSet(relocs + RelocsAt(b, p, j) + [r], area, offsets, atoi)| > room
               || (Wanted(area, offsets, atoi, r).Some? && Wanted(area, offsets, atoi, r).value >= |funcPtrs|)
      ensures |WantedSet(relocs + RelocsAt(b, p, n), area, offsets, atoi)| > room || !SymbolsInRange(RelocsAt(b, p, n), |offsets|)
              || !WantsInModule(RelocsAt(b, p, n), area, offsets, atoi, |funcPtrs|)
    {
      hide Wanted, RelocAt, WantedSet, Tiled;
      RelocsAtIndex(b, p, n, j);
      RelocsAtPrefix(b, p, n, j);
      WantedGrows(relocs + RelocsAt(b, p, j) + [RelocAt(b, p + RELOC_SIZE * j)], relocs + RelocsAt(b, p, n), area, offsets, atoi);
    }

    /** One group of the first pass. */
    method ScanNext(b: seq<byte>, start: nat, area: seq<byte>, offsets: seq<nat>, atoi: Atoi, room: nat,
                    ghost relocs: seq<Reloc>) returns (ok: bool, p: nat)
      requires Tiled(area, offsets) && InModule() && ScannedTo(gotItems, relocs, area, offsets, atoi) && |gotItems| <= room
      modifies `gotItems
      ensures ok ==> GroupAt(b, start).Some? && p == GroupAt(b, start).value.1 && InModule() && |gotItems| <= room
                     && GroupAt(b, start).value.0.name < |offsets| && SymbolsInRange(GroupAt(b, start).value.0.relocs, |offsets|)
                     && ScannedTo(gotItems, relocs + GroupAt(b, start).value.0.relocs, area, offsets, atoi)
      ensures !ok ==> GroupAt(b, start).None?
                      || |WantedSet(relocs + GroupAt(b, start).value.0.relocs, area, offsets, atoi)| > room
                      || !GroupFits(GroupAt(b, start).value.0, area, offsets, atoi, |funcPtrs|)
    {
      hide Tiled, At, Collected, WantsInModule, SymbolsInRange;
      p := Aligned(start);
      if p + W32 > |b| { return false, p; }
      var name := At(b, p, W32);
      p := p + W32;
      if name >= |offsets| || p + W32 > |b| { return false, p; }
      var n := At(b, p, W32);
      p := p + W32;
      ok, p := ScanGroup(b, p, n, area, offsets, atoi, room, relocs);
      if ok { RangeOfTail(relocs, GroupAt(b, start).value.0.relocs, |offsets|); }
    }

    /** The whole first pass, and the table of addresses made from its list. */
    method ScanSection(b: seq<byte>, start: nat, area: seq<byte>, offsets: seq<nat>, atoi: Atoi, room: nat, maps: bool)
      returns (ok: bool)
      requires Tiled(area, offsets) && gotItems == gotFuncPtrs == []
      modifies this
      ensures ok <==> Scannable(SectionAt(b, start), area, offsets, atoi, |funcPtrs|)
                      && MemoryFor(Relocs(SectionAt(b, start).value), area, offsets, atoi, room, maps)
      ensures ok ==> TableBuilt(Relocs(SectionAt(b, start).value), area, offsets, atoi)
    {
      hide Tiled, At, Collected, WantsInModule, SymbolsInRange, GroupAt, GroupsAt, Relocs, Scannable, GroupFits, WantedSet;
      var p: nat := Aligned(start);
      if p + W32 > |b| { NotScannable(b, start, area, offsets, atoi); return false; }
      var groupCount := At(b, p, W32);
      p := p + W32;
      ghost var all, done := SectionAt(b, start), [];
      ReadingStart(b, p, groupCount);
      NoneYet(area, offsets, atoi);
      for i := 0 to groupCount
        invariant Reading(all, done, b, p, groupCount - i) && InModule() && gotFuncPtrs == [] && |gotItems| <= room
        invariant ScannedTo(gotItems, Relocs(done), area, offsets, atoi)
        invariant GroupsInRange(done, |offsets|)
      {
        ghost var from := p;
        ok, p := ScanNext(b, p, area, offsets, atoi, room, Relocs(done));
        if !ok {
          BadGroup(all, done, b, from, groupCount - i, area, offsets, atoi, |funcPtrs|, room);
          return false;
        }
        ReadingStep(all, done, b, from, groupCount - i);
        RelocsSnoc(done, GroupAt(b, from).value.0);
        done := done + [GroupAt(b, from).value.0];
      }
      AllRead(all, done, b, p);
      ScannedIsScannable(done, gotItems, area, offsets, atoi);
      CollectedCount(gotItems, Relocs(done), area, offsets, atoi);
      if |gotItems| > 0 {
        if !maps { return false; }
        BuildTable();
      }
      ok := true;
    }

    lemma ScannedIsScannable(groups: seq<Group>, items: seq<nat>, area: seq<byte>, offsets: seq<nat>, atoi: Atoi)
      requires Tiled(area, offsets) && GroupsInRange(groups, |offsets|) && ScannedTo(items, Relocs(groups), area, offsets, atoi)
      requires forall k :: 0 <= k < |items| ==> items[k] < |funcPtrs|
      ensures Scannable(Some(groups), area, offsets, atoi, |funcPtrs|)
    {
      hide Wanted, Relocs;
    }

    /** The addresses of the collected functions, in the order of the list. */
    method BuildTable()
      requires InModule() && gotFuncPtrs == []
      modifies `gotFuncPtrs
      ensures |gotFuncPtrs| == |gotItems| && forall k :: 0 <= k < |gotItems| ==> gotFuncPtrs[k] == funcPtrs[gotItems[k]]
    {
      for i := 0 to |gotItems|
        invariant |gotFuncPtrs| == i && forall k :: 0 <= k < i ==> gotFuncPtrs[k] == funcPtrs[gotItems[k]]
      {
        gotFuncPtrs := gotFuncPtrs + [funcPtrs[gotItems[i]]];
      }
    }

    /** What the first pass leaves behind: one item and one address for every function wanted by a relocation. */
    ghost predicate TableBuilt(relocs: seq<Reloc>, area: seq<byte>, offsets: seq<nat>, atoi: Atoi)
      requires Tiled(area, offsets)
      reads this
    {
      && ScannedTo(gotItems, relocs, area, offsets, atoi) && InModule() && |gotFuncPtrs| == |gotItems|
      && forall k :: 0 <= k < |gotItems| ==> gotFuncPtrs[k] == funcPtrs[gotItems[k]]
    }

    /** do_text_relocation, for a relocation against a function symbol of which the address goes through the
        table: the slot, or nothing if the symbol is refused. */
    method ResolveSlot(r: Reloc, area: seq<byte>, offsets: seq<nat>, atoi: Atoi, ghost relocs: seq<Reloc>)
      returns (slot: Option<nat>)
      requires Tiled(area, offsets) && TableBuilt(relocs, area, offsets, atoi) && r in relocs && r.kind == R_X86_64_GOTPCREL
      requires r.symbol < |offsets| && AOT_FUNC_PREFIX <= Text(Name(area, offsets, r.symbol))
      ensures slot.None? <==> var func := FuncOf(area, offsets, atoi, r); func.None? || func.value > |funcPtrs|
      ensures slot.Some? ==>
                var func := FuncOf(area, offsets, atoi, r).value;
                && (slot.value < |gotFuncPtrs| <==> Demanded(func, relocs, area, offsets, atoi))
                && (slot.value < |gotFuncPtrs| ==> func < |funcPtrs| && gotFuncPtrs[slot.value] == funcPtrs[func])
                && (slot.value >= |gotFuncPtrs| ==> slot.value == |gotFuncPtrs|)
    {
      hide Tiled, Text, Wanted, Name;
      var symbol := Text(Name(area, offsets, r.symbol));
      var digits := symbol[|AOT_FUNC_PREFIX|..];
      if |digits| == 0 || atoi(digits) > |funcPtrs| { return None; }
      var k := FindItem(atoi(digits));
      slot := Some(k);
      if k < |gotItems| { assert Demanded(gotItems[k], relocs, area, offsets, atoi); }
    }
  }

  /** The function that a symbol names: the number behind the prefix, if there is anything behind it. */
  function FuncOf(area: seq<byte>, offsets: seq<nat>, atoi: Atoi, r: Reloc): Option<nat>
    requires Tiled(area, offsets) && r.symbol < |offsets| && AOT_FUNC_PREFIX <= Text(Name(area, offsets, r.symbol))
  {
    var digits := Text(Name(area, offsets, r.symbol))[|AOT_FUNC_PREFIX|..];
    if digits == [] then None else Some(atoi(digits))
  }

  /** With its name in at most 128 bytes, a relocation has a slot of its own making. */
  lemma ShortNameDemanded(r: Reloc, relocs: seq<Reloc>, area: seq<byte>, offsets: seq<nat>, atoi: Atoi)
    requires Tiled(area, offsets) && SymbolsInRange(relocs, |offsets|) && r in relocs && r.kind == R_X86_64_GOTPCREL
    requires AOT_FUNC_PREFIX <= Text(Name(area, offsets, r.symbol)) && FuncOf(area, offsets, atoi, r).Some?
    requires |Name(area, offsets, r.symbol)| <= 128
    ensures Demanded(FuncOf(area, offsets, atoi, r).value, relocs, area, offsets, atoi)
  {
    assert Wanted(area, offsets, atoi, r) == FuncOf(area, offsets, atoi, r);
  }

  /** A function has a slot exactly when some relocation of this type names it in at most 128 bytes. */
  lemma DemandedIff(func: nat, relocs: seq<Reloc>, area: seq<byte>, offsets: seq<nat>, atoi: Atoi)
    requires Tiled(area, offsets) && SymbolsInRange(relocs, |offsets|)
    ensures Demanded(func, relocs, area, offsets, atoi) <==>
            exists r :: r in relocs && NamesShortly(r, func, area, offsets, atoi)
  {
    hide Wanted, NamesShortly, Tiled;
    if Demanded(func, relocs, area, offsets, atoi) {
      var r :| r in relocs && Wanted(area, offsets, atoi, r) == Some(func);
      WantedIff(r, func, area, offsets, atoi);
    }
    if r :| r in relocs && NamesShortly(r, func, area, offsets, atoi) {
      WantedIff(r, func, area, offsets, atoi);
    }
  }

  lemma WantedIff(r: Reloc, func: nat, area: seq<byte>, offsets: seq<nat>, atoi: Atoi)
    requires Tiled(area, offsets) && r.symbol < |offsets|
    ensures Wanted(area, offsets, atoi, r) == Some(func) <==> NamesShortly(r, func, area, offsets, atoi)
  {
    hide Tiled, Text, Name;
  }

  predicate NamesShortly(r: Reloc, func: nat, area: seq<byte>, offsets: seq<nat>, atoi: Atoi)
    requires Tiled(area, offsets)
  {
    && r.symbol < |offsets| && r.kind == R_X86_64_GOTPCREL
    && var name := Name(area, offsets, r.symbol);
       |name| <= 128 && AOT_FUNC_PREFIX <= Text(name) && func == atoi(Text(name)[|AOT_FUNC_PREFIX|..])
  }

  /** There is memory for an item for every function wanted, and for the table if there is any. */
  ghost predicate MemoryFor(relocs: seq<Reloc>, area: seq<byte>, offsets: seq<nat>, atoi: Atoi, room: nat, maps: bool)
    requires Tiled(area, offsets)
  {
    var n := |WantedSet(relocs, area, offsets, atoi)|;
    n <= room && (n > 0 ==> maps)
  }

  ghost predicate ScannedTo(items: seq<nat>, relocs: seq<Reloc>, area: seq<byte>, offsets: seq<nat>, atoi: Atoi)
    requires Tiled(area, offsets)
  {
    SymbolsInRange(relocs, |offsets|) && Collected(items, relocs, area, offsets, atoi)
  }

  lemma RangeOfTail(relocs: seq<Reloc>, more: seq<Reloc>, count: nat)
    requires SymbolsInRange(relocs + more, count)
    ensures SymbolsInRange(more, count)
  {
    assert forall r :: r in more ==> r in relocs + more;
  }

  ghost predicate GroupFits(g: Group, area: seq<byte>, offsets: seq<nat>, atoi: Atoi, count: nat)
    requires Tiled(area, offsets)
  {
    g.name < |offsets| && SymbolsInRange(g.relocs, |offsets|) && WantsInModule(g.relocs, area, offsets, atoi, count)
  }

  lemma NoneYet(area: seq<byte>, offsets: seq<nat>, atoi: Atoi)
    requires Tiled(area, offsets)
    ensures ScannedTo([], Relocs([]), area, offsets, atoi)
  {
  }

  lemma NotScannable(b: seq<byte>, start: nat, area: seq<byte>, offsets: seq<nat>, atoi: Atoi)
    requires Tiled(area, offsets) && SectionAt(b, start).None?
    ensures forall count: nat :: !Scannable(SectionAt(b, start), area, offsets, atoi, count)
  {
  }

  lemma AllRead(all: Option<seq<Group>>, done: seq<Group>, b: seq<byte>, p: nat)
    requires Reading(all, done, b, p, 0)
    ensures all == Some(done)
  {
    assert GroupsAt(b, p, 0) == Some([]) && done + [] == done;
  }

  lemma BadGroup(all: Option<seq<Group>>, done: seq<Group>, b: seq<byte>, p: nat, n: nat,
                 area: seq<byte>, offsets: seq<nat>, atoi: Atoi, count: nat, room: nat)
    requires Tiled(area, offsets) && n > 0 && Reading(all, done, b, p, n)
    requires GroupAt(b, p).None? || |WantedSet(Relocs(done) + GroupAt(b, p).value.0.relocs, area, offsets, atoi)| > room
             || !GroupFits(GroupAt(b, p).value.0, area, offsets, atoi, count)
    ensures !Scannable(all, area, offsets, atoi, count) || |WantedSet(Relocs(all.value), area, offsets, atoi)| > room
  {
    hide GroupAt, Tiled, Wanted, WantedSet, Relocs;
    ReadingStep(all, done, b, p, n);
    if all.Some? && GroupsInRange(all.value, |offsets|) {
      var g := GroupAt(b, p).value.0;
      NextGroup(all, done, b, p, n);
      RangesMeet(all.value, |offsets|);
      forall r | r in g.relocs ensures r in Relocs(all.value) { RelocsOf(all.value, |done|, r); }
      RelocsPrefix(all.value, |done|);
      WantedGrows(Relocs(done) + g.relocs, Relocs(all.value), area, offsets, atoi);
    }
  }

  lemma {:induction false} RelocsPrefix(groups: seq<Group>, n: nat)
    requires n <= |groups|
    ensures Relocs(groups[..n]) <= Relocs(groups)
    decreases |groups| - n
  {
    if n < |groups| {
      assert groups[..n + 1][..n] == groups[..n];
      RelocsPrefix(groups, n + 1);
    } else {
      assert groups[..n] == groups;
    }
  }

  lemma NextGroup(all: Option<seq<Group>>, done: seq<Group>, b: seq<byte>, p: nat, n: nat)
    requires n > 0 && Reading(all, done, b, p, n) && all.Some?
    ensures GroupAt(b, p).Some? && |all.value| > |done| && all.value[|done|] == GroupAt(b, p).value.0
    ensures all.value[..|done|] == done
  {
    hide GroupAt;
  }

  // ---- a writer of relocation sections ----

  predicate SmallReloc(r: Reloc)
  {
    r.offset < U64 && r.addend < U64 && r.kind < U32 && r.symbol < U32
  }

  predicate SmallGroup(g: Group)
  {
    g.name < U32 && |g.relocs| < U32 && forall j :: 0 <= j < |g.relocs| ==> SmallReloc(g.relocs[j])
  }

  function EmitReloc(r: Reloc): (s: seq<byte>)
    ensures |s| == RELOC_SIZE
  {
    LE(r.offset, W64) + LE(r.addend, W64) + LE(r.kind, W32) + LE(r.symbol, W32)
  }

  function EmitRelocs(relocs: seq<Reloc>): (s: seq<byte>)
    ensures |s| == RELOC_SIZE * |relocs|
  {
    if relocs == [] then [] else EmitRelocs(relocs[..|relocs| - 1]) + EmitReloc(relocs[|relocs| - 1])
  }

  /** Padding up to the next word. */
  function Pad(p: nat): seq<byte>
  {
    Zeros(Aligned(p) - p)
  }

  function EmitGroup(g: Group, p: nat): seq<byte>
  {
    Pad(p) + LE(g.name, W32) + LE(|g.relocs|, W32) + EmitRelocs(g.relocs)
  }

  function EmitGroups(groups: seq<Group>, p: nat): seq<byte>
    decreases |groups|
  {
    if groups == [] then [] else
      var first := EmitGroup(groups[0], p);
      first + EmitGroups(groups[1..], p + |first|)
  }

  /** A relocation section to stand at p: the number of groups and the groups. */
  function EmitSection(groups: seq<Group>, p: nat): seq<byte>
  {
    Pad(p) + LE(|groups|, W32) + EmitGroups(groups, Aligned(p) + W32)
  }

  ghost predicate Lies(b: seq<byte>, p: nat, s: seq<byte>)
  {
    p + |s| <= |b| && b[p..p + |s|] == s
  }

  lemma LiesSplit(b: seq<byte>, p: nat, x: seq<byte>, y: seq<byte>)
    requires Lies(b, p, x + y)
    ensures Lies(b, p, x) && Lies(b, p + |x|, y)
  {
    assert b[p..p + |x|] == (x + y)[..|x|] == x;
    assert b[p + |x|..p + |x| + |y|] == (x + y)[|x|..] == y;
  }

  lemma WordBack(b: seq<byte>, p: nat, v: nat, n: nat)
    requires Lies(b, p, LE(v, n)) && v < Pow256(n)
    ensures At(b, p, n) == v
  {
    DecodeLE(v, n);
  }

  lemma RelocEmitted(b: seq<byte>, p: nat, r: Reloc)
    requires SmallReloc(r) && Lies(b, p, EmitReloc(r))
    ensures RelocAt(b, p) == r
  {
    hide Lies, LE, At;
    var a, c, d, e := LE(r.offset, W64), LE(r.addend, W64), LE(r.kind, W32), LE(r.symbol, W32);
    LiesSplit(b, p, a + c + d, e);
    LiesSplit(b, p, a + c, d);
    LiesSplit(b, p, a, c);
    Widths();
    WordBack(b, p, r.offset, W64);
    WordBack(b, p + 8, r.addend, W64);
    WordBack(b, p + 16, r.kind, W32);
    WordBack(b, p + 20, r.symbol, W32);
  }

  lemma {:induction false} RelocsEmitted(b: seq<byte>, p: nat, relocs: seq<Reloc>)
    requires (forall j :: 0 <= j < |relocs| ==> SmallReloc(relocs[j])) && Lies(b, p, EmitRelocs(relocs))
    ensures p + RELOC_SIZE * |relocs| <= |b| && RelocsAt(b, p, |relocs|) == relocs
    decreases |relocs|
  {
    hide RelocAt, EmitReloc, SmallReloc;
    if relocs != [] {
      var n := |relocs| - 1;
      LiesSplit(b, p, EmitRelocs(relocs[..n]), EmitReloc(relocs[n]));
      RelocsEmitted(b, p, relocs[..n]);
      RelocEmitted(b, p + RELOC_SIZE * n, relocs[n]);
    }
  }

  lemma GroupEmitted(b: seq<byte>, p: nat, g: Group)
    requires SmallGroup(g) && Lies(b, p, EmitGroup(g, p))
    ensures GroupAt(b, p) == Some((g, p + |EmitGroup(g, p)|))
  {
    hide Lies, LE, At, RelocsAt, EmitRelocs;
    var pad, name, count, relocs := Pad(p), LE(g.name, W32), LE(|g.relocs|, W32), EmitRelocs(g.relocs);
    LiesSplit(b, p, pad + name + count, relocs);
    LiesSplit(b, p, pad + name, count);
    LiesSplit(b, p, pad, name);
    Widths();
    WordBack(b, Aligned(p), g.name, W32);
    WordBack(b, Aligned(p) + 4, |g.relocs|, W32);
    RelocsEmitted(b, Aligned(p) + 8, g.relocs);
  }

  lemma {:induction false} GroupsEmitted(b: seq<byte>, p: nat, groups: seq<Group>)
    requires (forall k :: 0 <= k < |groups| ==> SmallGroup(groups[k])) && Lies(b, p, EmitGroups(groups, p))
    ensures GroupsAt(b, p, |groups|) == Some(groups)
    decreases |groups|
  {
    hide GroupAt, EmitGroup, SmallGroup, Lies;
    if groups != [] {
      var first := EmitGroup(groups[0], p);
      LiesSplit(b, p, first, EmitGroups(groups[1..], p + |first|));
      GroupEmitted(b, p, groups[0]);
      GroupsEmitted(b, p + |first|, groups[1..]);
      assert [groups[0]] + groups[1..] == groups;
    }
  }

  /** These groups have been written at p. */
  ghost predicate Written(b: seq<byte>, p: nat, groups: seq<Group>)
  {
    && |groups| < U32 && (forall k :: 0 <= k < |groups| ==> SmallGroup(groups[k]))
    && Lies(b, p, EmitSection(groups, p))
  }

  /** A section so written is read back group by group and field by field, wherever it stands. */
  lemma SectionEmitted(b: seq<byte>, p: nat, groups: seq<Group>)
    requires Written(b, p, groups)
    ensures SectionAt(b, p) == Some(groups)
  {
    hide GroupsAt, EmitGroups, SmallGroup, Lies, LE, At;
    var pad, count := Pad(p), LE(|groups|, W32);
    LiesSplit(b, p, pad + count, EmitGroups(groups, Aligned(p) + W32));
    LiesSplit(b, p, pad, count);
    Widths();
    WordBack(b, Aligned(p), |groups|, W32);
    GroupsEmitted(b, Aligned(p) + W32, groups);
  }

  // ---- the real pass ----

  /** A string that the loader takes must end in a zero. */
  predicate Terminated(s: seq<byte>)
  {
    s == [] || s[|s| - 1] == 0
  }

  predicate Usable(area: seq<byte>, offsets: seq<nat>, k: nat)
    requires Tiled(area, offsets)
  {
    k < |offsets| && Terminated(Name(area, offsets, k))
  }

  predicate AllUsable(relocs: seq<Reloc>, area: seq<byte>, offsets: seq<nat>)
    requires Tiled(area, offsets)
  {
    forall r :: r in relocs ==> Usable(area, offsets, r.symbol)
  }

  predicate Loadable(g: Group, area: seq<byte>, offsets: seq<nat>)
    requires Tiled(area, offsets)
  {
    Usable(area, offsets, g.name) && AllUsable(g.relocs, area, offsets)
  }

  /** The relocations of one group, field by field. */
  method LoadRelocs(b: seq<byte>, start: nat, n: nat, area: seq<byte>, offsets: seq<nat>)
    returns (relocs: Option<seq<Reloc>>, p: nat)
    requires Tiled(area, offsets) && start % W32 == 0 && start <= |b|
    ensures relocs.Some? <==> start + RELOC_SIZE * n <= |b| && AllUsable(RelocsAt(b, start, n), area, offsets)
    ensures relocs.Some? ==> relocs.value == RelocsAt(b, start, n) && p == start + RELOC_SIZE * n
  {
    hide Tiled, At, Usable;
    p := start;
    var acc := [];
    for j := 0 to n
      invariant p == start + RELOC_SIZE * j <= |b| && acc == RelocsAt(b, start, j)
      invariant AllUsable(acc, area, offsets)
    {
      var q := p;
      if p + W64 > |b| { return None, p; }
      var offset := At(b, p, W64);
      p := p + W64;
      if p + W64 > |b| { return None, p; }
      var addend := At(b, p, W64);
      p := p + W64;
      if p + W32 > |b| { return None, p; }
      var kind := At(b, p, W32);
      p := p + W32;
      if p + W32 > |b| { return None, p; }
      var symbol := At(b, p, W32);
      p := p + W32;
      if !Usable(area, offsets, symbol) {
        if start + RELOC_SIZE * n <= |b| { RelocsAtIndex(b, start, n, j); }
        return None, p;
      }
      acc := acc + [Reloc(offset, addend, kind, symbol)];
    }
    return Some(acc), p;
  }

  /** All groups, as the real pass reads them before it applies them. */
  method LoadSection(b: seq<byte>, start: nat, area: seq<byte>, offsets: seq<nat>) returns (groups: Option<seq<Group>>)
    requires Tiled(area, offsets)
    ensures groups.Some? <==> SectionAt(b, start).Some? && SectionLoadable(SectionAt(b, start).value, area, offsets)
    ensures groups.Some? ==> groups == SectionAt(b, start)
    ensures forall gs :: Written(b, start, gs) ==> groups == if SectionLoadable(gs, area, offsets) then Some(gs) else None
  {
    hide Tiled, At, Loadable, GroupAt, GroupsAt, Written;
    forall gs | Written(b, start, gs) ensures SectionAt(b, start) == Some(gs) { SectionEmitted(b, start, gs); }
    var p: nat := Aligned(start);
    if p + W32 > |b| { return None; }
    var groupCount := At(b, p, W32);
    p := p + W32;
    ghost var all := SectionAt(b, start);
    ReadingStart(b, p, groupCount);
    var done := [];
    for i := 0 to groupCount
      invariant Reading(all, done, b, p, groupCount - i) && SectionLoadable(done, area, offsets)
    {
      ghost var from := p;
      ReadingStep(all, done, b, p, groupCount - i);
      var g;
      g, p := LoadGroup(b, p, area, offsets);
      if g.None? {
        if all.Some? { NextGroup(all, done, b, from, groupCount - i); }
        return None;
      }
      done := done + [g.value];
    }
    AllRead(all, done, b, p);
    return Some(done);
  }

  predicate SectionLoadable(groups: seq<Group>, area: seq<byte>, offsets: seq<nat>)
    requires Tiled(area, offsets)
  {
    forall k :: 0 <= k < |groups| ==> Loadable(groups[k], area, offsets)
  }

  method LoadGroup(b: seq<byte>, start: nat, area: seq<byte>, offsets: seq<nat>) returns (g: Option<Group>, p: nat)
    requires Tiled(area, offsets)
    ensures g.Some? <==> GroupAt(b, start).Some? && Loadable(GroupAt(b, start).value.0, area, offsets)
    ensures g.Some? ==> GroupAt(b, start) == Some((g.value, p))
  {
    hide Tiled, At, Usable, AllUsable;
    p := Aligned(start);
    if p + W32 > |b| { return None, p; }
    var name := At(b, p, W32);
    p := p + W32;
    if p + W32 > |b| || !Usable(area, offsets, name) { return None, p; }
    var n := At(b, p, W32);
    p := p + W32;
    var relocs;
    relocs, p := LoadRelocs(b, p, n, area, offsets);
    if relocs.None? { return None, p; }
    return Some(Group(name, relocs.value)), p;
  }

  // ---- a name that the first pass does not see ----

  lemma {:induction false} TextOf(s: seq<byte>)
    requires forall i :: 0 <= i < |s| ==> s[i] != 0
    ensures Text(s + [0]) == s
  {
    if s == [] {
      assert s + [0] == [0];
    } else {
      assert (s + [0])[1..] == s[1..] + [0];
      TextOf(s[1..]);
    }
  }

  /** The index padded to 120 digits. */
  function LongDigits(): (s: seq<byte>)
    ensures |s| == 120
  {
    seq(120, _ => 48)
  }

  /** "aot_func#" with those digits, terminated. */
  function LongName(): (s: seq<byte>)
    ensures |s| == 130
  {
    AOT_FUNC_PREFIX + LongDigits() + [0]
  }

  lemma LongText()
    ensures Text(LongName()) == AOT_FUNC_PREFIX + LongDigits() && Terminated(LongName())
    ensures AOT_FUNC_PREFIX <= Text(LongName()) && Text(LongName())[|AOT_FUNC_PREFIX|..] == LongDigits()
  {
    TextOf(AOT_FUNC_PREFIX + LongDigits());
  }

  /** One group, named by symbol 0, with one relocation of the type against symbol 0. */
  function OneReloc(): (b: seq<byte>)
    ensures |b| == 36
  {
    [1, 0, 0, 0] + [0, 0, 0, 0] + [1, 0, 0, 0] + Zeros(16) + [9, 0, 0, 0] + [0, 0, 0, 0]
  }

  const LONG_RELOC := Reloc(0, 0, R_X86_64_GOTPCREL, 0)

  lemma {:induction false} ZeroLE(n: nat)
    ensures FromLE(Zeros(n)) == 0
  {
    if n > 0 {
      ZeroLE(n - 1);
      assert Zeros(n)[1..] == Zeros(n - 1);
    }
  }

  lemma OneRelocFields()
    ensures var b := OneReloc();
            && At(b, 0, W32) == 1 && At(b, 4, W32) == 0 && At(b, 8, W32) == 1
            && RelocAt(b, 12) == LONG_RELOC
  {
    hide FromLE;
    var b := OneReloc();
    SmallLE(0);
    SmallLE(1);
    SmallLE(9);
    ZeroLE(8);
    assert b[0..4] == [1, 0, 0, 0] && b[4..8] == [0, 0, 0, 0] && b[8..12] == [1, 0, 0, 0];
    assert b[12..20] == Zeros(8) && b[20..28] == Zeros(8) && b[28..32] == [9, 0, 0, 0] && b[32..36] == [0, 0, 0, 0];
  }

  lemma OneRelocRead()
    ensures SectionAt(OneReloc(), 0) == Some([Group(0, [LONG_RELOC])])
  {
    hide RelocAt, At;
    var b := OneReloc();
    OneRelocFields();
    assert RelocsAt(b, 12, 0) == [] && RelocsAt(b, 12, 1) == [] + [LONG_RELOC] == [LONG_RELOC];
    assert Aligned(0) == 0 && Aligned(4) == 4;
    var g := GroupAt(b, 4);
    assert g.Some? && g.value.1 == 36 && g.value.0.name == 0;
    assert g.value.0.relocs == RelocsAt(b, 12, 1);
    assert GroupAt(b, 4) == Some((Group(0, [LONG_RELOC]), 36));
    assert GroupsAt(b, 36, 0) == Some([]);
    assert GroupsAt(b, 4, 1) == Some([Group(0, [LONG_RELOC])] + []);
    assert [Group(0, [LONG_RELOC])] + [] == [Group(0, [LONG_RELOC])];
  }

  /** A section that both passes accept leaves its relocation, whose symbol names a function, without a slot: the
      symbol is too long for the first pass. */
  lemma LongNameMissed(atoi: Atoi, count: nat)
    requires atoi(LongDigits()) < count
    ensures LONG_RELOC.symbol < |OffsetsOf([LongName()])|
    ensures var b, area, offsets := OneReloc(), Table([LongName()]), OffsetsOf([LongName()]);
            && Tiled(area, offsets) && SectionAt(b, 0) == Some([Group(0, [LONG_RELOC])])
            && Scannable(SectionAt(b, 0), area, offsets, atoi, count)
            && SectionLoadable(SectionAt(b, 0).value, area, offsets)
            && AOT_FUNC_PREFIX <= Text(Name(area, offsets, 0))
            && FuncOf(area, offsets, atoi, LONG_RELOC) == Some(atoi(LongDigits()))
            && !Demanded(atoi(LongDigits()), [LONG_RELOC], area, offsets, atoi)
  {
    hide Tiled, Table, LongName, LongDigits, SectionAt, OneReloc, Text;
    var area, offsets := Table([LongName()]), OffsetsOf([LongName()]);
    OneRelocRead();
    TableAccepted([LongName()]);
    assert ReadsBack([LongName()], 0);
    assert Name(area, offsets, 0) == LongName();
    LongText();
    var g := Group(0, [LONG_RELOC]);
    assert Relocs([g]) == [] + [LONG_RELOC];
    assert Wanted(area, offsets, atoi, LONG_RELOC) == None;
    assert Usable(area, offsets, 0);
    DemandedIff(atoi(LongDigits()), [LONG_RELOC], area, offsets, atoi);
  }

  /** So the relocation is made to point just behind the table. */
  method ResolveLongName(m: AotModule, atoi: Atoi) returns (slot: Option<nat>)
    requires m.gotItems == m.gotFuncPtrs == [] && atoi(LongDigits()) < |m.funcPtrs|
    modifies m
    ensures slot == Some(|m.gotFuncPtrs|)
  {
    hide Tiled, Table, LongName, LongDigits, SectionAt, OneReloc, Scannable, SectionLoadable, Demanded, FuncOf, Text, Name;
    LongNameMissed(atoi, |m.funcPtrs|);
    slot := ResolveUndemanded(m, OneReloc(), Table([LongName()]), OffsetsOf([LongName()]), atoi, LONG_RELOC, atoi(LongDigits()));
  }

  /** Both passes over a section with one relocation for which there is no slot. */
  method ResolveUndemanded(m: AotModule, b: seq<byte>, area: seq<byte>, offsets: seq<nat>, atoi: Atoi, r: Reloc, ghost func: nat)
    returns (slot: Option<nat>)
    requires m.gotItems == m.gotFuncPtrs == [] && func < |m.funcPtrs| && Tiled(area, offsets)
    requires SectionAt(b, 0) == Some([Group(0, [r])]) && Scannable(SectionAt(b, 0), area, offsets, atoi, |m.funcPtrs|)
    requires SectionLoadable(SectionAt(b, 0).value, area, offsets)
    requires r.kind == R_X86_64_GOTPCREL && r.symbol < |offsets| && AOT_FUNC_PREFIX <= Text(Name(area, offsets, r.symbol))
    requires FuncOf(area, offsets, atoi, r) == Some(func) && !Demanded(func, [r], area, offsets, atoi)
    modifies m
    ensures slot == Some(|m.gotFuncPtrs|)
  {
    hide Tiled, SectionAt, Scannable, SectionLoadable, Demanded, FuncOf, Text, Name, WantedSet;
    FewWanted([Group(0, [r])], area, offsets, atoi, |m.funcPtrs|);
    var ok := m.ScanSection(b, 0, area, offsets, atoi, |m.funcPtrs|, true);
    var groups := LoadSection(b, 0, area, offsets);
    assert ok && groups == Some([Group(0, [r])]);
    assert Relocs([Group(0, [r])]) == [] + [r] == [r];
    assert Relocs(SectionAt(b, 0).value) == [r];
    slot := m.ResolveSlot(r, area, offsets, atoi, [r]);
  }
}
