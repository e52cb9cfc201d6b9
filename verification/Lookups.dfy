/** Fast lookups over exports and function names: duplicate detection by sorting (check_duplicate_exports in
    aot_loader.c), the sorted export functions and the index map built on demand (create_export_funcs,
    aot_lookup_function and aot_lookup_function_with_idx in aot_runtime.c), and the names of the custom name
    section (load_name_section in aot_loader.c, lookup_func_name in aot_runtime.c). */
module Lookups {
  import opened Wrappers
  import opened Bytes

  /** A C string, without its terminator. */
  type Str = seq<byte>

  // ---- the C library ----

  function StrCmp(a: Str, b: Str): int
  {
    if a == [] && b == [] then 0
    else if a == [] then -1
    else if b == [] then 1
    else if a[0] != b[0] then a[0] - b[0]
    else StrCmp(a[1..], b[1..])
  }

  lemma {:induction false} StrCmpZero(a: Str, b: Str)
    ensures StrCmp(a, b) == 0 <==> a == b
  {
    if a != [] && b != [] && a[0] == b[0] {
      StrCmpZero(a[1..], b[1..]);
      assert a == [a[0]] + a[1..] && b == [b[0]] + b[1..];
    }
  }

  lemma {:induction false} StrCmpSwap(a: Str, b: Str)
    ensures StrCmp(b, a) == -StrCmp(a, b)
  {
    if a != [] && b != [] && a[0] == b[0] { StrCmpSwap(a[1..], b[1..]); }
  }

  lemma {:induction false} StrCmpTransitive(a: Str, b: Str, c: Str)
    requires StrCmp(a, b) <= 0 && StrCmp(b, c) <= 0
    ensures StrCmp(a, c) <= 0
  {
    if a != [] && b != [] && c != [] && a[0] == b[0] == c[0] { StrCmpTransitive(a[1..], b[1..], c[1..]); }
  }

  ghost predicate Sorted<T(!new)>(s: seq<T>, le: (T, T) -> bool)
  {
    forall i, j :: 0 <= i < j < |s| ==> le(s[i], s[j])
  }

  ghost predicate TotalPreorder<T(!new)>(le: (T, T) -> bool)
  {
    && (forall x, y :: le(x, y) || le(y, x))
    && forall x, y, z :: le(x, y) && le(y, z) ==> le(x, z)
  }

  /** qsort: the same elements in ascending order. */
  method QSort<T(!new)>(s: seq<T>, le: (T, T) -> bool) returns (r: seq<T>)
    requires TotalPreorder(le)
    ensures Sorted(r, le) && multiset(r) == multiset(s) && |r| == |s|
  {
    r := [];
    for i := 0 to |s|
      invariant Sorted(r, le) && multiset(r) == multiset(s[..i]) && |r| == i
    {
      assert s[..i + 1] == s[..i] + [s[i]];
      r := Insert(r, s[i], le);
    }
    assert s[..|s|] == s;
  }

  method Insert<T(!new)>(s: seq<T>, x: T, le: (T, T) -> bool) returns (r: seq<T>)
    requires TotalPreorder(le) && Sorted(s, le)
    ensures Sorted(r, le) && multiset(r) == multiset(s) + multiset{x} && |r| == |s| + 1
  {
    var k: nat := |s|;
    while k > 0 && !le(s[k - 1], x)
      invariant k <= |s| && forall j :: k <= j < |s| ==> le(x, s[j])
    {
      assert le(x, s[k - 1]);
      k := k - 1;
    }
    r := s[..k] + [x] + s[k..];
    InsertSorted(s, k, x, le);
    InsertElements(s, k, x);
  }

  lemma InsertElements<T>(s: seq<T>, k: nat, x: T)
    requires k <= |s|
    ensures multiset(s[..k] + [x] + s[k..]) == multiset(s) + multiset{x}
  {
    assert s == s[..k] + s[k..];
  }

  lemma InsertSorted<T(!new)>(s: seq<T>, k: nat, x: T, le: (T, T) -> bool)
    requires TotalPreorder(le) && Sorted(s, le) && k <= |s|
    requires (k > 0 ==> le(s[k - 1], x)) && forall j :: k <= j < |s| ==> le(x, s[j])
    ensures Sorted(s[..k] + [x] + s[k..], le)
  {
    forall j | 0 <= j < k ensures le(s[j], x) {
      if j < k - 1 { assert le(s[j], s[k - 1]); }
    }
  }

  /** How an ordered list looks to the comparisons of a search: first those below the key, then those that match. */
  ghost predicate Searchable<T(!new)>(s: seq<T>, cmp: T -> int)
  {
    forall i, j :: 0 <= i <= j < |s| ==> (cmp(s[i]) < 0 ==> cmp(s[j]) < 0) && (cmp(s[j]) > 0 ==> cmp(s[i]) > 0)
  }

  /** bsearch; `cmp(x)` compares the key with x. */
  method BSearch<T(!new)>(s: seq<T>, cmp: T -> int) returns (r: Option<nat>)
    requires Searchable(s, cmp)
    ensures r.Some? ==> r.value < |s| && cmp(s[r.value]) == 0
    ensures r.None? ==> forall i :: 0 <= i < |s| ==> cmp(s[i]) != 0
  {
    var low: nat, high: nat := 0, |s|;
    while low < high
      invariant low <= high <= |s|
      invariant forall i :: 0 <= i < low ==> cmp(s[i]) > 0
      invariant forall i :: high <= i < |s| ==> cmp(s[i]) < 0
    {
      var mid := (low + high) / 2;
      var c := cmp(s[mid]);
      if c == 0 { return Some(mid); }
      if c < 0 { high := mid; } else { low := mid + 1; }
    }
    return None;
  }

  // ---- duplicate exports ----

  datatype Kind = Func | Table | Memory | Global

  datatype Export = Export(name: Str, kind: Kind, index: nat)

  predicate NameLe(a: Str, b: Str)
  {
    StrCmp(a, b) <= 0
  }

  lemma NamesOrdered()
    ensures TotalPreorder(NameLe)
  {
    forall x, y ensures NameLe(x, y) || NameLe(y, x) { StrCmpSwap(x, y); }
    forall x, y, z | NameLe(x, y) && NameLe(y, z) ensures NameLe(x, z) { StrCmpTransitive(x, y, z); }
  }

  ghost predicate AllDistinct<T>(s: seq<T>)
  {
    forall i, j :: 0 <= i < j < |s| ==> s[i] != s[j]
  }

  lemma {:induction false} DistinctIff<T>(s: seq<T>)
    ensures AllDistinct(s) <==> forall x :: multiset(s)[x] <= 1
  {
    if s != [] {
      var n := |s| - 1;
      var t := s[..n];
      assert s == t + [s[n]];
      DistinctIff(t);
      if AllDistinct(s) {
        forall x ensures multiset(s)[x] <= 1 {
          if x == s[n] { assert x !in t; }
        }
      }
      if forall x :: multiset(s)[x] <= 1 {
        forall x ensures multiset(t)[x] <= 1 { assert multiset(t)[x] <= multiset(s)[x]; }
        assert multiset(s)[s[n]] <= 1;
        assert s[n] !in multiset(t);
        forall i | 0 <= i < n ensures s[i] != s[n] { assert t[i] in multiset(t); }
      }
    }
  }

  function NamesOf(exports: seq<Export>): (names: seq<Str>)
    ensures |names| == |exports|
  {
    seq(|exports|, i requires 0 <= i < |exports| => exports[i].name)
  }

  /** check_duplicate_exports: looking at neighbours after sorting finds every duplicate; more than 32 names
      need memory for the sorting. */
  method CheckDuplicateExports(exports: seq<Export>, allocates: bool) returns (ok: bool)
    ensures ok <==> AllDistinct(NamesOf(exports)) && (|exports| > 32 ==> allocates)
  {
    if |exports| > 32 && !allocates { return false; }
    hide StrCmp;
    NamesOrdered();
    var names := QSort(NamesOf(exports), NameLe);
    SortedDistinct(NamesOf(exports), names);
    var i := 1;
    while i < |names|
      invariant 1 <= i && forall k :: 1 <= k < i && k < |names| ==> names[k] != names[k - 1]
    {
      StrCmpZero(names[i], names[i - 1]);
      if StrCmp(names[i], names[i - 1]) == 0 { return false; }
      i := i + 1;
    }
    NeighboursDiffer(names);
    return true;
  }

  lemma SortedDistinct<T>(s: seq<T>, t: seq<T>)
    requires multiset(s) == multiset(t)
    ensures AllDistinct(s) <==> AllDistinct(t)
  {
    DistinctIff(s);
    DistinctIff(t);
  }

  lemma NeighboursDiffer(names: seq<Str>)
    requires Sorted(names, NameLe) && forall k :: 1 <= k < |names| ==> names[k] != names[k - 1]
    ensures AllDistinct(names)
  {
    forall i, j | 0 <= i < j < |names| ensures names[i] != names[j] {
      assert NameLe(names[i], names[i + 1]) && (i + 1 < j ==> NameLe(names[i + 1], names[j]));
      StrCmpZero(names[i + 1], names[i]);
      StrCmpSwap(names[i + 1], names[i]);
    }
  }

  // ---- export functions ----

  /** What an export leads to: an imported function, or one of the module with its type and address. */
  datatype Target = Imported(k: nat) | Defined(funcType: nat, ptr: nat)

  datatype FuncInst = FuncInst(name: Str, index: nat, target: Target)

  datatype FuncMap = FuncMap(funcIndex: nat, exportIndex: nat)

  predicate InstLe(a: FuncInst, b: FuncInst)
  {
    StrCmp(a.name, b.name) <= 0
  }

  predicate MapLe(a: FuncMap, b: FuncMap)
  {
    a.funcIndex <= b.funcIndex
  }

  lemma InstsOrdered()
    ensures TotalPreorder(InstLe)
  {
    NamesOrdered();
    forall x, y ensures InstLe(x, y) || InstLe(y, x) { assert NameLe(x.name, y.name) || NameLe(y.name, x.name); }
    forall x, y, z | InstLe(x, y) && InstLe(y, z) ensures InstLe(x, z) { StrCmpTransitive(x.name, y.name, z.name); }
  }

  /** A loaded module: its exports, and the types and addresses of the functions behind its imports. */
  datatype Module = Module(exports: seq<Export>, importCount: nat, funcTypes: seq<nat>, funcPtrs: seq<nat>)
  {
    /** The loader has seen to it that no two exports have one name and that every exported function is there. */
    ghost predicate Loaded()
    {
      && AllDistinct(NamesOf(exports)) && |funcTypes| == |funcPtrs|
      && forall i :: 0 <= i < |exports| && exports[i].kind == Func ==> exports[i].index < importCount + |funcPtrs|
    }

    function InstanceOf(e: Export): FuncInst
      requires e.index < importCount + |funcPtrs| && |funcTypes| == |funcPtrs|
    {
      FuncInst(e.name, e.index,
               if e.index < importCount then Imported(e.index)
               else Defined(funcTypes[e.index - importCount], funcPtrs[e.index - importCount]))
    }

    /** The export is a function, and the instance is what it leads to. */
    ghost predicate LeadsTo(e: Export, f: FuncInst)
      requires Loaded()
    {
      && e.kind == Func && f.name == e.name && f.index == e.index
      && match f.target
         case Imported(k) => e.index < importCount && k == e.index
         case Defined(funcType, ptr) =>
           && importCount <= e.index < importCount + |funcPtrs|
           && funcType == funcTypes[e.index - importCount] && ptr == funcPtrs[e.index - importCount]
    }

    /** The list has the instance of each of the first n exports that is a function, and nothing else. */
    ghost predicate Lists(insts: seq<FuncInst>, n: nat)
      requires Loaded() && n <= |exports|
    {
      && (forall i :: 0 <= i < n && exports[i].kind == Func ==> InstanceOf(exports[i]) in insts)
      && forall f :: f in insts ==> exists i :: 0 <= i < n && exports[i].kind == Func && InstanceOf(exports[i]) == f
    }

    /** A scan over the exports from the i-th on. */
    ghost function Scan(name: Str, i: nat): Option<FuncInst>
      requires Loaded() && i <= |exports|
      decreases |exports| - i
    {
      if i == |exports| then None
      else if exports[i].kind == Func && exports[i].name == name then Some(InstanceOf(exports[i]))
      else Scan(name, i + 1)
    }

    /** The scan finds a function export of the name wherever it is, there being one at most. */
    lemma {:induction false} ScanFinds(name: Str, i: nat, k: nat)
      requires Loaded() && i <= k < |exports| && exports[k].kind == Func && exports[k].name == name
      ensures Scan(name, i) == Some(InstanceOf(exports[k]))
      decreases k - i
    {
      assert i < k ==> NamesOf(exports)[i] != NamesOf(exports)[k];
      if i < k { ScanFinds(name, i + 1, k); }
    }

    lemma {:induction false} ScanFails(name: Str, i: nat)
      requires Loaded() && i <= |exports|
      requires forall k :: i <= k < |exports| && exports[k].kind == Func ==> exports[k].name != name
      ensures Scan(name, i) == None
      decreases |exports| - i
    {
      if i < |exports| { ScanFails(name, i + 1); }
    }
  }

  lemma SameElements<T>(s: seq<T>, t: seq<T>)
    requires multiset(s) == multiset(t)
    ensures forall x :: x in s <==> x in t
  {
    forall x ensures x in s <==> x in t {
      assert x in s <==> x in multiset(s);
      assert x in t <==> x in multiset(t);
    }
  }

  function ByName(name: Str): FuncInst -> int
  {
    (f: FuncInst) => StrCmp(name, f.name)
  }

  function ByIndex(func: nat): FuncMap -> int
  {
    (m: FuncMap) => if func < m.funcIndex then -1 else if func > m.funcIndex then 1 else 0
  }

  lemma NamesSearchable(funcs: seq<FuncInst>, name: Str)
    requires Sorted(funcs, InstLe)
    ensures Searchable(funcs, ByName(name))
  {
    forall i, j | 0 <= i <= j < |funcs|
      ensures ByName(name)(funcs[i]) < 0 ==> ByName(name)(funcs[j]) < 0
      ensures ByName(name)(funcs[j]) > 0 ==> ByName(name)(funcs[i]) > 0
    {
      var a, b := funcs[i].name, funcs[j].name;
      assert i < j ==> InstLe(funcs[i], funcs[j]);
      StrCmpSwap(name, a);
      StrCmpSwap(name, b);
      StrCmpSwap(a, b);
      StrCmpZero(name, a);
      StrCmpZero(name, b);
      if i < j && StrCmp(name, b) >= 0 { StrCmpTransitive(a, b, name); }
      if i < j && StrCmp(name, b) > 0 && StrCmp(name, a) == 0 { assert name == a; }
    }
  }

  /** The index map has one entry for each position of the function list, in the order of function indices. */
  ghost predicate MapsAll(maps: seq<FuncMap>, funcs: seq<FuncInst>)
  {
    && Sorted(maps, MapLe)
    && (forall i :: 0 <= i < |funcs| ==> FuncMap(funcs[i].index, i) in maps)
    && forall m :: m in maps ==> m.exportIndex < |funcs| && funcs[m.exportIndex].index == m.funcIndex
  }

  class ModuleInstance {
    const aot: Module
    var exportFunctions: seq<FuncInst>
    var exportFuncMaps: Option<seq<FuncMap>>

    /** The functions are those exported, sorted by name; the map, once it is there, covers them. */
    ghost predicate Valid()
      reads this
    {
      && aot.Loaded() && Sorted(exportFunctions, InstLe) && aot.Lists(exportFunctions, |aot.exports|)
      && (exportFuncMaps.Some? ==> MapsAll(exportFuncMaps.value, exportFunctions))
    }

    constructor (aot: Module, functions: seq<FuncInst>)
      ensures this.aot == aot && exportFunctions == functions && exportFuncMaps == None
    {
      this.aot, exportFunctions, exportFuncMaps := aot, functions, None;
    }

    /** aot_lookup_function: what a scan over the exports finds, that is the function behind the one export of the name, an
        imported one or one of the module with its own type and address; nothing exactly if no function is exported so. */
    method LookupFunction(name: Str) returns (r: Option<FuncInst>)
      requires Valid()
      ensures r == aot.Scan(name, 0)
      ensures r.None? <==> forall i :: 0 <= i < |aot.exports| && aot.exports[i].kind == Func ==> aot.exports[i].name != name
      ensures r.Some? ==> r.value.name == name && exists i :: 0 <= i < |aot.exports| && aot.LeadsTo(aot.exports[i], r.value)
    {
      NamesSearchable(exportFunctions, name);
      var k := BSearch(exportFunctions, ByName(name));
      if k.None? {
        forall i | 0 <= i < |aot.exports| && aot.exports[i].kind == Func ensures aot.exports[i].name != name {
          var j :| 0 <= j < |exportFunctions| && exportFunctions[j] == aot.InstanceOf(aot.exports[i]);
          assert ByName(name)(exportFunctions[j]) != 0;
          StrCmpZero(name, exportFunctions[j].name);
        }
        aot.ScanFails(name, 0);
        return None;
      }
      var f := exportFunctions[k.value];
      StrCmpZero(name, f.name);
      assert f in exportFunctions;
      ghost var i :| 0 <= i < |aot.exports| && aot.exports[i].kind == Func && aot.InstanceOf(aot.exports[i]) == f;
      aot.ScanFinds(name, 0, i);
      assert aot.LeadsTo(aot.exports[i], f);
      return Some(f);
    }

    /** aot_lookup_function_with_idx: finds an export of the function if there is any, be it through the map, made on
        the first use, or one by one if there is no memory for the map. */
    method LookupFunctionWithIdx(func: nat, allocates: bool) returns (r: Option<nat>)
      requires Valid()
      modifies `exportFuncMaps
      ensures Valid() && (old(exportFuncMaps).Some? ==> exportFuncMaps == old(exportFuncMaps))
      ensures r.Some? ==> r.value < |exportFunctions| && exportFunctions[r.value].index == func
      ensures r.None? ==> forall i :: 0 <= i < |aot.exports| && aot.exports[i].kind == Func ==> aot.exports[i].index != func
    {
      r := None;
      if |exportFunctions| == 0 { return None; }
      if exportFuncMaps.None? {
        if !allocates {
          for i := 0 to |exportFunctions|
            invariant forall j :: 0 <= j < i ==> exportFunctions[j].index != func
          {
            if exportFunctions[i].index == func { return Some(i); }
          }
          NotExported(func);
          return None;
        }
        var maps := BuildMaps();
        exportFuncMaps := Some(maps);
      }
      var maps := exportFuncMaps.value;
      IndicesSearchable(maps, func);
      var k := BSearch(maps, ByIndex(func));
      if k.Some? {
        r := Some(maps[k.value].exportIndex);
      } else {
        forall j | 0 <= j < |exportFunctions| ensures exportFunctions[j].index != func {
          var i :| 0 <= i < |maps| && maps[i] == FuncMap(exportFunctions[j].index, j);
          assert ByIndex(func)(maps[i]) != 0;
        }
        NotExported(func);
      }
    }

    lemma NotExported(func: nat)
      requires Valid() && forall j :: 0 <= j < |exportFunctions| ==> exportFunctions[j].index != func
      ensures forall i :: 0 <= i < |aot.exports| && aot.exports[i].kind == Func ==> aot.exports[i].index != func
    {
      forall i | 0 <= i < |aot.exports| && aot.exports[i].kind == Func ensures aot.exports[i].index != func {
        assert aot.InstanceOf(aot.exports[i]) in exportFunctions;
      }
    }

    lemma IndicesSearchable(maps: seq<FuncMap>, func: nat)
      requires Sorted(maps, MapLe)
      ensures Searchable(maps, ByIndex(func))
    {
      forall i, j | 0 <= i <= j < |maps|
        ensures ByIndex(func)(maps[i]) < 0 ==> ByIndex(func)(maps[j]) < 0
        ensures ByIndex(func)(maps[j]) > 0 ==> ByIndex(func)(maps[i]) > 0
      {
        assert i < j ==> MapLe(maps[i], maps[j]);
      }
    }

    method BuildMaps() returns (maps: seq<FuncMap>)
      ensures MapsAll(maps, exportFunctions)
    {
      var list := [];
      for i := 0 to |exportFunctions|
        invariant |list| == i && forall j :: 0 <= j < i ==> list[j] == FuncMap(exportFunctions[j].index, j)
      {
        list := list + [FuncMap(exportFunctions[i].index, i)];
      }
      maps := QSort(list, MapLe);
      SameElements(list, maps);
      forall i | 0 <= i < |exportFunctions| ensures FuncMap(exportFunctions[i].index, i) in maps {
        assert list[i] in list;
      }
    }
  }

  ghost predicate ExportsFunction(aot: Module)
  {
    exists i :: 0 <= i < |aot.exports| && aot.exports[i].kind == Func
  }

  /** create_export_funcs: lists the exported functions, each once, sorted by name; memory is only needed if there are any. */
  method CreateExportFuncs(aot: Module, allocates: bool) returns (inst: ModuleInstance?)
    requires aot.Loaded()
    ensures inst == null <==> ExportsFunction(aot) && !allocates
    ensures inst != null ==> fresh(inst) && inst.aot == aot && inst.Valid() && inst.exportFuncMaps == None
    ensures inst != null ==> AllDistinct(inst.exportFunctions)
  {
    var insts := ExportInstances(aot);
    assert |insts| > 0 ==> insts[0] in insts;
    if |insts| > 0 && !allocates { return null; }
    InstsOrdered();
    var sorted := QSort(insts, InstLe);
    SameElements(insts, sorted);
    SortedDistinct(insts, sorted);
    inst := new ModuleInstance(aot, sorted);
  }

  method ExportInstances(aot: Module) returns (insts: seq<FuncInst>)
    requires aot.Loaded()
    ensures aot.Lists(insts, |aot.exports|) && AllDistinct(insts)
  {
    insts := [];
    for i := 0 to |aot.exports|
      invariant aot.Lists(insts, i) && AllDistinct(insts)
    {
      if aot.exports[i].kind == Func {
        forall f | f in insts ensures f.name != aot.exports[i].name {
          var k :| 0 <= k < i && aot.exports[k].kind == Func && aot.InstanceOf(aot.exports[k]) == f;
          assert NamesOf(aot.exports)[k] != NamesOf(aot.exports)[i];
        }
        insts := insts + [aot.InstanceOf(aot.exports[i])];
      }
    }
  }

  // ---- names of functions ----

  datatype FuncName = FuncName(index: nat, name: Str)

  const SUB_SECTION_FUNC := 1

  /** A sub-section of the name section; the list is there for the one that names functions, unless it is empty. */
  datatype SubSection = SubSection(kind: nat, names: Option<seq<FuncName>>)

  ghost predicate Ascending(names: seq<FuncName>)
  {
    forall i, j :: 0 <= i < j < |names| ==> names[i].index < names[j].index
  }

  ghost predicate KindsAscend(subs: seq<SubSection>)
  {
    forall i, j :: 0 <= i < j < |subs| ==> subs[i].kind < subs[j].kind
  }

  ghost predicate NamesValid(names: seq<FuncName>, total: nat)
  {
    |names| <= total && Ascending(names) && forall i :: 0 <= i < |names| ==> names[i].index < total
  }

  predicate NamesFuncs(s: SubSection)
  {
    s.kind == SUB_SECTION_FUNC && s.names.Some?
  }

  /** The function names of an accepted section: those of its only sub-section for them. */
  ghost predicate Taken(subs: seq<SubSection>, names: seq<FuncName>)
  {
    (names == [] && forall i :: 0 <= i < |subs| ==> !NamesFuncs(subs[i]))
    || exists i :: 0 <= i < |subs| && NamesFuncs(subs[i]) && names == subs[i].names.value
  }

  method LoadFuncNames(names: seq<FuncName>, total: nat) returns (ok: bool)
    ensures ok <==> NamesValid(names, total)
  {
    if |names| > total { return false; }
    var previous := 0;
    for i := 0 to |names|
      invariant Ascending(names[..i]) && forall k :: 0 <= k < i ==> names[k].index < total
      invariant i > 0 ==> previous == names[i - 1].index
    {
      var index := names[i].index;
      if i != 0 && index == previous { return false; }
      if i != 0 && index < previous { return false; }
      if index >= total { return false; }
      assert forall k :: 0 <= k < i ==> names[..i][k].index <= previous;
      previous := index;
    }
    assert names[..|names|] == names;
    return true;
  }

  /** load_name_section, over the decoded sub-sections. */
  method LoadNameSection(subs: seq<SubSection>, total: nat) returns (ok: bool, names: seq<FuncName>)
    ensures ok <==> KindsAscend(subs) && forall i :: 0 <= i < |subs| && NamesFuncs(subs[i]) ==> NamesValid(subs[i].names.value, total)
    ensures ok ==> Taken(subs, names) && NamesValid(names, total)
  {
    names := [];
    var previous := 0;
    for i := 0 to |subs|
      invariant KindsAscend(subs[..i]) && (i > 0 ==> previous == subs[i - 1].kind)
      invariant forall k :: 0 <= k < i && NamesFuncs(subs[k]) ==> NamesValid(subs[k].names.value, total)
      invariant Taken(subs[..i], names) && NamesValid(names, total)
    {
      var s := subs[i];
      if i != 0 && s.kind == previous { return false, names; }
      if i != 0 && s.kind < previous { return false, names; }
      assert forall k :: 0 <= k < i ==> subs[..i][k].kind <= previous;
      previous := s.kind;
      assert subs[..i + 1][i] == s;
      if NamesFuncs(s) {
        var valid := LoadFuncNames(s.names.value, total);
        if !valid { return false, names; }
        names := s.names.value;
      } else if j :| 0 <= j < i && NamesFuncs(subs[..i][j]) && names == subs[..i][j].names.value {
        assert subs[..i + 1][j] == subs[..i][j];
      }
    }
    assert subs[..|subs|] == subs;
    return true, names;
  }

  /** lookup_func_name: complete and exact because a section that loads is in strict order. */
  method LookupFuncName(names: seq<FuncName>, func: nat) returns (r: Option<Str>)
    requires Ascending(names)
    ensures r.Some? ==> exists i :: 0 <= i < |names| && names[i].index == func && r.value == names[i].name
    ensures r.None? ==> forall i :: 0 <= i < |names| ==> names[i].index != func
  {
    if |names| == 0 { return None; }
    var low: int, high: int := 0, |names| - 1;
    while low <= high
      invariant 0 <= low <= high + 1 <= |names|
      invariant forall i :: 0 <= i < low ==> names[i].index < func
      invariant forall i :: high < i < |names| ==> names[i].index > func
    {
      var mid := (low + high) / 2;
      if func == names[mid].index {
        return Some(names[mid].name);
      } else if func < names[mid].index {
        high := mid - 1;
      } else {
        low := mid + 1;
      }
    }
    return None;
  }
}
