/** Calls of functions with several results (aot_call_function and aot_call_indirect in aot_runtime.c).

    The first result comes back in argv itself. For every further result the caller appends a pointer to the
    arguments; the pointers lead to slots that follow them in the same scratch area, and after the call the
    slots are copied behind the first result. */
module MultiValue {
  import opened Bytes
  import opened WasmTypes

  function CellNum(types: seq<ValType>): nat
  {
    if types == [] then 0 else CellNum(types[..|types| - 1]) + Cells(types[|types| - 1])
  }

  lemma CellNumSnoc(types: seq<ValType>, i: nat)
    requires i < |types|
    ensures CellNum(types[..i + 1]) == CellNum(types[..i]) + Cells(types[i])
  {
    assert types[..i + 1][..i] == types[..i];
  }

  lemma {:induction false} CellNumMonotone(types: seq<ValType>, i: nat, j: nat)
    requires i <= j <= |types|
    ensures CellNum(types[..i]) <= CellNum(types[..j])
    decreases j - i
  {
    if i < j {
      CellNumMonotone(types, i, j - 1);
      CellNumSnoc(types, j - 1);
    }
  }

  /** The slots, one behind the other from the running cell count, tile the area sized for them: every
      cell of the area lies in exactly one slot, and every slot lies in the area. */
  lemma {:induction false} SlotsTile(types: seq<ValType>, cell: nat)
    requires cell < CellNum(types)
    ensures exists i :: 0 <= i < |types| && InSlot(types, i, cell)
    ensures forall i, j :: 0 <= i < |types| && 0 <= j < |types| && InSlot(types, i, cell) && InSlot(types, j, cell) ==> i == j
  {
    SlotsCover(types, cell);
    forall i, j | 0 <= i < |types| && 0 <= j < |types| && InSlot(types, i, cell) && InSlot(types, j, cell)
      ensures i == j
    {
      CellNumSnoc(types, i);
      CellNumSnoc(types, j);
      if i < j { CellNumMonotone(types, i + 1, j); }
      if j < i { CellNumMonotone(types, j + 1, i); }
    }
  }

  predicate InSlot(types: seq<ValType>, i: nat, cell: nat)
    requires i < |types|
  {
    CellNum(types[..i]) <= cell < CellNum(types[..i]) + Cells(types[i])
  }

  lemma {:induction false} SlotsCover(types: seq<ValType>, cell: nat)
    requires cell < CellNum(types)
    ensures exists i :: 0 <= i < |types| && InSlot(types, i, cell)
  {
    var n := |types| - 1;
    if cell >= CellNum(types[..n]) {
      assert InSlot(types, n, cell);
    } else {
      SlotsCover(types[..n], cell);
      var i :| 0 <= i < n && InSlot(types[..n], i, cell);
      assert types[..n][..i] == types[..i];
      assert InSlot(types, i, cell);
    }
  }

  /** A value's cells, one list per result, all in declaration order. */
  function Flatten(values: seq<seq<nat>>): seq<nat>
  {
    if values == [] then [] else Flatten(values[..|values| - 1]) + values[|values| - 1]
  }

  ghost predicate Typed(values: seq<seq<nat>>, types: seq<ValType>)
  {
    |values| == |types| && forall i :: 0 <= i < |types| ==> |values[i]| == Cells(types[i])
  }

  lemma {:induction false} FlattenLength(values: seq<seq<nat>>, types: seq<ValType>)
    requires Typed(values, types)
    ensures |Flatten(values)| == CellNum(types)
  {
    if values != [] { FlattenLength(values[..|values| - 1], types[..|types| - 1]); }
  }

  lemma FlattenSnoc(values: seq<seq<nat>>, i: nat)
    requires i < |values|
    ensures Flatten(values[..i + 1]) == Flatten(values[..i]) + values[i]
  {
    assert values[..i + 1][..i] == values[..i];
  }

  lemma {:induction false} FlattenHead(values: seq<seq<nat>>)
    requires values != []
    ensures Flatten(values) == values[0] + Flatten(values[1..])
  {
    var n := |values| - 1;
    if n > 0 {
      FlattenHead(values[..n]);
      assert values[..n][1..] == values[1..][..n - 1];
    }
  }

  // ---- pointers in the scratch area ----

  /** A pointer as the one or two cells that store it. */
  function PointerCells(address: nat, w: nat): (s: seq<nat>)
    requires w == 1 || w == 2
    ensures |s| == w
  {
    if w == 1 then [address % U32] else [address % U32, address / U32 % U32]
  }

  function PointerAt(area: seq<nat>, at: nat, w: nat): nat
    requires (w == 1 || w == 2) && at + w <= |area|
  {
    if w == 1 then area[at] else area[at] + area[at + 1] * U32
  }

  lemma PointerBack(area: seq<nat>, at: nat, w: nat, address: nat)
    requires (w == 1 || w == 2) && at + w <= |area| && area[at..at + w] == PointerCells(address, w)
    requires address < (if w == 1 then U32 else U32 * U32)
    ensures PointerAt(area, at, w) == address
  {
    assert area[at] == area[at..at + w][0];
    if w == 2 { assert area[at + 1] == area[at..at + w][1]; }
  }

  /** Puts cells into an array at a position. */
  method Put(a: array<nat>, at: nat, cells: seq<nat>)
    requires at + |cells| <= a.Length
    modifies a
    ensures a[at..at + |cells|] == cells
    ensures a[..at] == old(a[..at]) && a[at + |cells|..] == old(a[at + |cells|..])
  {
    forall i | 0 <= i < |cells| { a[at + i] := cells[i]; }
  }

  /** The cells that k pointers take. */
  function Span(w: nat, k: nat): nat
  {
    if w == 1 then k else 2 * k
  }

  /** Where slot i starts in the scratch area. */
  function SlotAt(argc: nat, w: nat, ext: seq<ValType>, i: nat): nat
    requires i <= |ext|
  {
    argc + Span(w, |ext|) + CellNum(ext[..i])
  }

  ghost predicate IsPointer(area: seq<nat>, at: nat, w: nat, address: nat)
    requires w == 1 || w == 2
  {
    at + w <= |area| && area[at..at + w] == PointerCells(address, w)
  }

  /** The first n pointers are in place, each leading to its slot. */
  ghost predicate PointersUpTo(area: seq<nat>, argc: nat, w: nat, ext: seq<ValType>, base: nat, n: nat)
    requires (w == 1 || w == 2) && n <= |ext|
  {
    forall k: nat {:trigger Span(w, k)} :: k < n ==> IsPointer(area, argc + Span(w, k), w, base + 4 * SlotAt(argc, w, ext, k))
  }

  /** The scratch area is laid out: the arguments, then one pointer for each slot, then the slots. */
  ghost predicate LaidOut(area: seq<nat>, args: seq<nat>, w: nat, ext: seq<ValType>, base: nat)
  {
    && (w == 1 || w == 2)
    && |area| >= SlotAt(|args|, w, ext, |ext|)
    && area[..|args|] == args
    && PointersUpTo(area, |args|, w, ext, base, |ext|)
  }

  predicate FitsPointer(address: nat, w: nat)
  {
    address < (if w == 1 then U32 else U32 * U32)
  }

  lemma PointerKept(s: seq<nat>, t: seq<nat>, keep: nat, at: nat, w: nat, address: nat)
    requires (w == 1 || w == 2) && IsPointer(s, at, w, address) && at + w <= keep <= |s| && keep <= |t| && s[..keep] == t[..keep]
    ensures IsPointer(t, at, w, address)
  {
    assert s[at..at + w] == s[..keep][at..at + w];
    assert t[at..at + w] == t[..keep][at..at + w];
  }

  lemma PointersKept(s: seq<nat>, t: seq<nat>, argc: nat, w: nat, ext: seq<ValType>, base: nat, i: nat)
    requires (w == 1 || w == 2) && i < |ext| && PointersUpTo(s, argc, w, ext, base, i)
    requires var at := argc + Span(w, i);
             at <= |s| && at <= |t| && s[..at] == t[..at] && IsPointer(t, at, w, base + 4 * SlotAt(argc, w, ext, i))
    ensures PointersUpTo(t, argc, w, ext, base, i + 1)
  {
    hide SlotAt, IsPointer;
    forall k: nat | k < i + 1 ensures IsPointer(t, argc + Span(w, k), w, base + 4 * SlotAt(argc, w, ext, k)) {
      if k < i { PointerKept(s, t, argc + Span(w, i), argc + Span(w, k), w, base + 4 * SlotAt(argc, w, ext, k)); }
    }
  }

  /** Allocates and fills the scratch area: a fixed buffer of 32 cells where that is enough. */
  method BuildArgs(argv: array<nat>, argc: nat, w: nat, ext: seq<ValType>, base: nat)
    returns (argv1: array<nat>, cellNum: nat)
    requires (w == 1 || w == 2) && argc <= argv.Length
    ensures fresh(argv1) && cellNum == CellNum(ext)
    ensures LaidOut(argv1[..], argv[..argc], w, ext, base)
  {
    hide IsPointer, PointersUpTo, PointerCells, Cells, CellNum;
    var extCells := ExtCells(ext);
    var size := argc + Span(w, |ext|) + extCells;
    argv1 := new nat[if size > 32 then size else 32](_ => 0);
    assert ext[..|ext|] == ext && CellNum(ext[..0]) == 0 by { NoCells(); }
    Put(argv1, 0, argv[..argc]);
    cellNum := 0;
    NoPointers(argv1[..], argc, w, ext, base);
    for i := 0 to |ext|
      invariant cellNum == CellNum(ext[..i])
      invariant argv1[..argc] == argv[..argc]
      invariant PointersUpTo(argv1[..], argc, w, ext, base, i)
    {
      PutPointer(argv1, argc, w, ext, base, i, argc + Span(w, |ext|) + cellNum);
      CellNumSnoc(ext, i);
      cellNum := cellNum + Cells(ext[i]);
    }
  }

  lemma NoCells()
    ensures CellNum([]) == 0
  {
  }

  /** Stores the pointer to the next slot behind the pointers that are there already. */
  method PutPointer(argv1: array<nat>, argc: nat, w: nat, ghost ext: seq<ValType>, base: nat, i: nat, slot: nat)
    requires (w == 1 || w == 2) && i < |ext| && slot == SlotAt(argc, w, ext, i)
    requires argc + Span(w, |ext|) <= argv1.Length && PointersUpTo(argv1[..], argc, w, ext, base, i)
    modifies argv1
    ensures PointersUpTo(argv1[..], argc, w, ext, base, i + 1)
    ensures argv1[..argc] == old(argv1[..argc])
  {
    hide IsPointer, PointersUpTo, PointerCells, SlotAt;
    ghost var before := argv1[..];
    var at := argc + Span(w, i);
    Put(argv1, at, PointerCells(base + 4 * slot, w));
    PointerStored(argv1[..], at, w, base + 4 * slot);
    PointersKept(before, argv1[..], argc, w, ext, base, i);
    assert argv1[..argc] == argv1[..at][..argc] == before[..at][..argc];
  }

  lemma NoPointers(area: seq<nat>, argc: nat, w: nat, ext: seq<ValType>, base: nat)
    requires w == 1 || w == 2
    ensures PointersUpTo(area, argc, w, ext, base, 0)
  {
  }

  lemma PointerStored(area: seq<nat>, at: nat, w: nat, address: nat)
    requires (w == 1 || w == 2) && at + w <= |area| && area[at..at + w] == PointerCells(address, w)
    ensures IsPointer(area, at, w, address)
  {
  }

  method ExtCells(ext: seq<ValType>) returns (n: nat)
    ensures n == CellNum(ext)
  {
    n := 0;
    for i := 0 to |ext|
      invariant n == CellNum(ext[..i])
    {
      CellNumSnoc(ext, i);
      n := n + Cells(ext[i]);
    }
    assert ext[..|ext|] == ext;
  }

  // ---- the callee ----

  /** The slots of the first n extra results are filled in. */
  ghost predicate SlotsHold(area: seq<nat>, e: nat, values: seq<seq<nat>>, n: nat)
    requires n <= |values|
  {
    var cells := Flatten(values[..n]);
    e + |cells| <= |area| && area[e..e + |cells|] == cells
  }

  lemma SlotAdded(s: seq<nat>, t: seq<nat>, e: nat, values: seq<seq<nat>>, n: nat)
    requires n < |values| && SlotsHold(s, e, values, n)
    requires var at := e + |Flatten(values[..n])|;
             && at + |values[n]| <= |t| && at <= |s| && s[..at] == t[..at]
             && t[at..at + |values[n]|] == values[n]
    ensures SlotsHold(t, e, values, n + 1) && s[..e] == t[..e]
  {
    FlattenSnoc(values, n);
    var at, m := e + |Flatten(values[..n])|, |values[n]|;
    assert t[e..at + m] == t[e..at] + t[at..at + m];
    assert t[e..at] == t[..at][e..] == s[..at][e..] == s[e..at];
    assert t[..e] == t[..at][..e] == s[..at][..e];
  }

  /** One result through its pointer. */
  method StoreResult(argv1: array<nat>, argc: nat, w: nat, ghost ext: seq<ValType>, base: nat, k: nat, cells: seq<nat>)
    requires (w == 1 || w == 2) && k < |ext| && |cells| == Cells(ext[k])
    requires argv1.Length >= SlotAt(argc, w, ext, |ext|) && FitsPointer(base + 4 * SlotAt(argc, w, ext, |ext|), w)
    requires IsPointer(argv1[..], argc + Span(w, k), w, base + 4 * SlotAt(argc, w, ext, k))
    modifies argv1
    ensures var at := SlotAt(argc, w, ext, k);
            && at + |cells| <= argv1.Length && argv1[at..at + |cells|] == cells
            && argv1[..at] == old(argv1[..at])
  {
    hide CellNum, Cells, PointerCells, PointerAt;
    CellNumSnoc(ext, k);
    CellNumMonotone(ext, k + 1, |ext|);
    assert ext[..|ext|] == ext;
    PointerBack(argv1[..], argc + Span(w, k), w, base + 4 * SlotAt(argc, w, ext, k));
    var pointer := PointerAt(argv1[..], argc + Span(w, k), w);
    Put(argv1, (pointer - base) / 4, cells);
  }

  /** A well-behaved callee's extra results, each stored through its pointer. */
  method StoreExtraResults(argv1: array<nat>, argc: nat, w: nat, ghost ext: seq<ValType>, base: nat, values: seq<seq<nat>>)
    requires argc <= argv1.Length && LaidOut(argv1[..], argv1[..argc], w, ext, base) && Typed(values, ext)
    requires FitsPointer(base + 4 * SlotAt(argc, w, ext, |ext|), w)
    modifies argv1
    ensures SlotsHold(argv1[..], argc + Span(w, |ext|), values, |values|)
  {
    hide IsPointer, PointersUpTo, FitsPointer, SlotsHold, CellNum, Cells, Flatten;
    ghost var e := argc + Span(w, |ext|);
    ghost var area := argv1[..];
    NoSlots(area, e, values);
    for k := 0 to |values|
      invariant argv1[..e] == area[..e] && SlotsHold(argv1[..], e, values, k)
    {
      ghost var before := argv1[..];
      OnePointer(area, before, argc, w, ext, base, k);
      StoreResult(argv1, argc, w, ext, base, k, values[k]);
      FlattenLength(values[..k], ext[..k]);
      SlotAdded(before, argv1[..], e, values, k);
    }
  }

  lemma NoSlots(area: seq<nat>, e: nat, values: seq<seq<nat>>)
    requires e <= |area|
    ensures SlotsHold(area, e, values, 0)
  {
  }

  lemma OnePointer(s: seq<nat>, t: seq<nat>, argc: nat, w: nat, ext: seq<ValType>, base: nat, k: nat)
    requires (w == 1 || w == 2) && k < |ext| && PointersUpTo(s, argc, w, ext, base, |ext|)
    requires var e := argc + Span(w, |ext|); e <= |s| && e <= |t| && s[..e] == t[..e]
    ensures IsPointer(t, argc + Span(w, k), w, base + 4 * SlotAt(argc, w, ext, k))
  {
    assert IsPointer(s, argc + Span(w, k), w, base + 4 * SlotAt(argc, w, ext, k));
    PointerKept(s, t, argc + Span(w, |ext|), argc + Span(w, k), w, base + 4 * SlotAt(argc, w, ext, k));
  }

  // ---- the two call paths ----

  /** One call of a function with more than one result, from building the scratch area to copying the
      slots back: on success argv holds all results one behind the other. `area` is the scratch area as the callee
      gets it, if it gets that far. */
  method CallWithExtraResults(argv: array<nat>, argc: nat, w: nat, types: seq<ValType>, base: nat,
                              allocates: bool, succeeds: bool, results: seq<seq<nat>>)
    returns (ret: bool, ghost area: seq<nat>)
    requires |types| > 1 && Typed(results, types) && (w == 1 || w == 2)
    requires argc <= argv.Length && CellNum(types) <= argv.Length
    requires FitsPointer(base + 4 * SlotAt(argc, w, types[1..], |types| - 1), w)
    modifies argv
    ensures ret == (succeeds && (allocates || SlotAt(argc, w, types[1..], |types| - 1) <= 32))
    ensures allocates || SlotAt(argc, w, types[1..], |types| - 1) <= 32 ==>
              LaidOut(area, old(argv[..argc]), w, types[1..], base) && old(argv[..argc]) <= area
    ensures ret ==> argv[..CellNum(types)] == Flatten(results) && argv[CellNum(types)..] == old(argv[CellNum(types)..])
  {
    hide IsPointer, PointersUpTo, FitsPointer, Cells, CellNum, Flatten;
    var ext := types[1..];
    assert ext[..|ext|] == ext;
    var extCells := ExtCells(ext);
    if argc + Span(w, |ext|) + extCells > 32 && !allocates { return false, []; }
    var argv1, cellNum := BuildArgs(argv, argc, w, ext, base);
    area := argv1[..];
    if !succeeds { return false, area; }
    assert argv1[..argc] == argv[..argc];
    StoreExtraResults(argv1, argc, w, ext, base, results[1..]);
    FlattenLength(results[1..], ext);
    assert results[1..][..|ext|] == results[1..];
    FirstAndRest(types);
    FlattenHead(results);
    var e := argc + Span(w, |ext|);
    CollectResults(argv, argv1, e, cellNum, results[0], Flatten(results[1..]));
    return true, area;
  }

  /** The callee has put the first result into argv; the slots follow. */
  method CollectResults(argv: array<nat>, argv1: array<nat>, e: nat, cellNum: nat, first: seq<nat>, ghost rest: seq<nat>)
    requires argv != argv1 && |rest| == cellNum && |first| + cellNum <= argv.Length
    requires e + cellNum <= argv1.Length && argv1[e..e + cellNum] == rest
    modifies argv
    ensures var n := |first| + cellNum;
            argv[..n] == first + rest && argv[n..] == old(argv[n..])
  {
    ghost var was := argv[..];
    Put(argv, 0, first);
    ghost var mid := argv[..];
    Put(argv, |first|, argv1[e..e + cellNum]);
    Joined(was, mid, argv[..], |first|, first, rest);
  }

  lemma Joined(r: seq<nat>, s: seq<nat>, t: seq<nat>, n: nat, a: seq<nat>, b: seq<nat>)
    requires |a| == n && n + |b| <= |r| == |s| == |t| && s[0..n] == a && s[n..] == r[n..] && t[..n] == s[..n]
    requires t[n..n + |b|] == b && t[n + |b|..] == s[n + |b|..]
    ensures t[..n + |b|] == a + b && t[n + |b|..] == r[n + |b|..]
  {
    assert t[..n + |b|] == t[..n] + t[n..n + |b|];
    assert s[n + |b|..] == s[n..][|b|..];
  }

  lemma {:induction false} FirstAndRest(types: seq<ValType>)
    requires types != []
    ensures CellNum(types) == Cells(types[0]) + CellNum(types[1..])
  {
    var n := |types| - 1;
    if n > 0 {
      FirstAndRest(types[..n]);
      assert types[..n][1..] == types[1..][..n - 1];
    }
  }

  /** aot_call_function: the caller's count only has to be large enough; the function type's own count of
      parameter cells is what gets laid out. aot_call_indirect lays out the count it is given. */
  method CallDirect(argv: array<nat>, argc: nat, paramCells: nat, w: nat, types: seq<ValType>, base: nat,
                    allocates: bool, succeeds: bool, results: seq<seq<nat>>)
    returns (ret: bool, ghost area: seq<nat>)
    requires |types| > 1 && Typed(results, types) && (w == 1 || w == 2)
    requires argc <= argv.Length && CellNum(types) <= argv.Length
    requires FitsPointer(base + 4 * SlotAt(paramCells, w, types[1..], |types| - 1), w)
    modifies argv
    ensures argc < paramCells ==> !ret && argv[..] == old(argv[..])
    ensures argc >= paramCells ==>
              ret == (succeeds && (allocates || SlotAt(paramCells, w, types[1..], |types| - 1) <= 32))
    ensures argc >= paramCells && (allocates || SlotAt(paramCells, w, types[1..], |types| - 1) <= 32) ==>
              LaidOut(area, old(argv[..paramCells]), w, types[1..], base) && old(argv[..paramCells]) <= area
    ensures ret ==> argv[..CellNum(types)] == Flatten(results) && argv[CellNum(types)..] == old(argv[CellNum(types)..])
  {
    if argc < paramCells { return false, []; }
    ret, area := CallWithExtraResults(argv, paramCells, w, types, base, allocates, succeeds, results);
  }
}
