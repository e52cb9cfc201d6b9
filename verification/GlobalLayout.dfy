/** The global variables of a module: laid out by the loader (load_import_globals and load_globals in
    aot_loader.c), filled in by global_instantiate (aot_runtime.c), read and written by the host
    (aot_global_get and aot_global_set in wasm_c_api.c). */
module GlobalLayout {
  import opened Wrappers
  import opened Bytes
  import opened WasmTypes
  import opened ExternRefs

  type Word128 = s: seq<byte> | |s| == 16 witness Zeros(16)

  /** A linked import or a constant carries its value as the 16 bytes of the value union. */
  datatype Init = Value(bytes: Word128) | GetGlobal(index: nat) | RefNull

  datatype Decl = Decl(valType: ValType, isMutable: bool, init: Init)

  datatype Global = Global(valType: ValType, isMutable: bool, init: Init, size: nat, offset: nat)

  /** The bytes that globals of these types take together. */
  function End(gs: seq<Global>): nat
  {
    if gs == [] then 0 else End(gs[..|gs| - 1]) + TypeSize(gs[|gs| - 1].valType)
  }

  /** Sizes follow from the types, offsets are the running sums of the sizes. */
  ghost predicate LaidOut(gs: seq<Global>)
  {
    forall i :: 0 <= i < |gs| ==> gs[i].size == TypeSize(gs[i].valType) && gs[i].offset == End(gs[..i])
  }

  lemma LaidOutSnoc(gs: seq<Global>, g: Global)
    requires LaidOut(gs) && g.size == TypeSize(g.valType) && g.offset == End(gs)
    ensures LaidOut(gs + [g]) && End(gs + [g]) == End(gs) + g.size
  {
    forall i | 0 <= i < |gs| ensures (gs + [g])[..i] == gs[..i] { }
    assert (gs + [g])[..|gs|] == gs;
  }

  lemma LaidOutPrefix(gs: seq<Global>, i: nat)
    requires LaidOut(gs) && i < |gs|
    ensures End(gs[..i + 1]) == gs[i].offset + gs[i].size
  {
    assert gs[..i + 1][..i] == gs[..i];
  }

  lemma EndOfNone()
    ensures End([]) == 0
  {
  }

  lemma LastEnds(gs: seq<Global>)
    requires LaidOut(gs) && gs != []
    ensures gs[|gs| - 1].offset + gs[|gs| - 1].size == End(gs)
  {
    LaidOutPrefix(gs, |gs| - 1);
    assert gs[..|gs| - 1 + 1] == gs;
  }

  lemma {:induction false} EndMonotone(gs: seq<Global>, i: nat, j: nat)
    requires i <= j <= |gs|
    ensures End(gs[..i]) <= End(gs[..j])
    decreases j - i
  {
    if i < j {
      EndMonotone(gs, i, j - 1);
      assert gs[..j][..j - 1] == gs[..j - 1];
    }
  }

  /** A later global starts behind an earlier one, and all lie within the global data. */
  lemma SlotsApart(gs: seq<Global>, i: nat, j: nat)
    requires LaidOut(gs) && i < |gs| && i < j <= |gs|
    ensures gs[i].offset + gs[i].size <= End(gs)
    ensures j < |gs| ==> gs[i].offset + gs[i].size <= gs[j].offset
  {
    LaidOutPrefix(gs, i);
    EndMonotone(gs, i + 1, j);
    EndMonotone(gs, i + 1, |gs|);
    assert gs[..|gs|] == gs;
  }

  // ---- what instantiation stores ----

  /** An initialiser may read an immutable import only. */
  predicate InitAllowed(imports: seq<Global>, init: Init)
  {
    init.GetGlobal? ==>
      init.index < |imports| && !imports[init.index].isMutable && imports[init.index].init.Value?
  }

  /** The bytes of a global after instantiation; a null reference only fills four bytes. */
  function Initial(imports: seq<Global>, g: Global, was: seq<byte>): (s: seq<byte>)
    requires InitAllowed(imports, g.init) && |was| == TypeSize(g.valType)
    ensures |s| == TypeSize(g.valType)
  {
    match g.init
    case Value(bytes) => bytes[..TypeSize(g.valType)]
    case GetGlobal(k) => imports[k].init.bytes[..TypeSize(g.valType)]
    case RefNull => LE(NULL_REF, W32) + was[W32..]
  }

  /** The global data after instantiation, slot by slot. */
  ghost predicate Instantiated(imports: seq<Global>, gs: seq<Global>, n: nat, was: seq<byte>, data: seq<byte>)
    requires LaidOut(gs) && n <= |gs|
  {
    && |was| == |data| == End(gs)
    && forall i :: 0 <= i < n ==> SlotHolds(imports, gs, i, was, data)
  }

  ghost predicate SlotHolds(imports: seq<Global>, gs: seq<Global>, i: nat, was: seq<byte>, data: seq<byte>)
    requires LaidOut(gs) && i < |gs| && |was| == |data| == End(gs)
  {
    SlotsApart(gs, i, |gs|);
    var pos, end := gs[i].offset, gs[i].offset + gs[i].size;
    InitAllowed(imports, gs[i].init) && data[pos..end] == Initial(imports, gs[i], was[pos..end])
  }

  lemma InstantiatedStep(imports: seq<Global>, gs: seq<Global>, n: nat, was: seq<byte>, s: seq<byte>, t: seq<byte>)
    requires LaidOut(gs) && n < |gs| && Instantiated(imports, gs, n, was, s) && InitAllowed(imports, gs[n].init)
    requires End(gs[..n]) == gs[n].offset && gs[n].offset + gs[n].size <= |s| && s[gs[n].offset..] == was[gs[n].offset..]
    requires var pos, end := gs[n].offset, gs[n].offset + gs[n].size;
             Wrote(s, t, pos, end, Initial(imports, gs[n], was[pos..end]))
    ensures Instantiated(imports, gs, n + 1, was, t)
    ensures var end := gs[n].offset + gs[n].size; end <= |t| && t[end..] == was[end..] && End(gs[..n + 1]) == end
  {
    hide Initial, InitAllowed;
    var pos, end := gs[n].offset, gs[n].offset + gs[n].size;
    LaidOutPrefix(gs, n);
    assert was[end..] == was[pos..][gs[n].size..];
    assert s[end..] == s[pos..][gs[n].size..];
    forall i | 0 <= i < n + 1 ensures SlotHolds(imports, gs, i, was, t) {
      if i < n {
        assert SlotHolds(imports, gs, i, was, s);
        SlotsApart(gs, i, n);
        KeptBelow(s, t, pos, end, Initial(imports, gs[n], was[pos..end]), gs[i].offset, gs[i].offset + gs[i].size);
      } else {
        assert t[pos..end] == t[..end][pos..];
      }
    }
  }

  lemma KeptBelow(s: seq<byte>, t: seq<byte>, pos: nat, end: nat, bytes: seq<byte>, i: nat, j: nat)
    requires Wrote(s, t, pos, end, bytes) && i <= j <= pos
    ensures t[i..j] == s[i..j]
  {
    assert t[i..j] == t[..end][i..j];
    assert t[i..j] == (s[..pos] + bytes)[i..j];
  }

  lemma KeptAbove(s: seq<byte>, t: seq<byte>, pos: nat, end: nat, bytes: seq<byte>, i: nat, j: nat)
    requires Wrote(s, t, pos, end, bytes) && end <= i <= j <= |s|
    ensures t[i..j] == s[i..j]
  {
    assert t[i..j] == t[end..][i - end..j - end];
  }

  // ---- what the host reads and writes ----

  /** A value of the C API; floats are their bit patterns. */
  datatype Val = Num(kind: ValType, bits: nat) | Ref(obj: nat)

  predicate Fits(v: Val, t: ValType)
  {
    match t
    case I32 | F32 => v.Num? && v.kind == t && v.bits < U32
    case I64 | F64 => v.Num? && v.kind == t && v.bits < U64
    case ExternRef => v.Ref?
    case FuncRef => true
    case V128 => false
  }

  /** rt_val_to_wasm_val: the C API has no 128-bit values and refuses function references. */
  function ReadVal(bytes: seq<byte>, t: ValType, nodes: map<nat, Node>): (r: Option<Val>)
    requires t != V128
  {
    match t
    case I32 | F32 | I64 | F64 => Some(Num(t, FromLE(bytes)))
    case ExternRef =>
      var obj := Lookup(nodes, FromLE(bytes));
      if obj.None? then None else Some(Ref(obj.value))
    case FuncRef => None
  }

  function ReadGlobal(data: seq<byte>, gs: seq<Global>, i: nat, nodes: map<nat, Node>): (r: Option<Val>)
    requires i < |gs| && gs[i].offset + gs[i].size <= |data| && gs[i].valType != V128
  {
    ReadVal(data[gs[i].offset..gs[i].offset + gs[i].size], gs[i].valType, nodes)
  }

  /** The index in a global was handed out by the map, or is null. */
  ghost predicate KnownId(data: seq<byte>, g: Global, nextId: nat)
    requires g.offset + g.size <= |data|
  {
    g.valType == ExternRef ==>
      FromLE(data[g.offset..g.offset + g.size]) < nextId || FromLE(data[g.offset..g.offset + g.size]) == NULL_REF
  }

  /** Storing to one global leaves what the host reads from any other as it was. */
  lemma OthersKept(s: seq<byte>, t: seq<byte>, gs: seq<Global>, i: nat, bytes: seq<byte>, j: nat,
                   nodes: map<nat, Node>, nextId: nat, nodes': map<nat, Node>)
    requires LaidOut(gs) && i < |gs| && j < |gs| && i != j && |s| == End(gs)
    requires Wrote(s, t, gs[i].offset, gs[i].offset + gs[i].size, bytes)
    requires gs[j].valType != V128 && gs[j].offset + gs[j].size <= |s| && KnownId(s, gs[j], nextId)
    requires forall id: nat :: id < nextId || id == NULL_REF ==> Lookup(nodes', id) == Lookup(nodes, id)
    ensures ReadGlobal(t, gs, j, nodes') == ReadGlobal(s, gs, j, nodes)
    ensures KnownId(t, gs[j], nextId)
  {
    hide Wrote, FromLE, Lookup, End, LaidOut;
    var pos, end := gs[i].offset, gs[i].offset + gs[i].size;
    if j < i {
      SlotsApart(gs, j, i);
      KeptBelow(s, t, pos, end, bytes, gs[j].offset, gs[j].offset + gs[j].size);
    } else {
      SlotsApart(gs, i, j);
      KeptAbove(s, t, pos, end, bytes, gs[j].offset, gs[j].offset + gs[j].size);
    }
  }

  /** What was stored is read back. */
  lemma StoredReadsBack(s: seq<byte>, t: seq<byte>, gs: seq<Global>, i: nat, v: Val, bits: nat, nodes: map<nat, Node>)
    requires LaidOut(gs) && i < |gs| && Fits(v, gs[i].valType) && gs[i].valType != FuncRef
    requires Wrote(s, t, gs[i].offset, gs[i].offset + gs[i].size, LE(bits, gs[i].size))
    requires v.Num? ==> bits == v.bits
    requires v.Ref? ==> bits < U32 && Lookup(nodes, bits) == Some(Returned(v.obj))
    ensures ReadGlobal(t, gs, i, nodes) == Some(if v.Num? then v else Ref(Returned(v.obj)))
  {
    hide LE, FromLE, Lookup, End;
    var pos, end := gs[i].offset, gs[i].offset + gs[i].size;
    assert t[pos..end] == t[..end][pos..] == LE(bits, gs[i].size);
    Widths();
    DecodeLE(bits, gs[i].size);
  }

  // ---- what a global holds after instantiation ----

  function Slot(data: seq<byte>, g: Global): seq<byte>
    requires g.offset + g.size <= |data|
  {
    data[g.offset..g.offset + g.size]
  }

  /** Global i starts as its declaration says: with the first bytes of its own value, with those of the import it names,
      which are the same as that import's own slot has if the types agree, or with a null reference. */
  ghost predicate StartsAs(gs: seq<Global>, i: nat, data: seq<byte>)
    requires i < |gs| && gs[i].offset + gs[i].size <= |data|
  {
    var slot := Slot(data, gs[i]);
    match gs[i].init
    case Value(bytes) => |slot| <= 16 && slot == bytes[..|slot|] && (gs[i].valType == V128 ==> slot == bytes)
    case GetGlobal(k) =>
      && k < |gs| && gs[k].init.Value? && !gs[k].isMutable && |slot| <= 16 && slot == gs[k].init.bytes[..|slot|]
      && gs[k].offset + gs[k].size <= |data| && (gs[k].valType == gs[i].valType ==> slot == Slot(data, gs[k]))
    case RefNull => |slot| >= 4 && slot[..4] == [0xFF, 0xFF, 0xFF, 0xFF]
  }

  lemma NullBytes()
    ensures LE(NULL_REF, W32) == [0xFF, 0xFF, 0xFF, 0xFF]
  {
    assert LE(0xFF, 1) == [0xFF];
    assert LE(0xFFFF, 2) == [0xFF] + LE(0xFF, 1);
    assert LE(0xFF_FFFF, 3) == [0xFF] + LE(0xFFFF, 2);
  }

  lemma SlotStarts(imports: seq<Global>, globals: seq<Global>, i: nat, was: seq<byte>, data: seq<byte>)
    requires var gs := imports + globals; LaidOut(gs) && i < |gs| && Instantiated(imports, gs, |gs|, was, data)
    requires forall k :: 0 <= k < |imports| ==> imports[k].init.Value?
    ensures var gs := imports + globals; gs[i].offset + gs[i].size <= |data| && StartsAs(gs, i, data)
  {
    hide LE, End;
    var gs := imports + globals;
    SlotsApart(gs, i, |gs|);
    NullBytes();
    assert SlotHolds(imports, gs, i, was, data);
    if gs[i].init.GetGlobal? {
      var k := gs[i].init.index;
      assert gs[k] == imports[k];
      SlotsApart(gs, k, |gs|);
      assert SlotHolds(imports, gs, k, was, data);
    }
  }

  /** So the host reads from a global the number it was declared with, from one declared by an import of its type what
      it reads from that import, and from a null reference a null pointer. */
  lemma StartReads(gs: seq<Global>, i: nat, data: seq<byte>, nodes: map<nat, Node>)
    requires LaidOut(gs) && |data| == End(gs) && i < |gs| && gs[i].valType != V128
    requires gs[i].offset + gs[i].size <= |data| && StartsAs(gs, i, data)
    ensures var g := gs[i];
            && (g.init.Value? && (g.valType == I32 || g.valType == F32) ==>
                  ReadGlobal(data, gs, i, nodes) == Some(Num(g.valType, FromLE(g.init.bytes[..4]))))
            && (g.init.Value? && (g.valType == I64 || g.valType == F64) ==>
                  ReadGlobal(data, gs, i, nodes) == Some(Num(g.valType, FromLE(g.init.bytes[..8]))))
            && (g.init.GetGlobal? && gs[g.init.index].valType == g.valType ==>
                  ReadGlobal(data, gs, i, nodes) == ReadGlobal(data, gs, g.init.index, nodes))
            && (g.init.RefNull? && g.valType == ExternRef ==> ReadGlobal(data, gs, i, nodes) == Some(Ref(0)))
  {
    hide End, FromLE;
    var g := gs[i];
    if g.init.RefNull? && g.valType == ExternRef {
      NullBytes();
      Widths();
      DecodeLE(NULL_REF, W32);
      assert Slot(data, g)[..4] == Slot(data, g);
    }
  }

  class AotModule {
    var importGlobals: seq<Global>
    var globals: seq<Global>
    var globalDataSize: nat

    ghost predicate Valid()
      reads this
    {
      LaidOut(importGlobals + globals) && globalDataSize == End(importGlobals + globals)
    }

    constructor ()
      ensures Valid() && importGlobals == globals == []
    {
      importGlobals, globals, globalDataSize := [], [], 0;
    }

    /** load_import_globals, after the entries are decoded. */
    method LoadImportGlobals(decls: seq<Decl>)
      requires Valid() && importGlobals == globals == []
      modifies this
      ensures Valid() && globals == [] && Declared(importGlobals, decls)
    {
      var dataOffset := 0;
      for i := 0 to |decls|
        invariant Valid() && globals == [] && importGlobals + globals == importGlobals
        invariant dataOffset == End(importGlobals) && Declared(importGlobals, decls[..i])
      {
        var d := decls[i];
        var size := TypeSize(d.valType);
        LaidOutSnoc(importGlobals, Global(d.valType, d.isMutable, d.init, size, dataOffset));
        importGlobals := importGlobals + [Global(d.valType, d.isMutable, d.init, size, dataOffset)];
        assert importGlobals + globals == importGlobals;
        dataOffset := dataOffset + size;
        globalDataSize := globalDataSize + size;
      }
    }

    /** load_globals: the offsets go on behind the last import. */
    method LoadGlobals(decls: seq<Decl>)
      requires Valid() && globals == []
      modifies this
      ensures Valid() && importGlobals == old(importGlobals) && Declared(globals, decls)
    {
      hide End, LaidOut;
      ghost var imports := importGlobals;
      assert imports + globals == imports;
      var dataOffset := 0;
      if |importGlobals| > 0 {
        var last := importGlobals[|importGlobals| - 1];
        LastEnds(imports);
        dataOffset := last.offset + last.size;
      } else {
        assert imports == [];
        EndOfNone();
      }
      for i := 0 to |decls|
        invariant Valid() && importGlobals == imports
        invariant dataOffset == End(imports + globals) && Declared(globals, decls[..i])
      {
        var d := decls[i];
        var size := TypeSize(d.valType);
        var g := Global(d.valType, d.isMutable, d.init, size, dataOffset);
        LaidOutSnoc(imports + globals, g);
        assert imports + (globals + [g]) == (imports + globals) + [g];
        globals := globals + [g];
        dataOffset := dataOffset + size;
        globalDataSize := globalDataSize + size;
      }
    }

    /** init_global_data, or the null reference of a ref.null initialiser. */
    method InitGlobalData(data: array<byte>, p: nat, g: Global, ghost was: seq<byte>)
      requires InitAllowed(importGlobals, g.init) && p + TypeSize(g.valType) <= data.Length == |was|
      requires data[p..] == was[p..]
      modifies data
      ensures var end := p + TypeSize(g.valType);
              Wrote(old(data[..]), data[..], p, end, Initial(importGlobals, g, was[p..end]))
    {
      var size := TypeSize(g.valType);
      match g.init {
        case Value(bytes) => Copy(data, p, bytes[..size]);
        case GetGlobal(k) => Copy(data, p, importGlobals[k].init.bytes[..size]);
        case RefNull => StoreNull(data, p, size, was);
      }
    }

    /** Four bytes of a null reference; the rest of the slot stays. */
    method StoreNull(data: array<byte>, p: nat, size: nat, ghost was: seq<byte>)
      requires W32 <= size && p + size <= data.Length == |was| && data[p..] == was[p..]
      modifies data
      ensures Wrote(old(data[..]), data[..], p, p + size, LE(NULL_REF, W32) + was[p..p + size][W32..])
    {
      hide LE;
      ghost var s := data[..];
      Store(data, p, NULL_REF, W32);
      NullRest(s, data[..], p, size, was);
      WroteSkip(data[..], p + W32, size - W32);
      WroteThen(s, data[..], data[..], p, p + W32, p + size, LE(NULL_REF, W32), was[p..p + size][W32..]);
    }

    lemma NullRest(s: seq<byte>, t: seq<byte>, p: nat, size: nat, was: seq<byte>)
      requires W32 <= size && p + size <= |s| == |t| == |was| && s[p..] == was[p..] && t[p + W32..] == s[p + W32..]
      ensures t[p + W32..p + size] == was[p..p + size][W32..]
    {
      assert s[p + W32..] == s[p..][W32..] == was[p..][W32..];
      assert t[p + W32..p + size] == t[p + W32..][..size - W32];
    }

    /** global_instantiate: the offsets that the loader assigned are the positions of the cursor. */
    method GlobalInstantiate(data: array<byte>) returns (ok: bool)
      requires Valid() && data.Length == globalDataSize
      requires forall i :: 0 <= i < |importGlobals| ==> importGlobals[i].init.Value?
      modifies data
      ensures ok <==> forall i :: 0 <= i < |globals| ==> InitAllowed(importGlobals, globals[i].init)
      ensures ok ==> var gs := importGlobals + globals;
                Instantiated(importGlobals, gs, |gs|, old(data[..]), data[..])
      ensures ok ==> var gs := importGlobals + globals;
                forall i :: 0 <= i < |gs| ==> gs[i].offset + gs[i].size <= data.Length && StartsAs(gs, i, data[..])
    {
      hide End, Initial, Wrote, StartsAs;
      ghost var gs, was := importGlobals + globals, data[..];
      var p := 0;
      assert End(gs[..0]) == 0 by { EndOfNone(); }
      for i := 0 to |importGlobals|
        invariant p == End(gs[..i]) && p <= data.Length && data[p..] == was[p..]
        invariant Instantiated(importGlobals, gs, i, was, data[..])
      {
        assert gs[i] == importGlobals[i];
        assert importGlobals[i].offset == p;
        p := InitSlot(data, p, importGlobals[i], gs, i, was);
      }
      for i := 0 to |globals|
        invariant p == End(gs[..|importGlobals| + i]) && p <= data.Length && data[p..] == was[p..]
        invariant Instantiated(importGlobals, gs, |importGlobals| + i, was, data[..])
        invariant forall k :: 0 <= k < i ==> InitAllowed(importGlobals, globals[k].init)
      {
        assert gs[|importGlobals| + i] == globals[i];
        assert globals[i].offset == p;
        if globals[i].init.GetGlobal? && !CheckGlobalInitExpr(globals[i].init.index) { return false; }
        p := InitSlot(data, p, globals[i], gs, |importGlobals| + i, was);
      }
      assert gs[..|gs|] == gs;
      assert globalDataSize == p;
      forall i | 0 <= i < |gs| ensures gs[i].offset + gs[i].size <= data.Length && StartsAs(gs, i, data[..]) {
        SlotStarts(importGlobals, globals, i, was, data[..]);
      }
      return true;
    }

    predicate CheckGlobalInitExpr(index: nat)
      reads this
    {
      index < |importGlobals| && !importGlobals[index].isMutable
    }

    /** One round of the two loops. */
    method InitSlot(data: array<byte>, p: nat, g: Global, ghost gs: seq<Global>, ghost n: nat, ghost was: seq<byte>)
      returns (next: nat)
      requires LaidOut(gs) && n < |gs| && g == gs[n] && p == g.offset == End(gs[..n]) && InitAllowed(importGlobals, g.init)
      requires data.Length == |was| == End(gs) && p <= data.Length && data[p..] == was[p..]
      requires Instantiated(importGlobals, gs, n, was, data[..])
      modifies data
      ensures next == End(gs[..n + 1]) && next <= data.Length && data[next..] == was[next..]
      ensures Instantiated(importGlobals, gs, n + 1, was, data[..])
    {
      hide End, Initial, Wrote, Instantiated, InitAllowed;
      SlotsApart(gs, n, |gs|);
      ghost var s := data[..];
      InitGlobalData(data, p, g, was);
      InstantiatedStep(importGlobals, gs, n, was, s, data[..]);
      next := p + g.size;
    }

    // ---- the C API ----

    /** The layout entry of a global, by its index over imports and definitions. */
    function Entry(i: nat): (g: Global)
      requires i < |importGlobals| + |globals|
      reads this
      ensures g == (importGlobals + globals)[i]
    {
      if i < |importGlobals| then importGlobals[i] else globals[i - |importGlobals|]
    }

    /** aot_global_get. */
    method GlobalGet(data: array<byte>, refs: ExternRefMap, i: nat) returns (r: Option<Val>)
      requires Valid() && data.Length == globalDataSize && i < |importGlobals| + |globals| && Entry(i).valType != V128
      ensures Entry(i).offset + Entry(i).size <= data.Length && r == ReadGlobal(data[..], importGlobals + globals, i, refs.nodes)
    {
      var g := Entry(i);
      SlotsApart(importGlobals + globals, i, |importGlobals| + |globals|);
      r := ReadVal(data[g.offset..g.offset + g.size], g.valType, refs.nodes);
      assert data[g.offset..g.offset + g.size] == data[..][g.offset..g.offset + g.size];
    }

    /** aot_global_set: the value is read back, except that the host's "null" pointer value comes back as a
        null pointer, and every other global reads as before. */
    method GlobalSet(inst: nat, data: array<byte>, refs: ExternRefMap, i: nat, v: Val, allocates: bool) returns (ok: bool)
      requires Valid() && refs.Valid() && data.Length == globalDataSize && i < |importGlobals| + |globals|
      requires Fits(v, Entry(i).valType)
      modifies data, refs
      ensures refs.Valid()
      ensures !ok ==> data[..] == old(data[..])
      ensures Entry(i).offset + Entry(i).size <= data.Length
      ensures ok ==> ReadGlobal(data[..], importGlobals + globals, i, refs.nodes) == Some(if v.Num? then v else Ref(Returned(v.obj)))
      ensures ok ==> OthersAsBefore(old(data[..]), old(refs.nodes), old(refs.nextId), data[..], refs.nodes, i)
      ensures Entry(i).valType.FuncRef? ==> !ok
      ensures v.Num? ==> ok || Entry(i).valType.FuncRef?
    {
      hide End, LE, FromLE, Lookup, LaidOut, Wrote, Entered, ReadGlobal;
      ghost var gs, s, nodes, nextId := importGlobals + globals, data[..], refs.nodes, refs.nextId;
      var g := Entry(i);
      SlotsApart(gs, i, |gs|);
      var bits;
      match g.valType {
        case I32 | F32 | I64 | F64 => bits := v.bits;
        case ExternRef =>
          var id := refs.ObjToRef(inst, v.obj, allocates);
          if id.None? { return false; }
          bits := id.value;
          if v.obj != NULL_OBJECT { EnteredLookup(nodes, nextId, refs.nodes, refs.nextId, bits, Node(inst, v.obj)); }
        case FuncRef => return false;
      }
      SizeOf(gs, i);
      Store(data, g.offset, bits, g.size);
      StoredReadsBack(s, data[..], gs, i, v, bits, refs.nodes);
      OthersRead(s, data[..], gs, i, LE(bits, g.size), nodes, nextId, refs.nodes);
      return true;
    }

    lemma SizeOf(gs: seq<Global>, i: nat)
      requires LaidOut(gs) && i < |gs|
      ensures gs[i].size == TypeSize(gs[i].valType)
    {
    }

    ghost predicate OthersAsBefore(s: seq<byte>, nodes: map<nat, Node>, nextId: nat, t: seq<byte>, nodes': map<nat, Node>, i: nat)
      reads this
    {
      OthersSame(importGlobals + globals, s, nodes, nextId, t, nodes', i)
    }
  }

  /** Declarations and their entries in the layout. */
  ghost predicate Declared(gs: seq<Global>, decls: seq<Decl>)
  {
    && |gs| == |decls|
    && forall i :: 0 <= i < |gs| ==> gs[i].valType == decls[i].valType && gs[i].isMutable == decls[i].isMutable && gs[i].init == decls[i].init
  }

  /** Every global but i reads the same from t as from s, provided its reference was handed out by the map. */
  ghost predicate OthersSame(gs: seq<Global>, s: seq<byte>, nodes: map<nat, Node>, nextId: nat,
                             t: seq<byte>, nodes': map<nat, Node>, i: nat)
  {
    && |s| == |t|
    && forall j :: 0 <= j < |gs| && j != i && gs[j].offset + gs[j].size <= |s| && gs[j].valType != V128 && KnownId(s, gs[j], nextId) ==>
         ReadGlobal(t, gs, j, nodes') == ReadGlobal(s, gs, j, nodes)
  }

  lemma OthersRead(s: seq<byte>, t: seq<byte>, gs: seq<Global>, i: nat, bytes: seq<byte>,
                   nodes: map<nat, Node>, nextId: nat, nodes': map<nat, Node>)
    requires LaidOut(gs) && i < |gs| && |s| == End(gs)
    requires Wrote(s, t, gs[i].offset, gs[i].offset + gs[i].size, bytes)
    requires forall id: nat :: id < nextId || id == NULL_REF ==> Lookup(nodes', id) == Lookup(nodes, id)
    ensures OthersSame(gs, s, nodes, nextId, t, nodes', i)
  {
    forall j | 0 <= j < |gs| && j != i && gs[j].offset + gs[j].size <= |s| && gs[j].valType != V128 && KnownId(s, gs[j], nextId)
      ensures ReadGlobal(t, gs, j, nodes') == ReadGlobal(s, gs, j, nodes)
    {
      OthersKept(s, t, gs, i, bytes, j, nodes, nextId, nodes');
    }
  }
}
