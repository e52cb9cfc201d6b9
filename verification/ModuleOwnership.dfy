/** Who keeps a module alive (wasm_module_new_ex, wasm_module_obtain, wasm_module_share,
    wasm_module_delete_internal and the deletion of a store in wasm_c_api.c).

    A module is used by the stores that list it and by the shared handles that were given out. Modules are
    named by their position in the engine's list, stores by the order of their creation. */
module ModuleOwnership {
  import opened Wrappers

  /** `unloads` counts how often the runtime module was unloaded. */
  datatype Module = Module(refCount: nat, loaded: bool, hash: nat, unloads: nat)

  datatype Store = Store(entries: seq<nat>, live: bool)

  /** `runtimes` is the number of runtime modules loaded at the moment. */
  datatype State = State(modules: seq<Module>, stores: seq<Store>, handles: multiset<nat>, runtimes: nat)

  const EmptyState := State([], [], multiset{}, 0)

  // ---- what the operations do ----

  function Grab(m: Module): Module
  {
    m.(refCount := m.refCount + 1)
  }

  /** One use less; the last one unloads the module and forgets its hash. */
  function Drop(m: Module): Module
    requires m.refCount > 0
  {
    if m.refCount > 1 then m.(refCount := m.refCount - 1) else Module(0, false, 0, m.unloads + 1)
  }

  /** The runtime modules that dropping one use unloads. */
  function Freed(m: Module): nat
  {
    if m.refCount == 1 then 1 else 0
  }

  function Append(stores: seq<Store>, s: nat, id: nat): seq<Store>
    requires s < |stores|
  {
    stores[s := stores[s].(entries := stores[s].entries + [id])]
  }

  predicate IsLoadedAs(m: Module, hash: nat)
  {
    m.refCount > 0 && m.hash == hash
  }

  /** The first module in use that was made from the same binary. */
  function Cached(modules: seq<Module>, hash: nat, i: nat): (r: Option<nat>)
    requires i <= |modules|
    ensures r.Some? ==> i <= r.value < |modules| && IsLoadedAs(modules[r.value], hash)
                        && forall k :: i <= k < r.value ==> !IsLoadedAs(modules[k], hash)
    ensures r.None? ==> forall k :: i <= k < |modules| ==> !IsLoadedAs(modules[k], hash)
    decreases |modules| - i
  {
    if i == |modules| then None
    else if IsLoadedAs(modules[i], hash) then Some(i)
    else Cached(modules, hash, i + 1)
  }

  function Enter(st: State, s: nat, id: nat): State
    requires s < |st.stores| && id < |st.modules|
  {
    st.(modules := st.modules[id := Grab(st.modules[id])], stores := Append(st.stores, s, id))
  }

  function Release(st: State, id: nat): State
    requires id < |st.modules| && st.modules[id].refCount > 0 && (Freed(st.modules[id]) <= st.runtimes)
  {
    st.(modules := st.modules[id := Drop(st.modules[id])], runtimes := st.runtimes - Freed(st.modules[id]))
  }

  /** A call of the API with the outcomes of the allocations and of loading that it meets. */
  datatype Event =
    | NewStore
    | NewModule(store: nat, hash: nat, reuses: bool, creates: bool)
    | Obtain(store: nat, id: nat, appends: bool)
    | Share(id: nat)
    | SharedDelete(id: nat)
    | StoreDelete(store: nat)

  /** What the API asks of its callers: live stores, modules it has given out, handles that are held. */
  predicate Legal(st: State, e: Event)
  {
    match e
    case NewStore => true
    case NewModule(s, _, _, _) => s < |st.stores| && st.stores[s].live
    case Obtain(s, id, _) => s < |st.stores| && st.stores[s].live && id < |st.modules|
    case Share(id) => id < |st.modules|
    case SharedDelete(id) => id in st.handles
    case StoreDelete(s) => s < |st.stores| && st.stores[s].live
  }

  // ---- the books balance ----

  /** All entries of all stores. */
  function Uses(stores: seq<Store>): multiset<nat>
  {
    if stores == [] then multiset{} else Uses(stores[..|stores| - 1]) + multiset(stores[|stores| - 1].entries)
  }

  function LoadedCount(modules: seq<Module>): nat
  {
    if modules == [] then 0
    else LoadedCount(modules[..|modules| - 1]) + if modules[|modules| - 1].loaded then 1 else 0
  }

  /** A module with n uses: loaded while it has any, and unloaded once when it has none. */
  predicate Accounted(m: Module, n: nat)
  {
    m.refCount == n && m.loaded == (n > 0) && m.unloads == if n > 0 then 0 else 1
  }

  ghost predicate Kept(modules: seq<Module>, runtimes: nat, uses: multiset<nat>)
  {
    && (forall id :: 0 <= id < |modules| ==> Accounted(modules[id], uses[id]))
    && (forall id :: id in uses ==> id < |modules|)
    && runtimes == LoadedCount(modules)
  }

  /** Reference counts are the store entries plus the handles. */
  ghost predicate Balanced(st: State)
  {
    && Kept(st.modules, st.runtimes, Uses(st.stores) + st.handles)
    && forall s :: 0 <= s < |st.stores| && !st.stores[s].live ==> st.stores[s].entries == []
  }

  lemma {:induction false} LoadedCountUpdate(modules: seq<Module>, id: nat, m: Module)
    requires id < |modules|
    ensures LoadedCount(modules[id := m]) + (if modules[id].loaded then 1 else 0) == LoadedCount(modules) + if m.loaded then 1 else 0
    decreases |modules|
  {
    var n := |modules| - 1;
    if id < n {
      LoadedCountUpdate(modules[..n], id, m);
      assert modules[id := m][..n] == modules[..n][id := m];
    } else {
      assert modules[id := m][..n] == modules[..n];
    }
  }

  lemma {:induction false} UsesUpdate(stores: seq<Store>, s: nat, x: Store)
    requires s < |stores|
    ensures Uses(stores[s := x]) + multiset(stores[s].entries) == Uses(stores) + multiset(x.entries)
    decreases |stores|
  {
    var n := |stores| - 1;
    var old_, new_, last := multiset(stores[s].entries), multiset(x.entries), multiset(stores[n].entries);
    if s < n {
      UsesUpdate(stores[..n], s, x);
      assert stores[s := x][..n] == stores[..n][s := x];
      AddBoth(Uses(stores[..n][s := x]), Uses(stores[..n]), old_, new_, last);
    } else {
      assert stores[s := x][..n] == stores[..n];
      Commute(Uses(stores[..n]), old_, new_);
    }
  }

  lemma AddBoth(u': multiset<nat>, u: multiset<nat>, a: multiset<nat>, b: multiset<nat>, c: multiset<nat>)
    requires u' + a == u + b
    ensures u' + c + a == u + c + b
  {
    assert u' + c + a == (u' + a) + c;
    assert u + c + b == (u + b) + c;
  }

  lemma Commute(u: multiset<nat>, a: multiset<nat>, b: multiset<nat>)
    ensures u + b + a == u + a + b
  {
  }

  lemma Cancel(u': multiset<nat>, u: multiset<nat>, a: multiset<nat>, b: multiset<nat>)
    requires u' + a == u + (a + b)
    ensures u' == u + b
  {
    assert u' + a == (u + b) + a;
    assert (u' + a) - a == u' && (u + b) + a - a == u + b;
  }

  lemma UsesAppend(stores: seq<Store>, s: nat, id: nat)
    requires s < |stores|
    ensures Uses(Append(stores, s, id)) == Uses(stores) + multiset{id}
  {
    hide Uses;
    var entries := stores[s].entries;
    UsesUpdate(stores, s, stores[s].(entries := entries + [id]));
    assert multiset(entries + [id]) == multiset(entries) + multiset{id};
    Cancel(Uses(Append(stores, s, id)), Uses(stores), multiset(entries), multiset{id});
  }

  /** One more use of a module in use. */
  lemma GrabKeeps(modules: seq<Module>, runtimes: nat, uses: multiset<nat>, id: nat)
    requires Kept(modules, runtimes, uses) && id < |modules| && modules[id].refCount > 0
    ensures Kept(modules[id := Grab(modules[id])], runtimes, uses + multiset{id})
  {
    LoadedCountUpdate(modules, id, Grab(modules[id]));
    assert Accounted(modules[id], uses[id]);
  }

  /** One use less. */
  lemma DropKeeps(modules: seq<Module>, runtimes: nat, uses: multiset<nat>, id: nat)
    requires Kept(modules, runtimes, uses) && id in uses
    ensures id < |modules| && modules[id].refCount > 0 && Freed(modules[id]) <= runtimes
    ensures Kept(modules[id := Drop(modules[id])], runtimes - Freed(modules[id]), uses - multiset{id})
  {
    assert Accounted(modules[id], uses[id]);
    LoadedCountUpdate(modules, id, Drop(modules[id]));
  }

  lemma NewKeeps(modules: seq<Module>, runtimes: nat, uses: multiset<nat>, hash: nat)
    requires Kept(modules, runtimes, uses)
    ensures Kept(modules + [Module(1, true, hash, 0)], runtimes + 1, uses + multiset{|modules|})
  {
    assert (modules + [Module(1, true, hash, 0)])[..|modules|] == modules;
    assert |modules| !in uses;
  }

  /** Dropping a list of uses one after the other. */
  function DropAll(modules: seq<Module>, runtimes: nat, entries: seq<nat>): (r: (seq<Module>, nat))
    ensures |r.0| == |modules|
    decreases |entries|
  {
    if entries == [] then (modules, runtimes) else
      var id := entries[0];
      if id < |modules| && modules[id].refCount > 0 && Freed(modules[id]) <= runtimes
      then DropAll(modules[id := Drop(modules[id])], runtimes - Freed(modules[id]), entries[1..])
      else (modules, runtimes)
  }

  lemma {:induction false} DropAllKeeps(modules: seq<Module>, runtimes: nat, uses: multiset<nat>, entries: seq<nat>)
    requires Kept(modules, runtimes, uses) && multiset(entries) <= uses
    ensures Kept(DropAll(modules, runtimes, entries).0, DropAll(modules, runtimes, entries).1, uses - multiset(entries))
    decreases |entries|
  {
    hide Kept, Drop, Freed;
    if entries != [] {
      var id := entries[0];
      FirstUse(entries, uses);
      DropKeeps(modules, runtimes, uses, id);
      DropAllKeeps(modules[id := Drop(modules[id])], runtimes - Freed(modules[id]), uses - multiset{id}, entries[1..]);
    } else {
      assert uses - multiset(entries) == uses;
    }
  }

  lemma FirstUse(entries: seq<nat>, uses: multiset<nat>)
    requires entries != [] && multiset(entries) <= uses
    ensures var id, rest := entries[0], multiset(entries[1..]);
            id in uses && rest <= uses - multiset{id} && uses - multiset{id} - rest == uses - multiset(entries)
  {
    assert entries == [entries[0]] + entries[1..];
    assert multiset(entries) == multiset{entries[0]} + multiset(entries[1..]);
  }

  // ---- histories ----

  /** The state after a call. */
  ghost function Next(st: State, e: Event): (r: State)
    requires Balanced(st) && Legal(st, e)
  {
    match e
    case NewStore => st.(stores := st.stores + [Store([], true)])
    case NewModule(s, hash, reuses, creates) =>
      var cached := Cached(st.modules, hash, 0);
      if cached.Some? && reuses then Enter(st, s, cached.value)
      else if creates then
        State(st.modules + [Module(1, true, hash, 0)], Append(st.stores, s, |st.modules|), st.handles, st.runtimes + 1)
      else st
    case Obtain(s, id, appends) => if st.modules[id].refCount > 0 && appends then Enter(st, s, id) else st
    case Share(id) =>
      if st.modules[id].refCount > 0
      then st.(modules := st.modules[id := Grab(st.modules[id])], handles := st.handles + multiset{id})
      else st
    case SharedDelete(id) =>
      DropKeeps(st.modules, st.runtimes, Uses(st.stores) + st.handles, id);
      Release(st, id).(handles := st.handles - multiset{id})
    case StoreDelete(s) =>
      var d := DropAll(st.modules, st.runtimes, st.stores[s].entries);
      st.(modules := d.0, runtimes := d.1, stores := st.stores[s := Store([], false)])
  }

  lemma EntriesUsed(stores: seq<Store>, s: nat)
    requires s < |stores|
    ensures multiset(stores[s].entries) <= Uses(stores)
    ensures Uses(stores[s := Store([], false)]) == Uses(stores) - multiset(stores[s].entries)
  {
    UsesUpdate(stores, s, Store([], false));
    var x := Uses(stores[s := Store([], false)]);
    assert x + multiset(stores[s].entries) == Uses(stores);
  }

  /** Every call keeps the books balanced. */
  lemma NextKeeps(st: State, e: Event)
    requires Balanced(st) && Legal(st, e)
    ensures Balanced(Next(st, e))
  {
    hide Kept, Uses, Cached, DropAll, Accounted, LoadedCount;
    var uses := Uses(st.stores) + st.handles;
    match e
    case NewStore =>
      StoreAdded(st.stores);
    case NewModule(s, hash, reuses, creates) =>
      var cached := Cached(st.modules, hash, 0);
      if cached.Some? && reuses {
        EnterKeeps(st, s, cached.value);
      } else if creates {
        CreateKeeps(st, s, hash);
      }
    case Obtain(s, id, appends) =>
      if st.modules[id].refCount > 0 && appends { EnterKeeps(st, s, id); }
    case Share(id) =>
      if st.modules[id].refCount > 0 {
        GrabKeeps(st.modules, st.runtimes, uses, id);
        assert Uses(st.stores) + (st.handles + multiset{id}) == uses + multiset{id} by { Associate(Uses(st.stores), st.handles, id); }
      }
    case SharedDelete(id) =>
      DropKeeps(st.modules, st.runtimes, uses, id);
      assert Uses(st.stores) + (st.handles - multiset{id}) == uses - multiset{id} by { Associate(Uses(st.stores), st.handles, id); }
    case StoreDelete(s) => DeleteKeeps(st, s);
  }

  lemma Associate(u: multiset<nat>, h: multiset<nat>, id: nat)
    ensures u + (h + multiset{id}) == u + h + multiset{id}
    ensures id in h ==> u + (h - multiset{id}) == u + h - multiset{id}
  {
  }

  lemma CreateKeeps(st: State, s: nat, hash: nat)
    requires Balanced(st) && s < |st.stores| && st.stores[s].live
    ensures Balanced(State(st.modules + [Module(1, true, hash, 0)], Append(st.stores, s, |st.modules|), st.handles, st.runtimes + 1))
  {
    hide Kept, Uses;
    var uses := Uses(st.stores) + st.handles;
    NewKeeps(st.modules, st.runtimes, uses, hash);
    UsesAppend(st.stores, s, |st.modules|);
    assert Uses(Append(st.stores, s, |st.modules|)) + st.handles == uses + multiset{|st.modules|};
  }

  lemma DeleteKeeps(st: State, s: nat)
    requires Balanced(st) && s < |st.stores|
    ensures var d := DropAll(st.modules, st.runtimes, st.stores[s].entries);
            Balanced(st.(modules := d.0, runtimes := d.1, stores := st.stores[s := Store([], false)]))
  {
    hide Kept, Uses, DropAll;
    var uses := Uses(st.stores) + st.handles;
    EntriesUsed(st.stores, s);
    DropAllKeeps(st.modules, st.runtimes, uses, st.stores[s].entries);
    assert Uses(st.stores[s := Store([], false)]) + st.handles == uses - multiset(st.stores[s].entries);
  }

  lemma StoreAdded(stores: seq<Store>)
    ensures Uses(stores + [Store([], true)]) == Uses(stores)
  {
    assert (stores + [Store([], true)])[..|stores|] == stores;
  }

  lemma EnterKeeps(st: State, s: nat, id: nat)
    requires Balanced(st) && s < |st.stores| && st.stores[s].live && id < |st.modules| && st.modules[id].refCount > 0
    ensures Balanced(Enter(st, s, id))
  {
    hide Kept, Uses;
    GrabKeeps(st.modules, st.runtimes, Uses(st.stores) + st.handles, id);
    UsesAppend(st.stores, s, id);
    assert Uses(Append(st.stores, s, id)) + st.handles == Uses(st.stores) + st.handles + multiset{id};
  }

  /** Store s lists module id once more, and nothing else about stores and handles changes. */
  predicate Listed(st: State, t: State, s: nat, id: nat)
    requires s < |st.stores|
  {
    t.handles == st.handles && t.stores == st.stores[s := Store(st.stores[s].entries + [id], st.stores[s].live)]
  }

  predicate SameUsers(st: State, t: State)
  {
    t.handles == st.handles && t.stores == st.stores
  }

  /** What a call does to the users of modules. A module made from a binary that is not in use already, or not taken from
      there, is new; a call on a module out of use, or without memory, changes nothing. */
  ghost predicate Effect(st: State, e: Event, t: State)
    requires Legal(st, e)
  {
    match e
    case NewStore => t.handles == st.handles && t.stores == st.stores + [Store([], true)] && t.modules == st.modules
    case NewModule(s, hash, reuses, creates) =>
      if reuses && exists id :: 0 <= id < |st.modules| && IsLoadedAs(st.modules[id], hash) then
        exists id :: 0 <= id < |st.modules| && IsLoadedAs(st.modules[id], hash) && Listed(st, t, s, id)
                     && |t.modules| == |st.modules| && t.runtimes == st.runtimes
      else if creates then
        && Listed(st, t, s, |st.modules|) && t.runtimes == st.runtimes + 1
        && t.modules == st.modules + [Module(1, true, hash, 0)]
      else t == st
    case Obtain(s, id, appends) => if st.modules[id].loaded && appends then Listed(st, t, s, id) else t == st
    case Share(id) =>
      if st.modules[id].loaded then t.stores == st.stores && t.handles == st.handles + multiset{id} else t == st
    case SharedDelete(id) => t.stores == st.stores && t.handles == st.handles - multiset{id}
    case StoreDelete(s) => t.handles == st.handles && t.stores == st.stores[s := Store([], false)]
  }

  /** Every call does just that. */
  lemma NextEffect(st: State, e: Event)
    requires Balanced(st) && Legal(st, e)
    ensures Effect(st, e, Next(st, e))
  {
    hide Uses, DropAll, Kept;
    match e
    case NewStore =>
    case NewModule(s, hash, reuses, creates) =>
      var cached := Cached(st.modules, hash, 0);
      if cached.Some? && reuses { assert Listed(st, Next(st, e), s, cached.value); }
    case Obtain(s, id, appends) => LoadedIffUsed(st, id);
    case Share(id) => LoadedIffUsed(st, id);
    case SharedDelete(id) => DropKeeps(st.modules, st.runtimes, Uses(st.stores) + st.handles, id);
    case StoreDelete(s) =>
  }

  /** For the modules it follows that counts are the uses there are then; and a module still in use keeps its hash, which goes with the last use. */
  lemma NextModules(st: State, e: Event, id: nat)
    requires Balanced(st) && Legal(st, e) && id < |Next(st, e).modules|
    ensures var t := Next(st, e);
            && |st.modules| <= |t.modules|
            && t.modules[id].refCount == (Uses(t.stores) + t.handles)[id]
            && (id < |st.modules| && t.modules[id].refCount > 0 ==> t.modules[id].hash == st.modules[id].hash)
            && (id < |st.modules| && t.modules[id].refCount == 0 < st.modules[id].refCount ==> t.modules[id].hash == 0)
  {
    hide Uses, DropAll;
    NextKeeps(st, e);
    var t := Next(st, e);
    assert Accounted(t.modules[id], (Uses(t.stores) + t.handles)[id]);
    if e.SharedDelete? { DropKeeps(st.modules, st.runtimes, Uses(st.stores) + st.handles, e.id); }
    if e.StoreDelete? { DropAllHash(st.modules, st.runtimes, st.stores[e.store].entries, id); }
  }

  lemma LoadedIffUsed(st: State, id: nat)
    requires Balanced(st) && id < |st.modules|
    ensures st.modules[id].loaded <==> st.modules[id].refCount > 0
  {
    assert Accounted(st.modules[id], (Uses(st.stores) + st.handles)[id]);
  }

  lemma {:induction false} DropAllHash(modules: seq<Module>, runtimes: nat, entries: seq<nat>, id: nat)
    requires id < |modules|
    ensures var m := DropAll(modules, runtimes, entries).0[id];
            (m.refCount > 0 ==> m.hash == modules[id].hash) && (m.refCount == 0 < modules[id].refCount ==> m.hash == 0)
    decreases |entries|
  {
    if entries != [] {
      var e := entries[0];
      if e < |modules| && modules[e].refCount > 0 && Freed(modules[e]) <= runtimes {
        var after := modules[e := Drop(modules[e])];
        DropAllHash(after, runtimes - Freed(modules[e]), entries[1..], id);
        if after[id].refCount == 0 { DropAllDead(after, runtimes - Freed(modules[e]), entries[1..], id); }
      }
    }
  }

  /** A history of calls; calls that the API forbids do not occur. */
  ghost function Run(st: State, events: seq<Event>): (r: State)
    requires Balanced(st)
    ensures Balanced(r)
    decreases |events|
  {
    if events == [] then st
    else if Legal(st, events[0]) then NextKeeps(st, events[0]); Run(Next(st, events[0]), events[1..])
    else Run(st, events[1..])
  }

  lemma EmptyBalanced()
    ensures Balanced(EmptyState)
  {
  }

  ghost function History(events: seq<Event>): State
  {
    EmptyBalanced();
    Run(EmptyState, events)
  }

  /** After every history each module's count is its store entries plus its handles; it is loaded exactly while that
      is positive, and it has been unloaded exactly once if it is not. */
  lemma HistoryBalanced(events: seq<Event>, id: nat)
    requires id < |History(events).modules|
    ensures var st := History(events);
            var n := Uses(st.stores)[id] + st.handles[id];
            && st.modules[id].refCount == n && (st.modules[id].loaded <==> n > 0)
            && st.modules[id].unloads == if n > 0 then 0 else 1
  {
    EmptyBalanced();
    var st := Run(EmptyState, events);
    assert Accounted(st.modules[id], (Uses(st.stores) + st.handles)[id]);
  }

  lemma {:induction false} DropAllDead(modules: seq<Module>, runtimes: nat, entries: seq<nat>, id: nat)
    requires id < |modules| && modules[id].refCount == 0
    ensures DropAll(modules, runtimes, entries).0[id] == modules[id]
    decreases |entries|
  {
    if entries != [] {
      var e := entries[0];
      if e < |modules| && modules[e].refCount > 0 && Freed(modules[e]) <= runtimes {
        DropAllDead(modules[e := Drop(modules[e])], runtimes - Freed(modules[e]), entries[1..], id);
      }
    }
  }

  /** A module that has lost its last use stays as it is, whatever is called. */
  lemma NeverRevived(st: State, e: Event, id: nat)
    requires Balanced(st) && Legal(st, e) && id < |st.modules| && st.modules[id].refCount == 0
    ensures id < |Next(st, e).modules| && Next(st, e).modules[id] == st.modules[id]
  {
    match e
    case NewStore =>
    case NewModule(s, hash, reuses, creates) =>
    case Obtain(s, k, appends) =>
    case Share(k) =>
    case SharedDelete(k) =>
      DropKeeps(st.modules, st.runtimes, Uses(st.stores) + st.handles, k);
    case StoreDelete(s) =>
      DropAllDead(st.modules, st.runtimes, st.stores[s].entries, id);
  }

  lemma {:induction false} DeadForGood(st: State, events: seq<Event>, id: nat)
    requires Balanced(st) && id < |st.modules| && st.modules[id].refCount == 0
    ensures id < |Run(st, events).modules| && Run(st, events).modules[id] == st.modules[id]
    decreases |events|
  {
    if events != [] {
      if Legal(st, events[0]) {
        NextKeeps(st, events[0]);
        NeverRevived(st, events[0], id);
        DeadForGood(Next(st, events[0]), events[1..], id);
      } else {
        DeadForGood(st, events[1..], id);
      }
    }
  }

  // ---- the API ----

  class Engine {
    var modules: seq<Module>
    var stores: seq<Store>
    ghost var handles: multiset<nat>
    var runtimes: nat

    ghost function Value(): State
      reads this
    {
      State(modules, stores, handles, runtimes)
    }

    constructor ()
      ensures Value() == EmptyState
    {
      modules, stores, handles, runtimes := [], [], multiset{}, 0;
    }

    method StoreNew() returns (s: nat)
      requires Balanced(Value())
      modifies this
      ensures Value() == Next(old(Value()), NewStore) && s == |old(stores)|
    {
      s := |stores|;
      stores := stores + [Store([], true)];
    }

    /** check_loaded_module: scans the engine's list. */
    method CheckLoadedModule(hash: nat) returns (r: Option<nat>)
      ensures r == Cached(modules, hash, 0)
    {
      for i := 0 to |modules|
        invariant Cached(modules, hash, 0) == Cached(modules, hash, i)
      {
        if modules[i].refCount == 0 { continue; }
        if modules[i].hash == hash { return Some(i); }
      }
      return None;
    }

    /** wasm_module_new_ex: a module already loaded from the same binary is entered in the store as it is;
        otherwise, or if that entry cannot be made, the binary is loaded, and every later failure takes
        back what was done before it. */
    method ModuleNew(s: nat, hash: nat, reuses: bool, loads: bool, appends: bool, locks: bool, lists: bool)
      returns (id: Option<nat>)
      requires Balanced(Value()) && Legal(Value(), NewModule(s, hash, reuses, loads && appends && locks && lists))
      modifies this
      ensures Value() == Next(old(Value()), NewModule(s, hash, reuses, loads && appends && locks && lists))
      ensures id.None? <==> !(loads && appends && locks && lists) && !(reuses && Cached(old(modules), hash, 0).Some?)
      ensures id.Some? ==> id.value < |modules| && modules[id.value].loaded && modules[id.value].hash == hash
                           && stores[s].entries == old(stores[s].entries) + [id.value]
    {
      hide Kept, Uses;
      ghost var was := stores;
      var cached := CheckLoadedModule(hash);
      if cached.Some? && reuses {
        LoadedIffUsed(Value(), cached.value);
        stores := Append(stores, s, cached.value);
        modules := modules[cached.value := Grab(modules[cached.value])];
        return cached;
      }
      if !loads { return None; }
      runtimes := runtimes + 1;
      if !appends {
        runtimes := runtimes - 1;
        return None;
      }
      stores := Append(stores, s, |modules|);
      if !locks || !lists {
        var entries := stores[s].entries;
        stores := stores[s := stores[s].(entries := entries[..|entries| - 1])];
        assert stores[s] == was[s] && stores == was;
        runtimes := runtimes - 1;
        return None;
      }
      id := Some(|modules|);
      modules := modules + [Module(1, true, hash, 0)];
    }

    /** wasm_module_obtain. */
    method ModuleObtain(s: nat, id: nat, appends: bool) returns (ok: bool)
      requires Balanced(Value()) && Legal(Value(), Obtain(s, id, appends))
      modifies this
      ensures Value() == Next(old(Value()), Obtain(s, id, appends))
      ensures ok <==> old(modules[id].loaded) && appends
    {
      hide Kept, Uses;
      LoadedIffUsed(Value(), id);
      if modules[id].refCount == 0 || !appends { return false; }
      stores := Append(stores, s, id);
      modules := modules[id := Grab(modules[id])];
      return true;
    }

    /** wasm_module_share: gives out a handle. */
    method ModuleShare(id: nat) returns (ok: bool)
      requires Balanced(Value()) && Legal(Value(), Share(id))
      modifies this
      ensures Value() == Next(old(Value()), Share(id))
      ensures ok <==> old(modules[id].loaded)
    {
      hide Kept, Uses;
      LoadedIffUsed(Value(), id);
      if modules[id].refCount == 0 { return false; }
      modules := modules[id := Grab(modules[id])];
      handles := handles + multiset{id};
      return true;
    }

    /** wasm_module_delete_internal. */
    method DeleteInternal(id: nat)
      requires id < |modules| && modules[id].refCount > 0 && Freed(modules[id]) <= runtimes
      modifies `modules, `runtimes
      ensures modules == old(modules)[id := Drop(old(modules)[id])]
      ensures runtimes == old(runtimes) - Freed(old(modules)[id])
    {
      var m := modules[id].(refCount := modules[id].refCount - 1);
      if m.refCount > 0 {
        modules := modules[id := m];
        return;
      }
      runtimes := runtimes - 1;
      m := m.(loaded := false, unloads := m.unloads + 1);
      m := m.(hash := 0);
      modules := modules[id := m];
    }

    /** wasm_shared_module_delete: gives a handle back. */
    method SharedModuleDelete(id: nat)
      requires Balanced(Value()) && Legal(Value(), SharedDelete(id))
      modifies this
      ensures Value() == Next(old(Value()), SharedDelete(id))
    {
      hide Kept, Uses;
      DropKeeps(modules, runtimes, Uses(stores) + handles, id);
      DeleteInternal(id);
      handles := handles - multiset{id};
    }

    /** The modules' part of wasm_store_delete: every entry of the store's vector is one use less. */
    method DeleteStore(s: nat)
      requires Balanced(Value()) && Legal(Value(), StoreDelete(s))
      modifies this
      ensures Value() == Next(old(Value()), StoreDelete(s))
    {
      hide Kept, Uses, DropAll;
      var entries := stores[s].entries;
      EntriesUsed(stores, s);
      DropEntries(entries, Uses(stores) + handles);
      stores := stores[s := Store([], false)];
    }

    /** wasm_module_vec_delete. */
    method DropEntries(entries: seq<nat>, ghost uses: multiset<nat>)
      requires Kept(modules, runtimes, uses) && multiset(entries) <= uses
      modifies `modules, `runtimes
      ensures (modules, runtimes) == DropAll(old(modules), old(runtimes), entries)
    {
      hide Kept, Drop, Freed, DropAll;
      ghost var all, left := DropAll(modules, runtimes, entries), uses;
      assert entries[0..] == entries;
      for i := 0 to |entries|
        invariant DropAll(modules, runtimes, entries[i..]) == all
        invariant Kept(modules, runtimes, left) && multiset(entries[i..]) <= left
      {
        NextEntry(entries, i, left);
        DropKeeps(modules, runtimes, left, entries[i]);
        DropOne(modules, runtimes, entries[i..]);
        left := left - multiset{entries[i]};
        DeleteInternal(entries[i]);
      }
      assert entries[|entries|..] == [];
      DropNone(modules, runtimes);
    }

    lemma DropNone(modules: seq<Module>, runtimes: nat)
      ensures DropAll(modules, runtimes, []) == (modules, runtimes)
    {
    }

    lemma NextEntry(entries: seq<nat>, i: nat, left: multiset<nat>)
      requires i < |entries| && multiset(entries[i..]) <= left
      ensures entries[i] in left && multiset(entries[i + 1..]) <= left - multiset{entries[i]}
      ensures entries[i..][0] == entries[i] && entries[i..][1..] == entries[i + 1..]
    {
      assert entries[i..] == [entries[i]] + entries[i + 1..];
    }

    lemma DropOne(modules: seq<Module>, runtimes: nat, entries: seq<nat>)
      requires entries != [] && entries[0] < |modules| && modules[entries[0]].refCount > 0
      requires Freed(modules[entries[0]]) <= runtimes
      ensures DropAll(modules, runtimes, entries) ==
              DropAll(modules[entries[0] := Drop(modules[entries[0]])], runtimes - Freed(modules[entries[0]]), entries[1..])
    {
    }
  }
}
