/** Stores and the environment of the thread that makes them (wasm_store_new and wasm_store_delete in
    wasm_c_api.c, with the counters per thread that serve where there is no thread-local storage). */
module StoreEnv {
  import opened Wrappers

  const UINT32_MAX: nat := 0xFFFF_FFFF

  datatype Entry = Entry(tid: nat, num: nat)

  /** The position of a thread's entry, or the length of the list. */
  function Find(entries: seq<Entry>, tid: nat): (i: nat)
    ensures i <= |entries|
    ensures i < |entries| ==> entries[i].tid == tid
    ensures forall k :: 0 <= k < i ==> entries[k].tid != tid
  {
    if entries == [] then 0 else if entries[0].tid == tid then 0 else 1 + Find(entries[1..], tid)
  }

  /** A thread's counter; a thread without an entry has made no store. */
  function Num(entries: seq<Entry>, tid: nat): nat
  {
    var i := Find(entries, tid);
    if i < |entries| then entries[i].num else 0
  }

  ghost predicate Distinct(entries: seq<Entry>)
  {
    forall i, j :: 0 <= i < j < |entries| ==> entries[i].tid != entries[j].tid
  }

  /** The list after setting a thread's counter. */
  function SetNum(entries: seq<Entry>, tid: nat, num: nat): seq<Entry>
  {
    var i := Find(entries, tid);
    if i < |entries| then entries[i := Entry(tid, num)] else entries + [Entry(tid, num)]
  }

  lemma FindIs(entries: seq<Entry>, tid: nat, i: nat)
    requires i < |entries| && entries[i].tid == tid && forall k :: 0 <= k < i ==> entries[k].tid != tid
    ensures Find(entries, tid) == i
  {
  }

  /** Setting one counter changes no other and makes no second entry. */
  lemma SetNumIs(entries: seq<Entry>, tid: nat, num: nat, other: nat)
    requires Distinct(entries)
    ensures Distinct(SetNum(entries, tid, num))
    ensures Num(SetNum(entries, tid, num), other) == if other == tid then num else Num(entries, other)
  {
    var after := SetNum(entries, tid, num);
    var i := Find(entries, other);
    if other == tid {
      FindIs(after, tid, i);
    } else if i < |entries| {
      FindIs(after, other, i);
    } else {
      assert forall k :: 0 <= k < |after| ==> after[k].tid != other;
      assert Find(after, other) == |after|;
    }
  }

  lemma SetNumOwn(entries: seq<Entry>, tid: nat, num: nat)
    ensures Num(SetNum(entries, tid, num), tid) == num
  {
    var i := Find(entries, tid);
    FindIs(SetNum(entries, tid, num), tid, i);
  }

  /** The live stores of a thread. */
  ghost function Owned(owners: map<nat, nat>, tid: nat): set<nat>
  {
    set s | s in owners && owners[s] == tid
  }

  /** Every thread's counter is the number of its live stores, and its environment is set up exactly while
      that is positive. */
  ghost predicate Balanced(entries: seq<Entry>, envs: set<nat>, owners: map<nat, nat>)
  {
    && Distinct(entries)
    && (forall tid: nat :: Num(entries, tid) == |Owned(owners, tid)|)
    && forall tid: nat :: tid in envs <==> Num(entries, tid) > 0
  }

  lemma OwnedAdd(owners: map<nat, nat>, s: nat, tid: nat, other: nat)
    requires s !in owners
    ensures |Owned(owners[s := tid], other)| == |Owned(owners, other)| + if other == tid then 1 else 0
  {
    if other == tid {
      assert Owned(owners[s := tid], tid) == Owned(owners, tid) + {s};
    } else {
      assert Owned(owners[s := tid], other) == Owned(owners, other);
    }
  }

  lemma OwnedRemove(owners: map<nat, nat>, s: nat, other: nat)
    requires s in owners
    ensures |Owned(owners - {s}, other)| == |Owned(owners, other)| - if other == owners[s] then 1 else 0
  {
    if other == owners[s] {
      assert Owned(owners, other) == Owned(owners - {s}, other) + {s};
    } else {
      assert Owned(owners - {s}, other) == Owned(owners, other);
    }
  }

  /** A store more: one up, with the environment set up. */
  lemma AddKeeps(entries: seq<Entry>, envs: set<nat>, owners: map<nat, nat>, s: nat, tid: nat)
    requires Balanced(entries, envs, owners) && s !in owners
    ensures Balanced(SetNum(entries, tid, Num(entries, tid) + 1), envs + {tid}, owners[s := tid])
  {
    hide Distinct, SetNum, Num, Owned;
    var after := SetNum(entries, tid, Num(entries, tid) + 1);
    SetNumIs(entries, tid, Num(entries, tid) + 1, tid);
    forall other: nat ensures Num(after, other) == |Owned(owners[s := tid], other)|
      ensures other in envs + {tid} <==> Num(after, other) > 0
    {
      SetNumIs(entries, tid, Num(entries, tid) + 1, other);
      OwnedAdd(owners, s, tid, other);
    }
  }

  /** A store less: one down, and the environment goes with the last. */
  lemma RemoveKeeps(entries: seq<Entry>, envs: set<nat>, owners: map<nat, nat>, s: nat)
    requires Balanced(entries, envs, owners) && s in owners
    ensures var tid := owners[s];
            && Num(entries, tid) > 0 && tid in envs
            && Balanced(SetNum(entries, tid, Num(entries, tid) - 1), if Num(entries, tid) == 1 then envs - {tid} else envs, owners - {s})
  {
    hide Distinct, SetNum, Num, Owned;
    var tid := owners[s];
    OwnedRemove(owners, s, tid);
    var after := SetNum(entries, tid, Num(entries, tid) - 1);
    SetNumIs(entries, tid, Num(entries, tid) - 1, tid);
    forall other: nat ensures Num(after, other) == |Owned(owners - {s}, other)|
      ensures other in (if Num(entries, tid) == 1 then envs - {tid} else envs) <==> Num(after, other) > 0
    {
      SetNumIs(entries, tid, Num(entries, tid) - 1, other);
      OwnedRemove(owners, s, other);
    }
  }

  /** Going up and down again, as a creation that fails late does. */
  lemma BackKeeps(entries: seq<Entry>, envs: set<nat>, owners: map<nat, nat>, tid: nat)
    requires Balanced(entries, envs, owners)
    ensures var up := SetNum(entries, tid, Num(entries, tid) + 1);
            && Num(up, tid) == Num(entries, tid) + 1
            && Balanced(SetNum(up, tid, Num(entries, tid)), envs, owners)
  {
    hide SetNum, Num, Owned;
    var n := Num(entries, tid);
    var up := SetNum(entries, tid, n + 1);
    forall other: nat ensures Distinct(up) && Num(up, other) == if other == tid then n + 1 else Num(entries, other) {
      SetNumIs(entries, tid, n + 1, other);
    }
    var down := SetNum(up, tid, n);
    forall other: nat ensures Distinct(down) && Num(down, other) == Num(entries, other) {
      SetNumIs(up, tid, n, other);
    }
  }

  // ---- histories ----

  /** `owners` are the live stores with the threads that made them; stores are named by the order of creation. */
  datatype State = State(entries: seq<Entry>, envs: set<nat>, owners: map<nat, nat>, created: nat)

  const EmptyState := State([], {}, map[], 0)

  /** A creation on a thread, with the outcomes of setting up the environment and of the allocations (the last stands
      for all that are made inside the store), or a deletion by the store's own thread. */
  datatype Call = New(tid: nat, inits: bool, appends: bool, allocates: bool, fills: bool) | Delete(store: nat)

  /** A thread can take on one more store: the environment is there or can be set up, and the counter can go up. */
  predicate Creatable(entries: seq<Entry>, tid: nat, inits: bool, appends: bool)
  {
    && (Num(entries, tid) == 0 ==> inits)
    && if Find(entries, tid) < |entries| then Num(entries, tid) < UINT32_MAX else appends
  }

  ghost predicate Consistent(st: State)
  {
    Balanced(st.entries, st.envs, st.owners) && forall s :: s in st.owners ==> s < st.created
  }

  function SetUp(st: State, tid: nat): State
  {
    State(SetNum(st.entries, tid, Num(st.entries, tid) + 1), st.envs + {tid}, st.owners[st.created := tid], st.created + 1)
  }

  function TakenDown(st: State, s: nat): State
    requires s in st.owners && Num(st.entries, st.owners[s]) > 0
  {
    var tid := st.owners[s];
    var n := Num(st.entries, tid) - 1;
    State(SetNum(st.entries, tid, n), if n == 0 then st.envs - {tid} else st.envs, st.owners - {s}, st.created)
  }

  /** The state after a call. Deleting a store that is not live is no call at all. */
  ghost function Next(st: State, c: Call): State
    requires Consistent(st)
  {
    match c
    case New(tid, inits, appends, allocates, fills) =>
      if !Creatable(st.entries, tid, inits, appends) then st
      else if allocates && fills then SetUp(st, tid)
      else st.(entries := SetNum(SetUp(st, tid).entries, tid, Num(st.entries, tid)), created := if allocates then st.created + 1 else st.created)
    case Delete(s) =>
      if s in st.owners then RemoveKeeps(st.entries, st.envs, st.owners, s); TakenDown(st, s) else st
  }

  /** Every call keeps counters, environments and live stores in step, wherever a creation fails. */
  lemma NextKeeps(st: State, c: Call)
    requires Consistent(st)
    ensures Consistent(Next(st, c))
  {
    hide Balanced, Num, SetNum, Creatable;
    match c
    case New(tid, _, _, _, _) =>
      AddKeeps(st.entries, st.envs, st.owners, st.created, tid);
      BackKeeps(st.entries, st.envs, st.owners, tid);
    case Delete(s) =>
      if s in st.owners { RemoveKeeps(st.entries, st.envs, st.owners, s); }
  }

  /** A thread can take on a store exactly if its environment is set up by a live store or can be set up, and its list entry
      can count one more or an entry can be made. */
  lemma CreatableIff(st: State, tid: nat, inits: bool, appends: bool)
    requires Consistent(st)
    ensures Creatable(st.entries, tid, inits, appends) <==>
              && (Owned(st.owners, tid) != {} || inits)
              && if exists i :: 0 <= i < |st.entries| && st.entries[i].tid == tid then |Owned(st.owners, tid)| < 0xFFFF_FFFF else appends
  {
    hide Owned;
    assert Num(st.entries, tid) == |Owned(st.owners, tid)|;
    assert Find(st.entries, tid) < |st.entries| <==> exists i :: 0 <= i < |st.entries| && st.entries[i].tid == tid;
  }

  /** A creation that goes through makes one new live store, owned by the thread that called; one that fails leaves stores,
      counters and environments as they were; a deletion takes away just the store it is given. */
  lemma NextStores(st: State, c: Call)
    requires Consistent(st)
    ensures c.New? && Creatable(st.entries, c.tid, c.inits, c.appends) && c.allocates && c.fills ==>
              var t := Next(st, c);
              && st.created !in st.owners && t.owners == st.owners[st.created := c.tid] && t.created == st.created + 1
              && c.tid in t.envs && Num(t.entries, c.tid) == Num(st.entries, c.tid) + 1
    ensures c.New? && !(Creatable(st.entries, c.tid, c.inits, c.appends) && c.allocates && c.fills) ==>
              var t := Next(st, c);
              && t.owners == st.owners && t.envs == st.envs
              && forall tid: nat :: Num(t.entries, tid) == Num(st.entries, tid)
    ensures c.Delete? ==> Next(st, c).owners == st.owners - {c.store} && Next(st, c).created == st.created
  {
    hide Num, SetNum, Creatable;
    NextKeeps(st, c);
    if c.New? {
      SetNumOwn(st.entries, c.tid, Num(st.entries, c.tid) + 1);
      forall tid: nat ensures Num(Next(st, c).entries, tid) == |Owned(Next(st, c).owners, tid)|
        ensures Num(st.entries, tid) == |Owned(st.owners, tid)| { }
    } else {
      assert c.store !in st.owners ==> st.owners - {c.store} == st.owners;
    }
  }

  ghost function Run(st: State, calls: seq<Call>): (r: State)
    requires Consistent(st)
    ensures Consistent(r)
    decreases |calls|
  {
    if calls == [] then st else NextKeeps(st, calls[0]); Run(Next(st, calls[0]), calls[1..])
  }

  lemma EmptyConsistent()
    ensures Consistent(EmptyState)
  {
  }

  ghost function History(calls: seq<Call>): State
  {
    EmptyConsistent();
    Run(EmptyState, calls)
  }

  /** After any history a thread's counter is the number of its live stores, its environment is set up exactly while
      it has one, and it has at most one entry. */
  lemma HistoryBalanced(calls: seq<Call>, tid: nat)
    ensures var st := History(calls);
            && Num(st.entries, tid) == |Owned(st.owners, tid)|
            && (tid in st.envs <==> Owned(st.owners, tid) != {})
            && forall i, j :: 0 <= i < |st.entries| && 0 <= j < |st.entries| && st.entries[i].tid == st.entries[j].tid ==> i == j
  {
    EmptyConsistent();
    assert Consistent(Run(EmptyState, calls));
  }

  // ---- the API ----

  class Engine {
    var storesByTid: seq<Entry>
    var envs: set<nat>
    ghost var owners: map<nat, nat>
    var created: nat

    ghost function Value(): State
      reads this
    {
      State(storesByTid, envs, owners, created)
    }

    constructor ()
      ensures Value() == EmptyState
    {
      storesByTid, envs, owners, created := [], {}, map[], 0;
    }

    method SearchStoreNum(tid: nat) returns (found: bool, i: nat)
      ensures i == Find(storesByTid, tid) && found == (i < |storesByTid|)
    {
      i := 0;
      while i < |storesByTid|
        invariant i <= |storesByTid| && forall k :: 0 <= k < i ==> storesByTid[k].tid != tid
      {
        if storesByTid[i].tid == tid {
          FindIs(storesByTid, tid, i);
          return true, i;
        }
        i := i + 1;
      }
      return false, i;
    }

    method RetrieveStoreNum(tid: nat) returns (n: nat)
      ensures n == Num(storesByTid, tid)
    {
      var found, i := SearchStoreNum(tid);
      n := if found then storesByTid[i].num else 0;
    }

    /** A failure leaves the list as it is: the counter is at its limit, or there is no room for a new entry. */
    method IncreaseStoreNum(tid: nat, appends: bool) returns (ok: bool)
      modifies `storesByTid
      ensures ok <==> if Find(old(storesByTid), tid) < |old(storesByTid)| then Num(old(storesByTid), tid) < UINT32_MAX else appends
      ensures storesByTid == if ok then SetNum(old(storesByTid), tid, Num(old(storesByTid), tid) + 1) else old(storesByTid)
    {
      var found, i := SearchStoreNum(tid);
      if found {
        var n := storesByTid[i].num;
        if n >= UINT32_MAX { return false; }
        storesByTid := storesByTid[i := Entry(tid, n + 1)];
        return true;
      }
      if !appends { return false; }
      storesByTid := storesByTid + [Entry(tid, 1)];
      return true;
    }

    method DecreaseStoreNum(tid: nat) returns (ok: bool)
      requires Num(storesByTid, tid) > 0
      modifies `storesByTid
      ensures ok && storesByTid == SetNum(old(storesByTid), tid, Num(old(storesByTid), tid) - 1)
    {
      var found, i := SearchStoreNum(tid);
      assert found;
      storesByTid := storesByTid[i := Entry(tid, storesByTid[i].num - 1)];
      return true;
    }

    /** The first part of wasm_store_new: the environment if this is the first store, and the counter. */
    method EnterThread(tid: nat, inits: bool, appends: bool) returns (ok: bool, n: nat)
      requires Consistent(Value())
      modifies `envs, `storesByTid
      ensures ok <==> Creatable(old(storesByTid), tid, inits, appends)
      ensures !ok ==> Value() == old(Value())
      ensures ok ==> n == Num(old(storesByTid), tid) && storesByTid == SetNum(old(storesByTid), tid, n + 1)
      ensures ok ==> envs == old(envs) + {tid} && (n == 0 <==> tid !in old(envs))
    {
      hide Balanced, Num, SetNum, Distinct, Owned;
      ghost var st := Value();
      n := RetrieveStoreNum(tid);
      EnvIff(st, tid);
      if n > 0 {
        ok := IncreaseStoreNum(tid, appends);
        assert envs == st.envs + {tid};
        return ok, n;
      }
      if !inits { return false, n; }
      assert tid !in envs;
      envs := envs + {tid};
      ok := IncreaseStoreNum(tid, appends);
      if !ok {
        envs := envs - {tid};
        assert envs == st.envs;
      }
    }

    /** wasm_store_new. The environment is only set up when it is not, and only destroyed when it is. */
    method StoreNew(tid: nat, inits: bool, appends: bool, allocates: bool, fills: bool) returns (r: Option<nat>)
      requires Consistent(Value())
      modifies this
      ensures Value() == Next(old(Value()), New(tid, inits, appends, allocates, fills))
      ensures r == if Creatable(old(storesByTid), tid, inits, appends) && allocates && fills then Some(old(created)) else None
      ensures r.Some? ==> r.value !in old(owners) && owners == old(owners)[r.value := tid] && tid in envs
      ensures r.None? ==> owners == old(owners) && envs == old(envs)
    {
      hide Balanced, Num, SetNum, Distinct;
      ghost var st := Value();
      var ok, n := EnterThread(tid, inits, appends);
      if !ok { return None; }
      BackKeeps(st.entries, st.envs, st.owners, tid);
      if !allocates {
        ok := DecreaseStoreNum(tid);
        if n == 0 { envs := envs - {tid}; }
        assert envs == st.envs;
        return None;
      }
      AddKeeps(st.entries, st.envs, st.owners, created, tid);
      owners := owners[created := tid];
      created := created + 1;
      if !fills {
        StoreDelete(tid, created - 1);
        assert owners == st.owners && envs == st.envs;
        return None;
      }
      return Some(created - 1);
    }

    /** wasm_store_delete, by the thread that made the store. */
    method StoreDelete(tid: nat, ghost s: nat)
      requires Consistent(Value()) && s in owners && owners[s] == tid
      modifies `storesByTid, `envs, `owners
      ensures Value() == Next(old(Value()), Delete(s)) && owners == old(owners) - {s}
    {
      hide Balanced, Num, SetNum, Distinct;
      ghost var st := Value();
      RemoveKeeps(storesByTid, envs, owners, s);
      var ok := DecreaseStoreNum(tid);
      owners := owners - {s};
      if ok {
        var n := RetrieveStoreNum(tid);
        SetNumOwn(st.entries, tid, Num(st.entries, tid) - 1);
        if n == 0 {
          assert tid in envs;
          envs := envs - {tid};
        }
      }
    }

    lemma EnvIff(st: State, tid: nat)
      requires Consistent(st)
      ensures tid in st.envs <==> Num(st.entries, tid) > 0
    {
    }
  }
}
