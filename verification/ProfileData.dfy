/** The profiling data of one function as the runtime holds it: an array of site lists, each a chain of
    heap nodes that the recorder updates in place. */
module ProfileData {
  import opened Bytes
  import opened ProfileRecorder

  class ValueProfNode {
    var value: nat
    var count: nat
    var next: ValueProfNode?
    ghost var site: nat   // where the node hangs: site and position in its chain
    ghost var pos: nat

    constructor (ghost site: nat, ghost pos: nat)
      ensures value == 0 && count == 0 && next == null && this.site == site && this.pos == pos
    {
      value, count, next := 0, 0, null;
      this.site, this.pos := site, pos;
    }
  }

  class LLVMProfileData {
    const numValueSites0: nat
    const numValueSites1: nat
    const numCounters: nat
    const funcMd5: nat
    const funcHash: nat
    const funcPtr: nat
    const tableAddress: nat                  // the address its table of lists gets, as a number
    var values: array?<ValueProfNode?>
    var maxNumVals: nat                      // the limit VPMaxNumValsPerSite

    ghost var lists: seq<seq<Entry>>         // the abstract value: the list of every site
    ghost var chains: seq<seq<ValueProfNode>>
    ghost var Repr: set<object>

    ghost predicate Valid()
      reads this, Repr
      ensures Valid() ==> this in Repr
    {
      && this in Repr
      && |lists| == |chains| == numValueSites0 + numValueSites1
      && (forall i :: 0 <= i < |chains| ==> |chains[i]| == |lists[i]|)
      && (values == null ==> forall i :: 0 <= i < |chains| ==> chains[i] == [])
      && (values != null ==>
            && values in Repr
            && values.Length == |chains|
            && maxNumVals == MAX_NUM_VAL_PER_SITE
            && forall i :: 0 <= i < |chains| ==> values[i] == At(chains[i], 0))
      && (forall i, k {:trigger chains[i][k]} :: 0 <= i < |chains| && 0 <= k < |chains[i]| ==>
            chains[i][k] in Repr && IsNode(chains[i][k], i, k, At(chains[i], k + 1), lists[i][k]))
    }

    constructor (sites0: nat, sites1: nat, counters: nat, md5: nat, hash: nat, ptr: nat, address: nat)
      ensures Valid() && fresh(Repr)
      ensures numValueSites0 == sites0 && numValueSites1 == sites1 && numCounters == counters
      ensures funcMd5 == md5 && funcHash == hash && funcPtr == ptr && tableAddress == address
      ensures forall i :: 0 <= i < |lists| ==> lists[i] == []
    {
      numValueSites0, numValueSites1, numCounters := sites0, sites1, counters;
      funcMd5, funcHash, funcPtr, tableAddress := md5, hash, ptr, address;
      values, maxNumVals := null, DEFAULT_NUM_VAL_PER_SITE;
      lists := seq(sites0 + sites1, _ => []);
      chains := seq(sites0 + sites1, _ => []);
      Repr := {this};
    }

    /** allocateValueProfileCounters: the first event of a record creates its table of empty lists and
        raises the limit on list lengths. The limit is raised even when the allocation fails. */
    method AllocateCounters(tableAllocates: bool) returns (ok: bool)
      requires Valid() && values == null
      modifies this
      ensures Valid() && fresh(Repr - old(Repr))
      ensures ok == tableAllocates && (values != null <==> ok)
      ensures chains == old(chains) && lists == old(lists)
      ensures maxNumVals == MAX_NUM_VAL_PER_SITE
    {
      maxNumVals := MAX_NUM_VAL_PER_SITE;
      if !tableAllocates { return false; }
      values := new ValueProfNode?[numValueSites0 + numValueSites1](_ => null);
      Repr := Repr + {values};
      return true;
    }

    /** instrumentTargetValueImpl, on a machine where nothing else touches this record meanwhile. */
    method Instrument(target: nat, counterIndex: nat, weight: nat, tableAllocates: bool, nodeAllocates: bool)
      requires Valid() && counterIndex < |lists| && target < U64 && weight < U64
      requires NoDeadMinimum(lists[counterIndex], target, weight)
      modifies Repr
      ensures Valid() && fresh(Repr - old(Repr))
      ensures (values != null) == (old(values) != null || (weight > 0 && tableAllocates))
      ensures lists == old(lists)[counterIndex := Record(old(lists[counterIndex]), MAX_NUM_VAL_PER_SITE,
                                                         Event(target, weight, nodeAllocates && values != null))]
    {
      if weight == 0 { return; }
      if values == null {
        var ok := AllocateCounters(tableAllocates);
        if !ok { return; }
      }
      Insert(target, counterIndex, weight, nodeAllocates);
    }

    /** The part of instrumentTargetValueImpl after the table is known to exist. */
    method Insert(target: nat, counterIndex: nat, weight: nat, nodeAllocates: bool)
      requires Valid() && values != null && counterIndex < |lists| && 0 < weight < U64
      requires NoDeadMinimum(lists[counterIndex], target, weight)
      modifies Repr
      ensures Valid() && fresh(Repr - old(Repr)) && values == old(values)
      ensures lists == old(lists)[counterIndex := Record(old(lists[counterIndex]), MAX_NUM_VAL_PER_SITE,
                                                         Event(target, weight, nodeAllocates))]
    {
      hide Record, FirstMin, IndexOf, Valid;
      ghost var list, all, e := lists[counterIndex], lists, Event(target, weight, nodeAllocates);
      var hit, minNode, prev, n, k, m := Search(target, counterIndex);
      TableFacts(this);
      ChainNode(this, counterIndex, k);
      if hit != null {
        var x := Entry(target, (hit.count + weight) % U64);
        KnownValue(list, MAX_NUM_VAL_PER_SITE, e, k);
        Rewrite(hit, counterIndex, k, x);
      } else if n >= maxNumVals {
        ChainNode(this, counterIndex, m);
        MinFound(list, minNode != null, m, if minNode != null then minNode.count else U64 - 1);
        var x := if minNode.count <= weight then Entry(target, weight)
                 else Entry(minNode.value, minNode.count - weight);
        FullList(list, MAX_NUM_VAL_PER_SITE, e, m);
        Rewrite(minNode, counterIndex, m, x);
      } else {
        NewValue(list, MAX_NUM_VAL_PER_SITE, e);
        if nodeAllocates {
          Extend(prev, counterIndex, target, weight);
        } else {
          assert all[counterIndex := list] == all;
        }
      }
    }

    /** The loop over a site's chain: stop at the target's node, or see all nodes and remember the first
        with the smallest count and the last one. */
    method Search(target: nat, counterIndex: nat)
      returns (hit: ValueProfNode?, minNode: ValueProfNode?, prev: ValueProfNode?, n: nat, ghost k: nat, ghost m: nat)
      requires Valid() && values != null && counterIndex < |lists|
      ensures var chain, list := chains[counterIndex], lists[counterIndex];
              && k == IndexOf(list, target)
              && (hit != null <==> k < |list|) && (hit != null ==> hit == chain[k])
              && (hit == null ==>
                    && n == |chain|
                    && prev == (if n == 0 then null else chain[n - 1])
                    && (minNode != null ==> m < n && minNode == chain[m])
                    && MinSoFar(list, n, minNode != null, m, if minNode != null then minNode.count else U64 - 1))
    {
      hide Valid;
      ChainNode(this, counterIndex, 0);
      ghost var chain, list := chains[counterIndex], lists[counterIndex];
      var minCount := U64 - 1;
      hit, prev, minNode, n, m := values[counterIndex], null, null, 0, 0;
      while hit != null && target != hit.value
        invariant n <= |chain| && hit == At(chain, n)
        invariant prev == (if n == 0 then null else chain[n - 1])
        invariant forall j :: 0 <= j < n ==> list[j].value != target
        invariant minCount >= 0 && MinSoFar(list, n, minNode != null, m, minCount)
        invariant minNode != null ==> minNode == chain[m]
        decreases |chain| - n
      {
        ChainNode(this, counterIndex, n);
        if hit.count < minCount {
          minCount, minNode, m := hit.count, hit, n;
        }
        prev := hit;
        hit := hit.next;
        n := n + 1;
      }
      ChainNode(this, counterIndex, n);
      k := n;
      IndexOfIs(list, target, k);
      ChainNode(this, counterIndex, m);
    }

    /** Stores into one existing node. */
    method Rewrite(node: ValueProfNode, ghost site: nat, ghost k: nat, x: Entry)
      requires Valid() && site < |chains| && k < |chains[site]| && node == chains[site][k]
      modifies node, `lists
      ensures Valid() && lists == old(lists)[site := old(lists)[site][k := x]]
    {
      hide At;
      NodeUnique(site, k);
      node.value := x.value;
      node.count := x.count;
      lists := lists[site := lists[site][k := x]];
    }

    /** No other place in a chain holds the node. */
    lemma NodeUnique(site: nat, k: nat)
      requires Valid() && site < |chains| && k < |chains[site]|
      ensures forall i, j :: 0 <= i < |chains| && 0 <= j < |chains[i]| && (i != site || j != k) ==> chains[i][j] != chains[site][k]
    {
    }

    /** A new node goes to the end of the chain. */
    method Extend(prev: ValueProfNode?, site: nat, target: nat, weight: nat)
      requires Valid() && values != null && site < |chains|
      requires prev == (if chains[site] == [] then null else chains[site][|chains[site]| - 1])
      modifies Repr
      ensures Valid() && fresh(Repr - old(Repr)) && values == old(values)
      ensures lists == old(lists)[site := old(lists)[site] + [Entry(target, weight)]]
    {
      var node := new ValueProfNode(site, |chains[site]|);
      node.value := target;
      node.count := node.count + weight;
      Link(prev, site, node);
      Attach(site, node);
    }

    /** All in order but for a node that hangs at the end of a site's chain and is not entered yet. */
    ghost predicate Hanging(site: nat, node: ValueProfNode)
      reads this, Repr
    {
      && this in Repr && node !in Repr && site < |chains|
      && |lists| == |chains| == numValueSites0 + numValueSites1
      && (forall i :: 0 <= i < |chains| ==> |chains[i]| == |lists[i]|)
      && values != null && values in Repr && values.Length == |chains| && maxNumVals == MAX_NUM_VAL_PER_SITE
      && (forall i :: 0 <= i < |chains| ==> values[i] == NextWith(i, 0, site, node))
      && (forall i, k {:trigger chains[i][k]} :: 0 <= i < |chains| && 0 <= k < |chains[i]| ==>
            chains[i][k] in Repr && IsNode(chains[i][k], i, k, NextWith(i, k + 1, site, node), lists[i][k]))
    }

    /** What the pointer to position k of a chain holds while the node hangs there. */
    ghost function NextWith(i: nat, k: nat, site: nat, node: ValueProfNode): ValueProfNode?
      requires i < |chains|
      reads this
    {
      if i == site && k == |chains[i]| then node else At(chains[i], k)
    }

    /** The compare-and-swap that hangs the node behind the last one, or at the head of an empty chain. */
    method Link(prev: ValueProfNode?, site: nat, node: ValueProfNode)
      requires Valid() && values != null && site < |chains| && node !in Repr
      requires prev == (if chains[site] == [] then null else chains[site][|chains[site]| - 1])
      modifies Repr
      ensures Hanging(site, node)
      ensures chains == old(chains) && lists == old(lists) && Repr == old(Repr) && values == old(values)
    {
      if values[site] == null {
        values[site] := node;
      } else {
        prev.next := node;
      }
    }

    /** Enters the hanging node. */
    ghost method Attach(site: nat, node: ValueProfNode)
      requires Hanging(site, node) && node.site == site && node.pos == |chains[site]| && node.next == null
      modifies `Repr, `lists, `chains
      ensures Valid() && Repr == old(Repr) + {node}
      ensures lists == old(lists)[site := old(lists)[site] + [Entry(node.value, node.count)]]
    {
      Repr := Repr + {node};
      lists := lists[site := lists[site] + [Entry(node.value, node.count)]];
      chains := chains[site := chains[site] + [node]];
    }
  }

  ghost function At(chain: seq<ValueProfNode>, k: nat): ValueProfNode?
  {
    if k < |chain| then chain[k] else null
  }

  /** What following the chain of a site finds. */
  lemma ChainNode(d: LLVMProfileData, site: nat, k: nat)
    requires d.Valid() && site < |d.lists|
    ensures |d.chains| == |d.lists| && |d.chains[site]| == |d.lists[site]|
    ensures d.values != null ==> d.values.Length == |d.lists| && d.values[site] == At(d.chains[site], 0)
    ensures d.values == null ==> d.lists[site] == []
    ensures k < |d.lists[site]| ==> d.chains[site][k] in d.Repr && IsNode(d.chains[site][k], site, k, At(d.chains[site], k + 1), d.lists[site][k])
  {
  }

  lemma TableFacts(d: LLVMProfileData)
    requires d.Valid()
    ensures d in d.Repr && (d.values != null ==> d.maxNumVals == MAX_NUM_VAL_PER_SITE)
    ensures |d.chains| == |d.lists| && forall i :: 0 <= i < |d.chains| ==> |d.chains[i]| == |d.lists[i]|
  {
  }

  ghost predicate IsNode(node: ValueProfNode, site: nat, pos: nat, next: ValueProfNode?, x: Entry)
    reads node
  {
    node.site == site && node.pos == pos && node.next == next && x == Entry(node.value, node.count)
  }

  /** A full list without the target has a node below UINT64_MAX, so that the search for the minimum,
      which starts from that value, finds one. */
  ghost predicate NoDeadMinimum(list: seq<Entry>, target: nat, weight: nat)
  {
    weight > 0 && |list| >= MAX_NUM_VAL_PER_SITE && IndexOf(list, target) == |list| ==>
      list[FirstMin(list)].count < U64 - 1
  }

  /** The search so far: the first of the smallest counts below UINT64_MAX among the first n nodes, if any. */
  ghost predicate MinSoFar(list: seq<Entry>, n: nat, found: bool, m: nat, count: nat)
    requires n <= |list|
  {
    if found then
      && m < n && count == list[m].count
      && (forall j :: 0 <= j < n ==> count <= list[j].count)
      && (forall j :: 0 <= j < m ==> count < list[j].count)
    else
      count == U64 - 1 && forall j :: 0 <= j < n ==> list[j].count >= U64 - 1
  }

  lemma MinFound(list: seq<Entry>, found: bool, m: nat, count: nat)
    requires list != [] && MinSoFar(list, |list|, found, m, count)
    requires list[FirstMin(list)].count < U64 - 1
    ensures found && m == FirstMin(list)
  {
  }

  lemma IndexOfIs(list: seq<Entry>, v: nat, k: nat)
    requires IsIndexOf(list, v, k)
    ensures IndexOf(list, v) == k
  {
  }

  datatype Call = Call(target: nat, weight: nat, tableAllocates: bool, nodeAllocates: bool)

  /** A call for one site of one of several records. */
  datatype SiteCall = SiteCall(record: nat, site: nat, call: Call)

  /** The calls that were made for a site, in order. */
  function CallsAt(calls: seq<SiteCall>, r: nat, k: nat): seq<Call>
  {
    if calls == [] then []
    else
      var c := calls[|calls| - 1];
      var before := CallsAt(calls[..|calls| - 1], r, k);
      if c.record == r && c.site == k then before + [c.call] else before
  }

  lemma CallsAtSnoc(calls: seq<SiteCall>, i: nat, r: nat, k: nat)
    requires i < |calls|
    ensures CallsAt(calls[..i + 1], r, k) ==
            if calls[i].record == r && calls[i].site == k then CallsAt(calls[..i], r, k) + [calls[i].call]
            else CallsAt(calls[..i], r, k)
  {
    assert calls[..i + 1][..i] == calls[..i];
  }

  lemma {:induction false} CallsAtPrefix(calls: seq<SiteCall>, i: nat, r: nat, k: nat)
    requires i <= |calls|
    ensures CallWeight(CallsAt(calls[..i], r, k)) <= CallWeight(CallsAt(calls, r, k))
    decreases |calls| - i
  {
    if i < |calls| {
      CallsAtSnoc(calls, i, r, k);
      CallWeightSnoc(CallsAt(calls[..i], r, k), calls[i].call);
      CallsAtPrefix(calls, i + 1, r, k);
    } else {
      assert calls[..i] == calls;
    }
  }

  function CallWeight(calls: seq<Call>): nat
  {
    if calls == [] then 0 else CallWeight(calls[..|calls| - 1]) + calls[|calls| - 1].weight
  }

  lemma CallWeightSnoc(calls: seq<Call>, c: Call)
    ensures CallWeight(calls + [c]) == CallWeight(calls) + c.weight
  {
    assert (calls + [c])[..|calls|] == calls;
  }

  // ---- which calls find memory ----

  /** The call can make the table of record r. */
  predicate MakesTable(c: SiteCall, r: nat)
  {
    c.record == r && c.call.weight > 0 && c.call.tableAllocates
  }

  /** Record r has its table after the calls, `tables` being the records that had one before. */
  predicate HasTable(tables: set<nat>, calls: seq<SiteCall>, r: nat)
  {
    r in tables || exists i :: 0 <= i < |calls| && MakesTable(calls[i], r)
  }

  lemma HasTableSnoc(tables: set<nat>, calls: seq<SiteCall>, i: nat, r: nat)
    requires i < |calls|
    ensures HasTable(tables, calls[..i + 1], r) <==> HasTable(tables, calls[..i], r) || MakesTable(calls[i], r)
  {
    var after := calls[..i + 1];
    assert after[..i] == calls[..i] && after[i] == calls[i];
    if m :| 0 <= m < |after| && MakesTable(after[m], r) { assert m < i ==> MakesTable(calls[..i][m], r); }
    if m :| 0 <= m < i && MakesTable(calls[..i][m], r) { assert MakesTable(after[m], r); }
  }

  /** The event that call i comes to. */
  function EventOf(tables: set<nat>, calls: seq<SiteCall>, i: nat): Event
    requires i < |calls|
  {
    var c := calls[i].call;
    Event(c.target, c.weight, c.nodeAllocates && HasTable(tables, calls[..i + 1], calls[i].record))
  }

  /** The events of a site. */
  function EventsAt(tables: set<nat>, calls: seq<SiteCall>, r: nat, k: nat): seq<Event>
  {
    if calls == [] then []
    else
      var n := |calls| - 1;
      var before := EventsAt(tables, calls[..n], r, k);
      if calls[n].record == r && calls[n].site == k then before + [EventOf(tables, calls, n)] else before
  }

  lemma EventsAtSnoc(tables: set<nat>, calls: seq<SiteCall>, i: nat, r: nat, k: nat)
    requires i < |calls|
    ensures EventsAt(tables, calls[..i + 1], r, k) ==
            if calls[i].record == r && calls[i].site == k then EventsAt(tables, calls[..i], r, k) + [EventOf(tables, calls, i)]
            else EventsAt(tables, calls[..i], r, k)
  {
    assert calls[..i + 1][..i] == calls[..i] && calls[..i + 1][..i + 1] == calls[..i + 1];
  }

  /** Each call for a site has its event there, in its turn. The event may add a node exactly if the call finds memory
      for one and the record has its table, be it made by this call or by an earlier one with a weight, for whichever site. */
  lemma EventOfCall(tables: set<nat>, calls: seq<SiteCall>, i: nat)
    requires i < |calls|
    ensures var c := calls[i];
            var events, turn := EventsAt(tables, calls, c.record, c.site), |CallsAt(calls[..i], c.record, c.site)|;
            && turn < |events| && events[turn].target == c.call.target && events[turn].weight == c.call.weight
            && (events[turn].allocates <==>
                  && c.call.nodeAllocates
                  && (c.record in tables
                      || exists m :: 0 <= m <= i && calls[m].record == c.record && calls[m].call.weight > 0 && calls[m].call.tableAllocates))
  {
    var c, upTo := calls[i], calls[..i + 1];
    EventsAtSnoc(tables, calls, i, c.record, c.site);
    EventsMatch(tables, calls[..i], c.record, c.site);
    EventsPrefix(tables, calls, i + 1, c.record, c.site);
    if m :| 0 <= m < |upTo| && MakesTable(upTo[m], c.record) { assert MakesTable(calls[m], c.record); }
    if m :| 0 <= m <= i && calls[m].record == c.record && calls[m].call.weight > 0 && calls[m].call.tableAllocates {
      assert MakesTable(upTo[m], c.record);
    }
  }

  lemma {:induction false} EventsPrefix(tables: set<nat>, calls: seq<SiteCall>, i: nat, r: nat, k: nat)
    requires i <= |calls|
    ensures EventsAt(tables, calls[..i], r, k) <= EventsAt(tables, calls, r, k)
    decreases |calls| - i
  {
    hide EventOf;
    if i < |calls| {
      EventsAtSnoc(tables, calls, i, r, k);
      EventsPrefix(tables, calls, i + 1, r, k);
    } else {
      assert calls[..i] == calls;
    }
  }

  /** The events are those calls, with each allocation question settled. */
  ghost predicate Matches(events: seq<Event>, calls: seq<Call>)
  {
    && |events| == |calls|
    && forall i :: 0 <= i < |calls| ==> events[i].target == calls[i].target && events[i].weight == calls[i].weight
  }

  lemma {:induction false} EventsMatch(tables: set<nat>, calls: seq<SiteCall>, r: nat, k: nat)
    ensures Matches(EventsAt(tables, calls, r, k), CallsAt(calls, r, k))
    decreases |calls|
  {
    if calls != [] { EventsMatch(tables, calls[..|calls| - 1], r, k); }
  }

  // ---- what a site should count ----

  /** The weight that the calls gave to v. */
  function WeightIn(calls: seq<Call>, v: nat): nat
  {
    if calls == [] then 0
    else
      var c := calls[|calls| - 1];
      WeightIn(calls[..|calls| - 1], v) + if c.target == v then c.weight else 0
  }

  /** The values that calls with a weight brought. */
  function ValuesIn(calls: seq<Call>): set<nat>
  {
    set i | 0 <= i < |calls| && calls[i].weight > 0 :: calls[i].target
  }

  lemma {:induction false} MatchedSums(events: seq<Event>, calls: seq<Call>, v: nat)
    requires Matches(events, calls)
    ensures TotalWeight(events) == CallWeight(calls) && WeightOf(events, v) == WeightIn(calls, v)
    decreases |calls|
  {
    if calls != [] { MatchedSums(Front(events), calls[..|calls| - 1], v); }
  }

  lemma {:induction false} MatchedValues(events: seq<Event>, calls: seq<Call>)
    requires Matches(events, calls)
    ensures Seen(events) == ValuesIn(calls)
    decreases |calls|
  {
    if calls != [] {
      var n := |calls| - 1;
      MatchedValues(Front(events), calls[..n]);
      var last := if calls[n].weight > 0 then {calls[n].target} else {};
      forall v ensures v in ValuesIn(calls) <==> v in ValuesIn(calls[..n]) + last {
        if i :| 0 <= i < |calls| && calls[i].weight > 0 && calls[i].target == v { assert i < n ==> calls[..n][i] == calls[i]; }
        if i :| 0 <= i < n && calls[..n][i].weight > 0 && calls[..n][i].target == v { assert calls[i] == calls[..n][i]; }
      }
      assert ValuesIn(calls) == ValuesIn(calls[..n]) + last;
    }
  }

  /** Every call with a weight finds memory for what it has to make. */
  predicate MemoryAlways(calls: seq<SiteCall>)
  {
    forall i :: 0 <= i < |calls| && calls[i].call.weight > 0 ==> calls[i].call.tableAllocates && calls[i].call.nodeAllocates
  }

  lemma {:induction false} EventsAllocate(tables: set<nat>, calls: seq<SiteCall>, r: nat, k: nat)
    requires MemoryAlways(calls)
    ensures AllAllocate(EventsAt(tables, calls, r, k))
    decreases |calls|
  {
    if calls != [] {
      var n := |calls| - 1;
      EventsAllocate(tables, calls[..n], r, k);
      if calls[n].call.weight > 0 { assert MakesTable(calls[..n + 1][n], calls[n].record); }
    }
  }

  /** The list that a site's calls should leave. */
  ghost function ListAt(tables: set<nat>, calls: seq<SiteCall>, r: nat, k: nat): seq<Entry>
  {
    Run(EventsAt(tables, calls, r, k), MAX_NUM_VAL_PER_SITE)
  }

  /** With memory always to be had, a site counts every value's full weight if and only if it saw at most 255 values. */
  lemma ExactAtIff(tables: set<nat>, calls: seq<SiteCall>, r: nat, k: nat)
    requires MemoryAlways(calls) && CallWeight(CallsAt(calls, r, k)) < U64
    ensures (forall v: nat :: Count(ListAt(tables, calls, r, k), v) == WeightIn(CallsAt(calls, r, k), v))
            <==> |ValuesIn(CallsAt(calls, r, k))| <= MAX_NUM_VAL_PER_SITE
  {
    hide Run, Count, WeightOf, WeightIn, ValuesIn, EventsAt;
    var events, own := EventsAt(tables, calls, r, k), CallsAt(calls, r, k);
    EventsMatch(tables, calls, r, k);
    EventsAllocate(tables, calls, r, k);
    MatchedValues(events, own);
    MatchedSums(events, own, 0);
    forall v: nat ensures WeightOf(events, v) == WeightIn(own, v) { MatchedSums(events, own, v); }
    ExactIffFewValues(events, MAX_NUM_VAL_PER_SITE);
  }

  // ---- all records together ----

  ghost function Reprs(ds: seq<LLVMProfileData>): (s: set<object>)
    reads ds
  {
    set i, o | 0 <= i < |ds| && o in ds[i].Repr :: o
  }

  ghost predicate Shaped(ds: seq<LLVMProfileData>, all: seq<seq<seq<Entry>>>)
  {
    |ds| == |all| && forall i :: 0 <= i < |ds| ==> |all[i]| == Sites(ds[i])
  }

  /** The records are all in order, and no two of them share memory. */
  ghost predicate Separate(ds: seq<LLVMProfileData>)
    reads ds, Reprs(ds)
  {
    && (forall i :: 0 <= i < |ds| ==> ds[i].Valid())
    && forall i, j :: 0 <= i < j < |ds| ==> ds[i].Repr !! ds[j].Repr
  }

  /** The lists that the heap holds, record by record. */
  ghost function AllLists(ds: seq<LLVMProfileData>): (all: seq<seq<seq<Entry>>>)
    reads ds
    ensures |all| == |ds| && forall r :: 0 <= r < |ds| ==> all[r] == ds[r].lists
  {
    if ds == [] then [] else AllLists(ds[..|ds| - 1]) + [ds[|ds| - 1].lists]
  }

  /** The records that have their table. */
  ghost function Tables(ds: seq<LLVMProfileData>): set<nat>
    reads ds
  {
    set r: nat | r < |ds| && ds[r].values != null
  }

  /** Lists and tables are what the calls leave. */
  ghost predicate Left(ds: seq<LLVMProfileData>, all: seq<seq<seq<Entry>>>, now: set<nat>, tables: set<nat>, calls: seq<SiteCall>)
  {
    && Shaped(ds, all)
    && (forall r, k :: 0 <= r < |all| && 0 <= k < |all[r]| ==> all[r][k] == ListAt(tables, calls, r, k))
    && forall r: nat :: r in now <==> r < |ds| && HasTable(tables, calls, r)
  }

  function Sites(d: LLVMProfileData): nat
  {
    d.numValueSites0 + d.numValueSites1
  }

  /** Calls are for sites that exist, with 64-bit values, and no site is given more weight than 64 bits hold. */
  ghost predicate CallsFit(ds: seq<LLVMProfileData>, calls: seq<SiteCall>)
  {
    && (forall i :: 0 <= i < |calls| ==>
          calls[i].record < |ds| && calls[i].site < Sites(ds[calls[i].record]) && calls[i].call.target < U64)
    && forall r, k :: 0 <= r < |ds| && 0 <= k < Sites(ds[r]) ==> CallWeight(CallsAt(calls, r, k)) < U64 - 1
  }

  /** Any interleaved history over all sites of all records, from empty lists on, leaves at every site the list of
      the run over the site's own events, and a table at every record whose calls could make it: so the bounds proved
      for runs hold of the memory the recorder leaves behind. A weight below UINT64_MAX at each site is all it takes
      for every call to find its minimum. */
  method RecordStream(ds: seq<LLVMProfileData>, calls: seq<SiteCall>)
    requires Separate(ds) && CallsFit(ds, calls)
    requires forall r, k :: 0 <= r < |ds| && 0 <= k < |ds[r].lists| ==> ds[r].lists[k] == []
    modifies Reprs(ds)
    ensures Separate(ds) && fresh(Reprs(ds) - old(Reprs(ds)))
    ensures Left(ds, AllLists(ds), Tables(ds), old(Tables(ds)), calls)
    ensures forall r, k :: 0 <= r < |ds| && 0 <= k < Sites(ds[r]) ==> SiteSettled(EventsAt(old(Tables(ds)), calls, r, k))
  {
    hide Run, ListAt, LLVMProfileData.Valid, Separate, Left, SiteSettled, CallsFit, Shaped, EventsAt;
    ghost var tables := Tables(ds);
    AllShaped(ds);
    NothingYet(ds, AllLists(ds), tables);
    assert calls[..0] == [];
    for i := 0 to |calls|
      invariant Separate(ds) && fresh(Reprs(ds) - old(Reprs(ds)))
      invariant Left(ds, AllLists(ds), Tables(ds), tables, calls[..i])
    {
      RecordNext(ds, calls, i, tables);
    }
    assert calls[..|calls|] == calls;
    AllSettled(ds, tables, calls);
  }

  /** What follows for one site: a valid list, as long as there are values that could get a node, up to 255. */
  ghost predicate SiteSettled(events: seq<Event>)
  {
    var list := Run(events, MAX_NUM_VAL_PER_SITE);
    ValidList(list, MAX_NUM_VAL_PER_SITE) && (|list| < 255 <==> |Landed(events)| < 255)
  }

  lemma AllShaped(ds: seq<LLVMProfileData>)
    requires Separate(ds)
    ensures Shaped(ds, AllLists(ds))
  {
    assert forall r :: 0 <= r < |ds| ==> ds[r].Valid();
  }

  lemma NothingYet(ds: seq<LLVMProfileData>, all: seq<seq<seq<Entry>>>, tables: set<nat>)
    requires Shaped(ds, all) && forall r :: r in tables ==> r < |ds|
    requires forall r, k :: 0 <= r < |all| && 0 <= k < |all[r]| ==> all[r][k] == []
    ensures Left(ds, all, tables, tables, [])
  {
    assert forall r: nat, k: nat :: ListAt(tables, [], r, k) == [];
  }

  lemma AllSettled(ds: seq<LLVMProfileData>, tables: set<nat>, calls: seq<SiteCall>)
    requires CallsFit(ds, calls)
    ensures forall r, k :: 0 <= r < |ds| && 0 <= k < Sites(ds[r]) ==> SiteSettled(EventsAt(tables, calls, r, k))
  {
    forall r, k | 0 <= r < |ds| && 0 <= k < Sites(ds[r]) ensures SiteSettled(EventsAt(tables, calls, r, k)) {
      var events := EventsAt(tables, calls, r, k);
      EventsMatch(tables, calls, r, k);
      MatchedSums(events, CallsAt(calls, r, k), 0);
      RunAccount(events, MAX_NUM_VAL_PER_SITE);
      DumperAssertIff(events);
    }
  }

  /** One call of the history. */
  method RecordNext(ds: seq<LLVMProfileData>, calls: seq<SiteCall>, i: nat, ghost tables: set<nat>)
    requires Separate(ds) && CallsFit(ds, calls) && i < |calls|
    requires Left(ds, AllLists(ds), Tables(ds), tables, calls[..i])
    modifies Reprs(ds)
    ensures Separate(ds) && fresh(Reprs(ds) - old(Reprs(ds)))
    ensures Left(ds, AllLists(ds), Tables(ds), tables, calls[..i + 1])
  {
    hide Run, ListAt, LLVMProfileData.Valid, Separate, Reprs, AllLists, Left, EventsAt, EventOf, HasTable;
    var r, k := calls[i].record, calls[i].site;
    ghost var all, now := AllLists(ds), Tables(ds);
    ghost var events := EventsAt(tables, calls[..i], r, k);
    NextFits(ds, calls, i, all, now, tables);
    RecordAt(ds, r, k, calls[i].call, events, EventOf(tables, calls, i));
    assert AllLists(ds) == all[r := all[r][k := Run(events + [EventOf(tables, calls, i)], MAX_NUM_VAL_PER_SITE)]];
    LeftStep(ds, all, AllLists(ds), now, Tables(ds), tables, calls, i);
  }

  lemma NextFits(ds: seq<LLVMProfileData>, calls: seq<SiteCall>, i: nat, all: seq<seq<seq<Entry>>>, now: set<nat>, tables: set<nat>)
    requires CallsFit(ds, calls) && i < |calls| && Left(ds, all, now, tables, calls[..i])
    ensures var r, k := calls[i].record, calls[i].site;
            var events := EventsAt(tables, calls[..i], r, k);
            && r < |all| && k < |all[r]| && all[r][k] == Run(events, MAX_NUM_VAL_PER_SITE)
            && TotalWeight(events) + calls[i].call.weight < U64 - 1 && calls[i].call.target < U64
    ensures var c := calls[i];
            EventOf(tables, calls, i) == Event(c.call.target, c.call.weight, c.call.nodeAllocates && (c.record in now || MakesTable(c, c.record)))
  {
    hide Matches, EventsAt, HasTable, MakesTable;
    var r, k := calls[i].record, calls[i].site;
    HasTableSnoc(tables, calls, i, r);
    CallsAtPrefix(calls, i + 1, r, k);
    CallsAtSnoc(calls, i, r, k);
    CallWeightSnoc(CallsAt(calls[..i], r, k), calls[i].call);
    EventsMatch(tables, calls[..i], r, k);
    MatchedSums(EventsAt(tables, calls[..i], r, k), CallsAt(calls[..i], r, k), 0);
  }

  /** Putting the call's event at the end of its site's events, and its record among those with a table. */
  lemma LeftStep(ds: seq<LLVMProfileData>, all: seq<seq<seq<Entry>>>, all': seq<seq<seq<Entry>>>, now: set<nat>, now': set<nat>,
                 tables: set<nat>, calls: seq<SiteCall>, i: nat)
    requires i < |calls| && Left(ds, all, now, tables, calls[..i])
    requires calls[i].record < |all| && calls[i].site < |all[calls[i].record]|
    requires var c := calls[i];
             var events := EventsAt(tables, calls[..i], c.record, c.site) + [EventOf(tables, calls, i)];
             all' == all[c.record := all[c.record][c.site := Run(events, MAX_NUM_VAL_PER_SITE)]]
    requires now' == if MakesTable(calls[i], calls[i].record) then now + {calls[i].record} else now
    ensures Left(ds, all', now', tables, calls[..i + 1])
  {
    hide Run, EventsAt, EventOf, HasTable;
    forall r, k | 0 <= r < |all'| && 0 <= k < |all'[r]| ensures all'[r][k] == ListAt(tables, calls[..i + 1], r, k) {
      EventsAtSnoc(tables, calls, i, r, k);
      assert all[r][k] == ListAt(tables, calls[..i], r, k);
    }
    forall r: nat ensures r in now' <==> r < |ds| && HasTable(tables, calls[..i + 1], r) { HasTableSnoc(tables, calls, i, r); }
  }

  /** One call leaves every other record alone. */
  method RecordAt(ds: seq<LLVMProfileData>, r: nat, k: nat, c: Call, ghost events: seq<Event>, ghost e: Event)
    requires Separate(ds) && r < |ds| && k < |ds[r].lists| && ds[r].lists[k] == Run(events, MAX_NUM_VAL_PER_SITE)
    requires c.target < U64 && TotalWeight(events) + c.weight < U64 - 1
    requires e == Event(c.target, c.weight, c.nodeAllocates && (ds[r].values != null || (c.weight > 0 && c.tableAllocates)))
    modifies Reprs(ds)
    ensures Separate(ds) && fresh(Reprs(ds) - old(Reprs(ds)))
    ensures forall j :: 0 <= j < |ds| && j != r ==> ds[j].lists == old(ds[j].lists) && ds[j].values == old(ds[j].values)
    ensures ds[r].lists == old(ds[r].lists)[k := Run(events + [e], MAX_NUM_VAL_PER_SITE)]
    ensures (ds[r].values != null) == (old(ds[r].values) != null || (c.weight > 0 && c.tableAllocates))
  {
    hide Run, LLVMProfileData.Valid;
    assert forall j :: 0 <= j < |ds| ==> ds[j] in ds[j].Repr && ds[j].Valid();
    RecordOne(ds[r], k, c, events, e);
  }

  method RecordOne(d: LLVMProfileData, site: nat, c: Call, ghost events: seq<Event>, ghost e: Event)
    requires d.Valid() && site < |d.lists| && d.lists[site] == Run(events, MAX_NUM_VAL_PER_SITE)
    requires c.target < U64 && TotalWeight(events) + c.weight < U64 - 1
    requires e == Event(c.target, c.weight, c.nodeAllocates && (d.values != null || (c.weight > 0 && c.tableAllocates)))
    modifies d.Repr
    ensures d.Valid() && fresh(d.Repr - old(d.Repr))
    ensures d.lists == old(d.lists)[site := Run(events + [e], MAX_NUM_VAL_PER_SITE)]
    ensures (d.values != null) == (old(d.values) != null || (c.weight > 0 && c.tableAllocates))
  {
    RunAccount(events, MAX_NUM_VAL_PER_SITE);
    CountsBelow(d.lists[site], TotalWeight(events));
    d.Instrument(c.target, site, c.weight, c.tableAllocates, c.nodeAllocates);
    assert Front(events + [e]) == events;
  }

  lemma CountsBelow(list: seq<Entry>, w: nat)
    requires Sum(list) <= w < U64 - 1
    ensures forall target, weight :: NoDeadMinimum(list, target, weight)
  {
    if list != [] { CountBelowSum(list, FirstMin(list)); }
  }
}
