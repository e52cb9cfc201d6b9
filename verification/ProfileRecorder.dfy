/** The per-site value lists of the profile recorder (aot_runtime.c, instrumentTargetValueImpl). */
module ProfileRecorder {
  import opened Wrappers
  import opened Bytes

  const DEFAULT_NUM_VAL_PER_SITE := 24
  const MAX_NUM_VAL_PER_SITE := 255

  datatype Entry = Entry(value: nat, count: nat)

  // ---- what one event does to a site's list ----

  /** i is the first position that holds `value`, or the length if none does. */
  ghost predicate IsIndexOf(list: seq<Entry>, value: nat, i: nat)
  {
    && i <= |list|
    && (i < |list| ==> list[i].value == value)
    && (forall j :: 0 <= j < i ==> list[j].value != value)
  }

  ghost function IndexOf(list: seq<Entry>, value: nat): (i: nat)
    ensures IsIndexOf(list, value, i)
  {
    IndexExists(list, value);
    var i :| IsIndexOf(list, value, i);
    i
  }

  lemma {:induction false} IndexExists(list: seq<Entry>, value: nat)
    ensures exists i :: IsIndexOf(list, value, i)
  {
    if list == [] {
      assert IsIndexOf(list, value, 0);
    } else {
      var n := |list| - 1;
      IndexExists(list[..n], value);
      var i :| IsIndexOf(list[..n], value, i);
      assert IsIndexOf(list, value, if i == n && list[n].value != value then |list| else i);
    }
  }

  /** The first of the nodes with the smallest count. */
  ghost predicate IsFirstMin(list: seq<Entry>, m: nat)
  {
    && m < |list|
    && (forall j :: 0 <= j < |list| ==> list[m].count <= list[j].count)
    && (forall j :: 0 <= j < m ==> list[m].count < list[j].count)
  }

  ghost function FirstMin(list: seq<Entry>): (m: nat)
    requires list != []
    ensures IsFirstMin(list, m)
  {
    MinExists(list);
    var m :| IsFirstMin(list, m);
    m
  }

  lemma {:induction false} MinExists(list: seq<Entry>)
    requires list != []
    ensures exists m :: IsFirstMin(list, m)
  {
    var n := |list| - 1;
    if n == 0 {
      assert IsFirstMin(list, 0);
    } else {
      MinExists(list[..n]);
      var m: nat :| IsFirstMin(list[..n], m);
      assert IsFirstMin(list, if list[n].count < list[m].count then n else m);
    }
  }

  datatype Event = Event(target: nat, weight: nat, allocates: bool)

  /** What an event does to a list: nothing, rewrite the node at i, or append a node. */
  datatype Change = Same | Put(i: nat, entry: Entry) | Append(entry: Entry)

  /** Bump the value's own count, append a node, or, on a full list, take the weight off the smallest
      count or hand that node over to the new value. */
  ghost function ChangeOf(list: seq<Entry>, limit: nat, e: Event): (c: Change)
    requires limit > 0
    ensures c.Put? ==> c.i < |list| && (c.entry.value == list[c.i].value || IndexOf(list, c.entry.value) == |list|)
    ensures c.Append? ==> |list| < limit && IndexOf(list, c.entry.value) == |list|
  {
    var i := IndexOf(list, e.target);
    if e.weight == 0 then Same
    else if i < |list| then Put(i, Entry(e.target, (list[i].count + e.weight) % U64))
    else if |list| >= limit then
      var m := FirstMin(list);
      Put(m, if list[m].count <= e.weight then Entry(e.target, e.weight)
             else list[m].(count := list[m].count - e.weight))
    else if e.allocates then Append(Entry(e.target, e.weight))
    else Same
  }

  /** The list after one event. */
  ghost function Record(list: seq<Entry>, limit: nat, e: Event): seq<Entry>
    requires limit > 0
  {
    match ChangeOf(list, limit, e)
    case Same => list
    case Put(i, x) => list[i := x]
    case Append(x) => list + [x]
  }

  /** A value with a node: its first node counts on. */
  lemma KnownValue(list: seq<Entry>, limit: nat, e: Event, k: nat)
    requires limit > 0 && e.weight > 0 && k < |list| && list[k].value == e.target
    requires forall j :: 0 <= j < k ==> list[j].value != e.target
    ensures Record(list, limit, e) == list[k := Entry(e.target, (list[k].count + e.weight) % U64)]
  {
    assert IndexOf(list, e.target) == k;
  }

  /** A new value on a list short of its limit: a new last node, if memory can be had. Without a weight nothing happens. */
  lemma NewValue(list: seq<Entry>, limit: nat, e: Event)
    requires |list| < limit && forall j :: 0 <= j < |list| ==> list[j].value != e.target
    ensures Record(list, limit, e) == if e.weight > 0 && e.allocates then list + [Entry(e.target, e.weight)] else list
  {
    assert IndexOf(list, e.target) == |list|;
  }

  /** A new value on a full list: the first of the nodes with the smallest count gives way, or gives up the weight if its
      count is larger. */
  lemma FullList(list: seq<Entry>, limit: nat, e: Event, m: nat)
    requires 0 < limit <= |list| && e.weight > 0 && forall j :: 0 <= j < |list| ==> list[j].value != e.target
    requires m < |list| && forall j :: 0 <= j < |list| ==> list[m].count <= list[j].count
    requires forall j :: 0 <= j < m ==> list[m].count < list[j].count
    ensures Record(list, limit, e) == list[m := if list[m].count <= e.weight then Entry(e.target, e.weight)
                                                else Entry(list[m].value, list[m].count - e.weight)]
  {
    var f := FirstMin(list);
    assert list[f].count == list[m].count && f == m;
    assert IndexOf(list, e.target) == |list|;
  }

  // ---- runs over a stream of events ----

  ghost function Run(events: seq<Event>, limit: nat): seq<Entry>
    requires limit > 0
  {
    if events == [] then [] else Record(Run(Front(events), limit), limit, Last(events))
  }

  function Front(events: seq<Event>): seq<Event>
    requires events != []
  {
    events[..|events| - 1]
  }

  function Last(events: seq<Event>): Event
    requires events != []
  {
    events[|events| - 1]
  }

  /** The weight the stream really gave to v. */
  function WeightOf(events: seq<Event>, v: nat): nat
  {
    if events == [] then 0
    else WeightOf(Front(events), v) + (if Last(events).target == v then Last(events).weight else 0)
  }

  function TotalWeight(events: seq<Event>): nat
  {
    if events == [] then 0 else TotalWeight(Front(events)) + Last(events).weight
  }

  /** The count the list holds for v, zero if v has no node. */
  ghost function Count(list: seq<Entry>, v: nat): nat
  {
    var i := IndexOf(list, v);
    if i < |list| then list[i].count else 0
  }

  function Sum(list: seq<Entry>): nat
  {
    if list == [] then 0 else Sum(list[..|list| - 1]) + list[|list| - 1].count
  }

  /** Weight that left the list: taken off a minimum, evicted with a replaced node, or lost for want of
      memory; with the number of times the first two happened. */
  datatype Losses = Losses(decremented: nat, evicted: nat, dropped: nat, decrements: nat, replacements: nat)

  ghost function StepLosses(list: seq<Entry>, limit: nat, e: Event, l: Losses): Losses
    requires limit > 0
  {
    if e.weight == 0 || IndexOf(list, e.target) < |list| then l
    else if |list| >= limit then
      var m := FirstMin(list);
      if list[m].count <= e.weight
      then l.(evicted := l.evicted + list[m].count, replacements := l.replacements + 1)
      else l.(decremented := l.decremented + e.weight, decrements := l.decrements + 1)
    else if e.allocates then l
    else l.(dropped := l.dropped + e.weight)
  }

  ghost function RunLosses(events: seq<Event>, limit: nat): Losses
    requires limit > 0
  {
    if events == [] then Losses(0, 0, 0, 0, 0)
    else StepLosses(Run(Front(events), limit), limit, Last(events), RunLosses(Front(events), limit))
  }

  ghost predicate Distinct(list: seq<Entry>)
  {
    forall i, j :: 0 <= i < j < |list| ==> list[i].value != list[j].value
  }

  ghost predicate ValidList(list: seq<Entry>, limit: nat)
  {
    && Distinct(list)
    && |list| <= limit
    && forall i :: 0 <= i < |list| ==> 1 <= list[i].count < U64
  }

  lemma {:induction false} SumUpdate(list: seq<Entry>, i: nat, e: Entry)
    requires i < |list|
    ensures Sum(list[i := e]) + list[i].count == Sum(list) + e.count
  {
    var n := |list| - 1;
    if i < n {
      SumUpdate(list[..n], i, e);
      assert list[i := e][..n] == list[..n][i := e];
    } else {
      assert list[i := e][..n] == list[..n];
    }
  }

  lemma CountAt(list: seq<Entry>, i: nat)
    requires Distinct(list) && i < |list|
    ensures IndexOf(list, list[i].value) == i && Count(list, list[i].value) == list[i].count
  {
  }

  lemma CountAbsent(list: seq<Entry>, v: nat)
    requires forall i :: 0 <= i < |list| ==> list[i].value != v
    ensures IndexOf(list, v) == |list| && Count(list, v) == 0
  {
  }

  /** Every count after a step, in terms of the counts before it. */
  lemma CountAfterUpdate(list: seq<Entry>, i: nat, e: Entry, v: nat)
    requires Distinct(list) && i < |list|
    requires e.value == list[i].value || IndexOf(list, e.value) == |list|
    ensures Distinct(list[i := e])
    ensures Count(list[i := e], v) ==
            if v == e.value then e.count else if v == list[i].value then 0 else Count(list, v)
  {
    var list' := list[i := e];
    assert Distinct(list');
    var k := IndexOf(list, v);
    if v == e.value {
      CountAt(list', i);
    } else if v == list[i].value {
      CountAt(list, i);
      CountAbsent(list', v);
    } else if k < |list| {
      CountAt(list', k);
    } else {
      CountAbsent(list', v);
    }
  }

  lemma CountAfterAppend(list: seq<Entry>, e: Entry, v: nat)
    requires Distinct(list) && IndexOf(list, e.value) == |list|
    ensures Distinct(list + [e])
    ensures Count(list + [e], v) == if v == e.value then e.count else Count(list, v)
  {
    var list' := list + [e];
    var k := IndexOf(list, v);
    if v == e.value {
      CountAt(list', |list|);
    } else if k < |list| {
      CountAt(list', k);
    } else {
      CountAbsent(list', v);
    }
  }

  lemma ChangedCounts(list: seq<Entry>, limit: nat, e: Event)
    requires limit > 0 && ValidList(list, limit) && Sum(list) + e.weight < U64
    ensures var c := ChangeOf(list, limit, e);
            && (!c.Same? ==> 1 <= c.entry.count < U64)
            && (c.Put? && c.entry.value == e.target == list[c.i].value
                ==> c.entry.count == list[c.i].count + e.weight)
  {
    var c := ChangeOf(list, limit, e);
    if c.Put? { CountBelowSum(list, c.i); }
  }

  lemma ValidAfterPut(list: seq<Entry>, limit: nat, i: nat, x: Entry)
    requires ValidList(list, limit) && i < |list| && 1 <= x.count < U64
    requires x.value == list[i].value || IndexOf(list, x.value) == |list|
    ensures ValidList(list[i := x], limit)
  {
    CountAfterUpdate(list, i, x, 0);
  }

  lemma ValidAfterAppend(list: seq<Entry>, limit: nat, x: Entry)
    requires ValidList(list, limit) && |list| < limit && 1 <= x.count < U64
    requires IndexOf(list, x.value) == |list|
    ensures ValidList(list + [x], limit) && Sum(list + [x]) == Sum(list) + x.count
  {
    CountAfterAppend(list, x, 0);
    assert (list + [x])[..|list|] == list;
  }

  /** One event: the list stays valid, and the event's weight is accounted for to the last unit. */
  lemma StepAccount(list: seq<Entry>, limit: nat, e: Event, l: Losses)
    requires limit > 0 && ValidList(list, limit) && Sum(list) + e.weight < U64
    ensures ValidList(Record(list, limit, e), limit)
    ensures var l' := StepLosses(list, limit, e, l);
            Sum(Record(list, limit, e)) + 2 * l'.decremented + l'.evicted + l'.dropped
            == Sum(list) + 2 * l.decremented + l.evicted + l.dropped + e.weight
  {
    ChangedCounts(list, limit, e);
    match ChangeOf(list, limit, e) {
      case Same =>
      case Put(i, x) =>
        ValidAfterPut(list, limit, i, x);
        SumUpdate(list, i, x);
      case Append(x) =>
        ValidAfterAppend(list, limit, x);
    }
  }

  lemma {:induction false} CountBelowSum(list: seq<Entry>, i: nat)
    requires i < |list|
    ensures list[i].count <= Sum(list)
  {
    if i < |list| - 1 { CountBelowSum(list[..|list| - 1], i); }
  }

  /** One event keeps the two-sided estimate of every value's weight. */
  lemma StepEstimate(list: seq<Entry>, limit: nat, e: Event, l: Losses, v: nat, w: nat)
    requires limit > 0 && ValidList(list, limit) && Sum(list) + e.weight < U64
    requires Count(list, v) <= w <= Count(list, v) + l.decremented + l.evicted + l.dropped
    ensures var w' := w + (if e.target == v then e.weight else 0);
            var c' := Count(Record(list, limit, e), v);
            var l' := StepLosses(list, limit, e, l);
            c' <= w' <= c' + l'.decremented + l'.evicted + l'.dropped
  {
    ChangedCounts(list, limit, e);
    match ChangeOf(list, limit, e) {
      case Same =>
      case Put(i, x) =>
        CountAt(list, i);
        CountAfterUpdate(list, i, x, v);
      case Append(x) =>
        CountAfterAppend(list, x, v);
    }
  }

  /** Over any stream: values stay distinct, at most `limit` of them, every count at least one, and the
      stream's weight is exactly what the list holds plus what it gave up, a decrement counting twice
      (once for the event that vanished and once for the unit it cancelled). */
  lemma {:induction false} RunAccount(events: seq<Event>, limit: nat)
    requires limit > 0 && TotalWeight(events) < U64
    ensures ValidList(Run(events, limit), limit)
    ensures var l := RunLosses(events, limit);
            TotalWeight(events) == Sum(Run(events, limit)) + 2 * l.decremented + l.evicted + l.dropped
  {
    if events != [] {
      RunAccount(Front(events), limit);
      StepAccount(Run(Front(events), limit), limit, Last(events), RunLosses(Front(events), limit));
    }
  }

  /** No count exceeds the true weight of its value, and what it falls short by is bounded by the
      weight the list gave up in all. */
  lemma {:induction false} RunEstimate(events: seq<Event>, limit: nat, v: nat)
    requires limit > 0 && TotalWeight(events) < U64
    ensures var c, l := Count(Run(events, limit), v), RunLosses(events, limit);
            c <= WeightOf(events, v) <= c + l.decremented + l.evicted + l.dropped
  {
    if events != [] {
      RunAccount(Front(events), limit);
      RunEstimate(Front(events), limit, v);
      StepEstimate(Run(Front(events), limit), limit, Last(events), RunLosses(Front(events), limit), v,
                   WeightOf(Front(events), v));
    }
  }

  /** With weight-one events, as both profiling entry points send them, the stream's length is the sum of
      the counts plus twice the decrements plus the replacements plus the events lost for want of memory. */
  lemma {:induction false} UnitRun(events: seq<Event>, limit: nat)
    requires limit > 0 && |events| < U64
    requires forall i :: 0 <= i < |events| ==> events[i].weight == 1
    ensures TotalWeight(events) == |events|
    ensures var l := RunLosses(events, limit);
            && l.decremented == l.decrements && l.evicted == l.replacements
            && |events| == Sum(Run(events, limit)) + 2 * l.decrements + l.replacements + l.dropped
  {
    if events != [] {
      UnitRun(Front(events), limit);
      RunAccount(Front(events), limit);
      assert TotalWeight(events) == |events|;
    }
    RunAccount(events, limit);
  }

  // ---- when the counts are exact ----

  function Seen(events: seq<Event>): set<nat>
  {
    if events == [] then {}
    else Seen(Front(events)) + (if Last(events).weight > 0 then {Last(events).target} else {})
  }

  function Values(list: seq<Entry>): set<nat>
  {
    set i | 0 <= i < |list| :: list[i].value
  }

  lemma {:induction false} ValuesCard(list: seq<Entry>)
    requires Distinct(list)
    ensures |Values(list)| == |list|
  {
    if list != [] {
      var n := |list| - 1;
      ValuesCard(list[..n]);
      assert Values(list) == Values(list[..n]) + {list[n].value};
    }
  }

  lemma {:induction false} SeenGrows(events: seq<Event>)
    ensures events != [] ==> Seen(Front(events)) <= Seen(events) && |Seen(Front(events))| <= |Seen(events)|
  {
    if events != [] {
      var s, t := Seen(Front(events)), Seen(events);
      assert t == s + (t - s);
    }
  }

  /** Every event that has a weight could get a node. */
  predicate AllAllocate(events: seq<Event>)
  {
    forall i :: 0 <= i < |events| && events[i].weight > 0 ==> events[i].allocates
  }

  lemma {:induction false} NothingLost(events: seq<Event>, limit: nat)
    requires limit > 0 && TotalWeight(events) < U64
    requires AllAllocate(events)
    requires |Seen(events)| <= limit
    ensures RunLosses(events, limit) == Losses(0, 0, 0, 0, 0)
    ensures Values(Run(events, limit)) == Seen(events)
  {
    if events != [] {
      var front, e := Front(events), Last(events);
      var list := Run(front, limit);
      SeenGrows(events);
      NothingLost(front, limit);
      RunAccount(front, limit);
      ValuesCard(list);
      ValuesAfter(list, limit, e);
      if e.weight > 0 && IndexOf(list, e.target) == |list| {
        assert e.target !in Values(list);
        assert Seen(events) == Seen(front) + {e.target};
      }
    }
  }

  lemma ValuesAfter(list: seq<Entry>, limit: nat, e: Event)
    requires limit > 0 && (e.weight > 0 ==> e.allocates)
    requires |list| < limit || e.weight == 0 || IndexOf(list, e.target) < |list|
    ensures Values(Record(list, limit, e)) == Values(list) + (if e.weight > 0 then {e.target} else {})
  {
    match ChangeOf(list, limit, e) {
      case Same =>
      case Put(i, x) =>
        ValuesPut(list, i, x);
        assert list[i].value in Values(list);
      case Append(x) =>
        ValuesAppend(list, x);
    }
  }

  lemma ValuesPut(list: seq<Entry>, i: nat, x: Entry)
    requires i < |list| && x.value == list[i].value
    ensures Values(list[i := x]) == Values(list)
  {
    assert forall k :: 0 <= k < |list| ==> list[i := x][k].value == list[k].value;
  }

  lemma ValuesAppend(list: seq<Entry>, x: Entry)
    ensures Values(list + [x]) == Values(list) + {x.value}
  {
    var list' := list + [x];
    assert list'[|list|].value == x.value;
    assert forall k :: 0 <= k < |list| ==> list'[k] == list[k];
  }

  /** When every allocation succeeds, all counts equal the true weights if and only if the stream
      carried no more distinct values than a site's list may hold. */
  lemma ExactIffFewValues(events: seq<Event>, limit: nat)
    requires limit > 0 && TotalWeight(events) < U64
    requires AllAllocate(events)
    ensures (forall v: nat :: Count(Run(events, limit), v) == WeightOf(events, v)) <==> |Seen(events)| <= limit
  {
    var list := Run(events, limit);
    if |Seen(events)| <= limit {
      NothingLost(events, limit);
      forall v: nat ensures Count(list, v) == WeightOf(events, v) { RunEstimate(events, limit, v); }
    } else {
      RunAccount(events, limit);
      ValuesCard(list);
      var missing := Seen(events) - Values(list);
      if missing == {} {
        SubsetCard(Seen(events), Values(list));
      }
      var v :| v in missing;
      SeenWeight(events, v);
      assert forall i :: 0 <= i < |list| ==> list[i].value in Values(list);
      CountAbsent(list, v);
    }
  }

  lemma {:induction false} SeenWeight(events: seq<Event>, v: nat)
    requires v in Seen(events)
    ensures WeightOf(events, v) > 0
  {
    if v in Seen(Front(events)) { SeenWeight(Front(events), v); }
  }

  // ---- how long a site's list gets ----

  /** The values that had an event with a node to spare for them. */
  function Landed(events: seq<Event>): set<nat>
  {
    if events == [] then {}
    else Landed(Front(events)) + (if Last(events).weight > 0 && Last(events).allocates then {Last(events).target} else {})
  }

  lemma StepDistinct(list: seq<Entry>, limit: nat, e: Event)
    requires limit > 0 && Distinct(list)
    ensures Distinct(Record(list, limit, e))
    ensures |list| <= |Record(list, limit, e)| && (|list| <= limit ==> |Record(list, limit, e)| <= limit)
  {
    match ChangeOf(list, limit, e) {
      case Same =>
      case Put(i, x) => CountAfterUpdate(list, i, x, 0);
      case Append(x) => CountAfterAppend(list, x, 0);
    }
  }

  /** As long as the list is short of its limit, an event adds its value if a node can be had for it. */
  lemma ShortListAfter(list: seq<Entry>, limit: nat, e: Event)
    requires limit > 0 && |list| < limit
    ensures Values(Record(list, limit, e)) ==
            Values(list) + if e.weight > 0 && e.allocates then {e.target} else {}
  {
    if e.weight > 0 ==> e.allocates {
      ValuesAfter(list, limit, e);
    } else {
      match ChangeOf(list, limit, e)
      case Put(i, x) => ValuesPut(list, i, x);
      case _ =>
    }
  }

  /** A site's list is as long as there are values that could get a node, up to the limit, and holds just those
      while it is shorter. No event ever shortens it. */
  lemma {:induction false} SiteLength(events: seq<Event>, limit: nat)
    requires limit > 0
    ensures Distinct(Run(events, limit))
    ensures |Run(events, limit)| == if |Landed(events)| <= limit then |Landed(events)| else limit
    ensures |Landed(events)| < limit ==> Values(Run(events, limit)) == Landed(events)
  {
    if events != [] {
      var front, e := Front(events), Last(events);
      var list := Run(front, limit);
      SiteLength(front, limit);
      StepDistinct(list, limit, e);
      SubsetCard(Landed(front), Landed(events));
      if |Landed(front)| < limit {
        ShortListAfter(list, limit, e);
        ValuesCard(Run(events, limit));
      }
    }
  }

  /** The dumper's assertion of fewer than 255 nodes at a site holds exactly for a site at which fewer than 255
      different values could get a node; without allocation failures these are the values seen. */
  lemma DumperAssertIff(events: seq<Event>)
    ensures |Run(events, MAX_NUM_VAL_PER_SITE)| < 255 <==> |Landed(events)| < 255
    ensures AllAllocate(events) ==> Landed(events) == Seen(events)
  {
    SiteLength(events, MAX_NUM_VAL_PER_SITE);
    if AllAllocate(events) { AllLand(events); }
  }

  lemma {:induction false} AllLand(events: seq<Event>)
    requires AllAllocate(events)
    ensures Landed(events) == Seen(events)
  {
    if events != [] { AllLand(Front(events)); }
  }

  /** The longest list does occur: one event for each of as many different values as the limit. */
  lemma {:induction false} FullSiteReachable(n: nat, limit: nat)
    requires 0 < limit && n <= limit
    ensures Run(OneEach(n), limit) == OneNodeEach(n)
  {
    if n > 0 {
      FullSiteReachable(n - 1, limit);
      assert Front(OneEach(n)) == OneEach(n - 1);
      CountAbsent(OneNodeEach(n - 1), n - 1);
      assert OneNodeEach(n) == OneNodeEach(n - 1) + [Entry(n - 1, 1)];
    }
  }

  function OneEach(n: nat): (events: seq<Event>)
    ensures |events| == n
  {
    seq(n, i requires 0 <= i < n => Event(i, 1, true))
  }

  function OneNodeEach(n: nat): (list: seq<Entry>)
    ensures |list| == n
  {
    seq(n, i requires 0 <= i < n => Entry(i, 1))
  }

  /** A list only holds values that the stream brought. */
  lemma {:induction false} RunTargets(events: seq<Event>, limit: nat, i: nat)
    requires limit > 0 && forall k :: 0 <= k < |events| ==> events[k].target < U64
    requires i < |Run(events, limit)|
    ensures Run(events, limit)[i].value < U64
  {
    if events != [] {
      var front, e := Front(events), Last(events);
      var list := Run(front, limit);
      if i < |list| { RunTargets(front, limit, i); }
    }
  }
}
