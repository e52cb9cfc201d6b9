/** Placing the host-managed heap in a module's linear memory (memory_instantiate in aot_runtime.c).

    Page counts and sizes are 32-bit unsigned words and wrap; offsets into the memory are 64-bit and do not. */
module HeapPlacement {
  import opened Wrappers
  import opened Bits
  import opened Bytes

  const KB := 1024
  const MAX_PAGES := 65536
  const MAX_MEMORY := 0x1_0000_0000
  const HEAP_MAX := 0x4000_0000

  datatype Placement = Placement(pageSize: nat, initPages: nat, maxPages: nat, heapOffset: nat, heapSize: nat)

  /** Truncating division. */
  function Quot(x: nat, n: nat): nat
    requires n > 0
  {
    x / n
  }

  lemma QuotBounds(x: nat, n: nat)
    requires n > 0
    ensures Quot(x, n) * n <= x < Quot(x, n) * n + n
  {
    var q := x / n;
    assert x == q * n + x % n;
  }

  // ---- page arithmetic ----

  /** Bytes of the page in which the first `a` bytes of the memory end; a full page when they end on its edge. */
  function LastPageBytes(a: nat, n: nat): (r: nat)
    requires n > 0
    ensures 1 <= r <= n
  {
    if a % n == 0 then n else a % n
  }

  lemma AlignIs(v: nat, n: nat, q: int)
    requires n > 0 && q * n - n < v <= q * n
    ensures AlignUp(v, n) == q * n
  {
    ModIs(v + n - 1, n, q, v + n - 1 - q * n);
  }

  /** The remaining bytes of that page lead to the next page edge. */
  lemma PageEnd(a: nat, n: nat)
    requires n > 0
    ensures a + (n - LastPageBytes(a, n)) == AlignUp(a, n)
  {
    var q := a / n;
    assert a == q * n + a % n;
    if a % n == 0 {
      AlignIs(a, n, q);
    } else {
      assert (q + 1) * n == q * n + n;
      AlignIs(a, n, q + 1);
    }
  }

  /** The page count as the code computes it, in wrapping 32-bit arithmetic. */
  function PageCount(heap: nat, a: nat, n: nat): nat
    requires 0 < n
  {
    Quot(Wrap(Wrap(Wrap(heap - (n - LastPageBytes(a, n))) + n) - 1), n)
  }

  /** What it is meant to count: the page edges that the heap, put at `a`, pushes the end across. */
  function PagesPast(heap: nat, a: nat, n: nat): nat
    requires 0 < n
  {
    PastPositive(heap, a, n);
    Quot(AlignUp(a + heap, n) - AlignUp(a, n), n)
  }

  lemma PastPositive(heap: nat, a: nat, n: nat)
    requires n > 0
    ensures AlignUp(a + heap, n) == AlignUp(a, n) + Quot(heap + LastPageBytes(a, n) - 1, n) * n
    ensures Quot(AlignUp(a + heap, n) - AlignUp(a, n), n) == Quot(heap + LastPageBytes(a, n) - 1, n)
  {
    hide Quot, LastPageBytes, AlignUp;
    var last := LastPageBytes(a, n);
    PageEnd(a, n);
    AlignQuot(a, n);
    QuotBounds(heap + last - 1, n);
    EdgesPast(heap, a, n, last, Quot(AlignUp(a, n), n), Quot(heap + last - 1, n));
  }

  lemma AlignQuot(v: nat, n: nat)
    requires n > 0
    ensures AlignUp(v, n) == Quot(AlignUp(v, n), n) * n
  {
    hide AlignUp;
    ModIs(AlignUp(v, n), n, Quot(AlignUp(v, n), n), 0);
  }

  lemma EdgesPast(heap: nat, a: nat, n: nat, last: nat, q: nat, k: nat)
    requires n > 0 && AlignUp(a, n) == q * n == a + (n - last) && k * n <= heap + last - 1 < k * n + n
    ensures AlignUp(a + heap, n) == AlignUp(a, n) + k * n
    ensures Quot(AlignUp(a + heap, n) - AlignUp(a, n), n) == k
  {
    hide AlignUp, LastPageBytes;
    assert (q + k) * n == q * n + k * n;
    AlignIs(a + heap, n, q + k);
    ModIs(k * n, n, k, 0);
  }

  lemma WrapsBack(heap: nat, a: nat, n: nat)
    requires 0 < n < U32 && heap < U32
    ensures PageCount(heap, a, n) == Quot(Wrap(heap + LastPageBytes(a, n) - 1), n)
  {
    hide Wrap, LastPageBytes, Quot;
    var x := heap - (n - LastPageBytes(a, n));
    WrapInner(x, n);
    WrapInner(x + n, -1);
  }

  /** The subtraction may wrap below zero, and adding the page size wraps it back: the count is right exactly
      when the heap and the used part of the page together fit in 32 bits. */
  lemma PageCountIff(heap: nat, a: nat, n: nat)
    requires 0 < n < U32 && heap < U32
    ensures PageCount(heap, a, n) == PagesPast(heap, a, n) <==> heap + LastPageBytes(a, n) <= U32
  {
    hide Quot, LastPageBytes, AlignUp, PageCount;
    WrapsBack(heap, a, n);
    PastPositive(heap, a, n);
    var x := heap + LastPageBytes(a, n) - 1;
    if x >= U32 {
      assert Wrap(x) == x - U32;
      FewerPages(x, U32, n);
    }
  }

  lemma FewerPages(x: nat, d: nat, n: nat)
    requires 0 < n <= d <= x
    ensures Quot(x - d, n) < Quot(x, n)
  {
    hide Quot;
    QuotBounds(x - d, n);
    QuotBounds(x, n);
    if Quot(x, n) <= Quot(x - d, n) { MulMonotone(Quot(x, n), Quot(x - d, n), n); }
  }

  lemma MulMonotone(a: int, b: int, n: nat)
    requires a <= b
    ensures a * n <= b * n
  {
    if a < b { MulOrder(a, b, n); }
  }

  /** With a page size near 4 GB the count comes out wrong. */
  lemma PageCountWraps()
    ensures PageCount(HEAP_MAX, 3 * HEAP_MAX + 1, 3 * HEAP_MAX + 1) == 0
    ensures PagesPast(HEAP_MAX, 3 * HEAP_MAX + 1, 3 * HEAP_MAX + 1) == 1
  {
    var n := 3 * HEAP_MAX + 1;
    ModIs(n, n, 1, 0);
    PastPositive(HEAP_MAX, n, n);
    ModIs(HEAP_MAX + n - 1, n, 1, HEAP_MAX - 1);
    WrapsBack(HEAP_MAX, n, n);
  }

  // ---- relocating __heap_base ----

  /** Less than 1 KB of the page would be left above the heap. */
  predicate Tight(end: nat, n: nat)
    requires n > 0
  {
    n - LastPageBytes(end, n) < KB
  }

  /** Where `__heap_base` moves to. */
  function NewBase(heap: nat, base: nat, n: nat): nat
    requires n > 0
  {
    base + heap + if Tight(base + heap, n) then KB else 0
  }

  function PagesAdded(heap: nat, base: nat, n: nat): nat
    requires n > 0
  {
    PagesPast(heap, base, n) + if Tight(base + heap, n) then 1 else 0
  }

  /** What is left of the memory above the relocated base, when the old base was in the last page. */
  lemma Margin(heap: nat, base: nat, n: nat, pages: nat)
    requires n > 0 && base <= n * pages
    ensures n * (pages + PagesAdded(heap, base, n)) - NewBase(heap, base, n)
            == n * pages - AlignUp(base, n) + (n - LastPageBytes(base + heap, n))
               + if Tight(base + heap, n) then n - KB else 0
    ensures AlignUp(base, n) <= n * pages
  {
    hide Quot, LastPageBytes, AlignUp;
    PastPositive(heap, base, n);
    PageEnd(base + heap, n);
    AlignBelow(base, n, pages);
    MorePages(n, pages, PagesPast(heap, base, n), if Tight(base + heap, n) then 1 else 0);
  }

  lemma MorePages(n: nat, pages: nat, k: nat, b: nat)
    ensures n * (pages + (k + b)) == n * pages + k * n + n * b
  {
  }

  lemma AlignBelow(v: nat, n: nat, pages: nat)
    requires n > 0 && v <= n * pages
    ensures AlignUp(v, n) <= n * pages
  {
    hide Quot, AlignUp;
    AlignQuot(v, n);
    if pages < Quot(AlignUp(v, n), n) { MulOrder(pages, Quot(AlignUp(v, n), n), n); }
  }

  // ---- memory_instantiate ----

  /** The heap size a module instance asks for: a multiple of 8 of at most 1 GB. */
  method ClampHeapSize(requested: nat) returns (heap: nat)
    requires requested < U32
    ensures heap <= HEAP_MAX && heap % 8 == 0
    ensures requested <= 0x4000_0000 ==> heap == AlignUp(requested, 8)
    ensures requested > 0x4000_0000 ==> heap == if requested > 0xFFFF_FFF8 then 0 else 0x4000_0000
  {
    heap := Wrap(requested + 7) - Wrap(requested + 7) % 8;
    if heap > HEAP_MAX { heap := HEAP_MAX; }
  }

  predicate Single(initPages: nat, maxPages: nat) { initPages == maxPages == 1 }
  predicate Empty(initPages: nat, maxPages: nat) { initPages == maxPages == 0 }

  /** A page size and a heap with which nothing wraps. */
  predicate Regular(n: nat, heap: nat) { KB <= n && n + heap <= U32 }

  predicate AtBase(n: nat, initPages: nat, base: Option<nat>)
  {
    base.Some? && base.value < n * initPages
  }

  /** Where the heap ends up. */
  ghost predicate Placed(p: Placement, n: nat, initPages: nat, maxPages: nat, base: Option<nat>, heap: nat)
    requires n > 0
  {
    if heap == 0 then p == Placement(n, initPages, maxPages, n * initPages, 0)
    else if Single(initPages, maxPages) then p == Placement(n + heap, 1, 1, n, heap)
    else if Empty(initPages, maxPages) then p == Placement(heap, 1, 1, 0, heap)
    else if AtBase(n, initPages, base) then
      && p.pageSize == n && p.heapOffset == base.value && p.heapSize == heap
      && p.initPages == initPages + PagesAdded(heap, base.value, n)
      && p.maxPages == Least(maxPages + PagesAdded(heap, base.value, n), MAX_PAGES)
    else
      && p.pageSize == n && p.heapOffset == n * initPages && p.heapSize == AlignUp(heap, n) - KB
      && p.initPages == initPages + Quot(AlignUp(heap, n), n)
      && p.maxPages == Least(maxPages + Quot(AlignUp(heap, n), n), MAX_PAGES)
  }

  function Least(a: nat, b: nat): nat { if a < b then a else b }

  /** No room: 4 GB are taken already, the one page would outgrow 32 bits, or there would be too many pages. */
  predicate Refused(n: nat, initPages: nat, maxPages: nat, base: Option<nat>, heap: nat)
    requires n > 0
  {
    heap > 0 &&
    (|| n * initPages == MAX_MEMORY
     || (Single(initPages, maxPages) && n + heap >= U32)
     || (!Single(initPages, maxPages) && !Empty(initPages, maxPages)
         && initPages + (if AtBase(n, initPages, base) then PagesAdded(heap, base.value, n) else Quot(AlignUp(heap, n), n)) > MAX_PAGES))
  }

  /** Pages added for a heap at the base, in wrapping arithmetic. */
  function WrappedAtBase(heap: nat, base: nat, n: nat): nat
    requires n > 0
  {
    Wrap(PageCount(heap, base, n) + if Tight(base + heap, n) then 1 else 0)
  }

  /** Pages added for a heap on pages of its own, in wrapping arithmetic. */
  function WrappedPages(heap: nat, n: nat): nat
    requires n > 0
  {
    Quot(Wrap(Wrap(heap + n) - 1), n)
  }

  function WrappedSize(heap: nat, n: nat): nat
    requires n > 0
  {
    var size := Wrap(n * WrappedPages(heap, n));
    if size > 0 then Wrap(size - KB) else 0
  }

  /** The outcome for any page size, however the 32-bit sums wrap. */
  function Outcome(n: nat, initPages: nat, maxPages: nat, base: Option<nat>, heap: nat): Option<Placement>
    requires n > 0
  {
    if heap == 0 then Some(Placement(n, initPages, maxPages, n * initPages, 0))
    else if n * initPages == MAX_MEMORY then None
    else if Single(initPages, maxPages) then
      if Wrap(n + heap) < heap then None else Some(Placement(Wrap(n + heap), 1, 1, n, heap))
    else if Empty(initPages, maxPages) then Some(Placement(heap, 1, 1, 0, heap))
    else
      var atBase := AtBase(n, initPages, base);
      var added := if atBase then WrappedAtBase(heap, base.value, n) else WrappedPages(heap, n);
      if Wrap(initPages + added) > MAX_PAGES then None
      else Some(Placement(n, Wrap(initPages + added), Least(Wrap(maxPages + added), MAX_PAGES),
                          if atBase then base.value else n * initPages,
                          if atBase then heap else WrappedSize(heap, n)))
  }

  /** Where page size and heap fit 32 bits together and pages have 1 KB, nothing wraps: the outcome is the placement meant. */
  lemma OutcomeMeant(n: nat, initPages: nat, maxPages: nat, base: Option<nat>, heap: nat)
    requires 0 < n < U32 && initPages <= MAX_PAGES && maxPages <= MAX_PAGES && heap <= HEAP_MAX
    requires heap == 0 || Single(initPages, maxPages) || Empty(initPages, maxPages) || Regular(n, heap)
    ensures Outcome(n, initPages, maxPages, base, heap).None? <==> Refused(n, initPages, maxPages, base, heap)
    ensures Outcome(n, initPages, maxPages, base, heap).Some? ==>
              Placed(Outcome(n, initPages, maxPages, base, heap).value, n, initPages, maxPages, base, heap)
  {
    hide Quot, AlignUp, PagesPast, PageCount, Tight, WrappedPages;
    if heap > 0 && !Single(initPages, maxPages) && !Empty(initPages, maxPages) {
      if AtBase(n, initPages, base) {
        LastPage(base.value, n);
        MeantAtBase(heap, base.value, n);
      } else {
        MeantPages(heap, n);
      }
    }
  }

  /** The wrapped count is the count meant as long as heap and used part of the page fit 32 bits together. */
  lemma MeantAtBase(heap: nat, base: nat, n: nat)
    requires 0 < n < U32 && 0 < heap < U32 && heap + LastPageBytes(base, n) <= U32
    requires n >= KB || heap + n <= U32 / 2
    ensures WrappedAtBase(heap, base, n) == PagesAdded(heap, base, n)
    ensures PagesAdded(heap, base, n) <= if n >= KB then MAX_MEMORY / KB else heap + n
  {
    hide Quot, AlignUp, PageCount, Tight, LastPageBytes;
    PageCountIff(heap, base, n);
    PastPositive(heap, base, n);
    var x := heap + LastPageBytes(base, n) - 1;
    if n >= KB { SmallQuot(x, n); } else { QuotBelow(x, n); }
  }

  lemma QuotBelow(x: nat, n: nat)
    requires n > 0
    ensures Quot(x, n) <= x
  {
    hide Quot;
    QuotBounds(x, n);
    MulMonotone(1, n, Quot(x, n));
  }

  lemma LastPage(a: nat, n: nat)
    requires n > 0
    ensures LastPageBytes(a, n) <= n
  {
  }

  lemma MeantPages(heap: nat, n: nat)
    requires Regular(n, heap) && n < U32 && 0 < heap < U32
    ensures WrappedPages(heap, n) == Quot(AlignUp(heap, n), n) <= MAX_MEMORY / KB
    ensures WrappedSize(heap, n) == AlignUp(heap, n) - KB
  {
    hide Quot, AlignUp;
    OwnPages(heap, n);
  }

  /** The outcome of memory_instantiate. `globals` is the global data of the instance, where the relocated
      `__heap_base` is stored at `baseAt`; that happens even when the page count is then found too large. */
  method MemoryInstantiate(n: nat, initPages: nat, maxPages: nat, base: Option<nat>, heapSize: nat,
                           ownAllocator: bool, globals: array<byte>, baseAt: nat) returns (r: Option<Placement>)
    requires 0 < n < U32 && initPages <= MAX_PAGES && maxPages <= MAX_PAGES && heapSize <= HEAP_MAX
    requires base.Some? ==> baseAt + W32 <= globals.Length
    modifies globals
    ensures var heap := if ownAllocator then 0 else heapSize;
            && r == Outcome(n, initPages, maxPages, base, heap)
            && (if Relocates(n, initPages, maxPages, base, heap)
                then Wrote(old(globals[..]), globals[..], baseAt, baseAt + W32, LE(Wrap(NewBase(heap, base.value, n)), W32))
                else globals[..] == old(globals[..]))
    ensures var heap := if ownAllocator then 0 else heapSize;
            heap == 0 || Single(initPages, maxPages) || Empty(initPages, maxPages) || Regular(n, heap) ==>
              && (r.None? <==> Refused(n, initPages, maxPages, base, heap))
              && (r.Some? ==> Placed(r.value, n, initPages, maxPages, base, heap))
  {
    hide Quot, AlignUp, PagesPast, PageCount, Tight, NewBase, WrappedPages, WrappedSize, WrappedAtBase, LE, Refused, Placed;
    var heap := if heapSize > 0 && ownAllocator then 0 else heapSize;
    if heap == 0 || Single(initPages, maxPages) || Empty(initPages, maxPages) || Regular(n, heap) {
      OutcomeMeant(n, initPages, maxPages, base, heap);
    }
    if heap > 0 && n * initPages == MAX_MEMORY { return None; }
    if Single(initPages, maxPages) {
      var pageSize := Wrap(n + heap);
      if pageSize < heap { return None; }
      return Some(Placement(pageSize, initPages, maxPages, n, heap));
    }
    if heap == 0 { return Some(Placement(n, initPages, maxPages, n * initPages, 0)); }
    var pageSize, added, offset, size := n, 0, n * initPages, heap;
    if Empty(initPages, maxPages) {
      pageSize, added, offset := heap, 1, 0;
    } else if AtBase(n, initPages, base) {
      added := InsertAtBase(n, base.value, heap, globals, baseAt);
      offset := base.value;
    } else {
      added, size := NewPages(n, heap);
    }
    var init, max := Wrap(initPages + added), Wrap(maxPages + added);
    if init > MAX_PAGES { return None; }
    if max > MAX_PAGES { max := MAX_PAGES; }
    return Some(Placement(pageSize, init, max, offset, size));
  }

  predicate Relocates(n: nat, initPages: nat, maxPages: nat, base: Option<nat>, heap: nat)
  {
    && heap > 0 && n * initPages != MAX_MEMORY && !Single(initPages, maxPages) && !Empty(initPages, maxPages)
    && AtBase(n, initPages, base)
  }

  /** The heap goes where `__heap_base` was, and `__heap_base` goes behind it. */
  method InsertAtBase(n: nat, base: nat, heap: nat, globals: array<byte>, baseAt: nat) returns (added: nat)
    requires 0 < n < U32 && 0 < heap < U32 && baseAt + W32 <= globals.Length
    modifies globals
    ensures Wrote(old(globals[..]), globals[..], baseAt, baseAt + W32, LE(Wrap(NewBase(heap, base, n)), W32))
    ensures added == WrappedAtBase(heap, base, n)
  {
    hide Quot, AlignUp, LastPageBytes, Wrap, LE;
    var toEnd := n - LastPageBytes(base, n);
    added := Quot(Wrap(Wrap(Wrap(heap - toEnd) + n) - 1), n);
    WrapQuot(Wrap(Wrap(heap - toEnd) + n) - 1, n);
    var newBase := base + heap;
    if n - LastPageBytes(newBase, n) < KB {
      newBase := newBase + KB;
      added := Wrap(added + 1);
    }
    Store(globals, baseAt, Wrap(newBase), W32);
  }

  lemma WrapQuot(x: int, n: nat)
    requires n > 0
    ensures Wrap(Quot(Wrap(x), n)) == Quot(Wrap(x), n)
  {
    hide Quot;
    QuotBounds(Wrap(x), n);
    MulMonotone(1, n, Quot(Wrap(x), n));
  }

  lemma SmallQuot(x: nat, n: nat)
    requires n >= KB && x < U32
    ensures Quot(x, n) < MAX_MEMORY / KB
  {
    hide Quot;
    QuotBounds(x, n);
    if Quot(x, n) >= MAX_MEMORY / KB { MulMonotone(MAX_MEMORY / KB, Quot(x, n), n); MulLarge(n); }
  }

  lemma MulLarge(n: nat)
    requires n >= KB
    ensures MAX_MEMORY / KB * n >= U32
  {
  }

  /** The heap gets pages of its own behind the memory, all but the last KB of them. */
  method NewPages(n: nat, heap: nat) returns (added: nat, size: nat)
    requires 0 < n < U32 && 0 < heap < U32
    ensures added == WrappedPages(heap, n) && size == WrappedSize(heap, n)
  {
    hide Quot, AlignUp, Wrap;
    added := Quot(Wrap(Wrap(heap + n) - 1), n);
    size := Wrap(n * added);
    if size > 0 { size := Wrap(size - KB); }
  }

  lemma OwnPages(heap: nat, n: nat)
    requires 0 < n < U32 && 0 < heap < U32 && Regular(n, heap)
    ensures var added := Quot(Wrap(Wrap(heap + n) - 1), n);
            && added == Quot(AlignUp(heap, n), n) && added <= MAX_MEMORY / KB
            && n * added == AlignUp(heap, n) && n <= AlignUp(heap, n) < U32
  {
    hide Quot, AlignUp, Wrap;
    WrapInner(heap + n, -1);
    var q := Quot(heap + n - 1, n);
    QuotBounds(heap + n - 1, n);
    AlignIs(heap, n, q);
    AlignQuot(heap, n);
    QuotIs(n, q);
    SmallQuot(heap + n - 1, n);
    if q == 0 { assert false; }
    MulMonotone(1, q, n);
  }

  lemma QuotIs(n: nat, q: nat)
    requires n > 0
    ensures Quot(q * n, n) == q
  {
    ModIs(q * n, n, q, 0);
  }

  // ---- which page sizes are safe ----

  /** A call that goes through, with what the loader and aot_instantiate let in: a clamped heap, page counts of a valid
      module, and a base below 4 GB. */
  ghost predicate Succeeds(n: nat, pages: nat, maxPages: nat, base: Option<nat>, heap: nat)
    requires n > 0
  {
    && heap <= HEAP_MAX && heap % 8 == 0 && pages <= MAX_PAGES && maxPages <= MAX_PAGES && (base.Some? ==> base.value < U32)
    && Outcome(n, pages, maxPages, base, heap).Some?
  }

  /** At least 1 KB of the memory that the code then makes lies above the relocated base. */
  ghost predicate Roomy(n: nat, pages: nat, maxPages: nat, base: nat, heap: nat)
    requires n > 0 && Outcome(n, pages, maxPages, Some(base), heap).Some?
  {
    NewBase(heap, base, n) + KB <= n * Outcome(n, pages, maxPages, Some(base), heap).value.initPages
  }

  ghost predicate AlwaysRoomy(n: nat)
    requires n > 0
  {
    forall pages: nat, maxPages: nat, base: nat, heap: nat ::
      Succeeds(n, pages, maxPages, Some(base), heap) && Relocates(n, pages, maxPages, Some(base), heap) ==>
        Roomy(n, pages, maxPages, base, heap)
  }

  /** Every insertion at `__heap_base` leaves 1 KB above the relocated base exactly for pages of 2 KB up to 3 GB and one
      byte. Smaller pages are too small for it; with larger ones the wrapped page count comes out too small. */
  lemma MarginIff(n: nat)
    requires 0 < n < U32
    ensures AlwaysRoomy(n) <==> 2 * KB <= n <= 3 * HEAP_MAX + 1
  {
    hide Outcome, NewBase;
    if 2 * KB <= n <= 3 * HEAP_MAX + 1 {
      forall pages: nat, maxPages: nat, base: nat, heap: nat
        | Succeeds(n, pages, maxPages, Some(base), heap) && Relocates(n, pages, maxPages, Some(base), heap)
        ensures Roomy(n, pages, maxPages, base, heap)
      {
        MarginHolds(n, pages, maxPages, base, heap);
      }
    } else if n < 2 * KB {
      var base := if n >= 9 then 2 * n - 8 else n;
      TightPage(n, base);
    } else {
      LargePage(n);
    }
  }

  lemma OutcomeAtBase(n: nat, pages: nat, maxPages: nat, base: nat, heap: nat, added: nat)
    requires n > 0 && pages <= MAX_PAGES && added == WrappedAtBase(heap, base, n) && added < U32 - MAX_PAGES
    requires Relocates(n, pages, maxPages, Some(base), heap)
    ensures var r := Outcome(n, pages, maxPages, Some(base), heap);
            && (r.Some? <==> pages + added <= MAX_PAGES)
            && (r.Some? ==> r.value.pageSize == n && r.value.initPages == pages + added
                            && r.value.heapOffset == base && r.value.heapSize == heap)
  {
    hide WrappedAtBase, WrappedPages, WrappedSize;
  }

  lemma MarginHolds(n: nat, pages: nat, maxPages: nat, base: nat, heap: nat)
    requires 2 * KB <= n <= 3 * HEAP_MAX + 1
    requires Succeeds(n, pages, maxPages, Some(base), heap) && Relocates(n, pages, maxPages, Some(base), heap)
    ensures Roomy(n, pages, maxPages, base, heap)
  {
    hide Outcome, NewBase, PagesAdded, WrappedAtBase, LastPageBytes;
    if heap + LastPageBytes(base, n) <= U32 {
      MeantAtBase(heap, base, n);
      AboveBase(heap, base, n, pages);
      OutcomeAtBase(n, pages, maxPages, base, heap, PagesAdded(heap, base, n));
    } else {
      LastPage(base, n);
      EdgeBase(n, pages, base);
      OutcomeAtBase(n, pages, maxPages, base, heap, 0);
    }
  }

  /** The one page size at which a count may wrap without harm: the base is on a page edge, and its page is free. */
  lemma EdgeBase(n: nat, pages: nat, base: nat)
    requires n == 3 * HEAP_MAX + 1 && base < U32 && base < n * pages && LastPageBytes(base, n) == n
    ensures WrappedAtBase(HEAP_MAX, base, n) == 0 && NewBase(HEAP_MAX, base, n) + KB <= n * pages
  {
    hide Quot;
    var q := base / n;
    assert base == q * n + base % n && base % n == 0;
    if q >= 2 { MulMonotone(2, q, n); }
    if pages <= q { MulMonotone(pages, q, n); }
    MulMonotone(q + 1, pages, n);
    ModIs(base + HEAP_MAX, n, q, HEAP_MAX);
    WrapsBack(HEAP_MAX, base, n);
    QuotIs(n, 0);
  }

  /** Eight bytes of heap at the end of two small pages. */
  lemma TightPage(n: nat, base: nat)
    requires 0 < n < 2 * KB && base == if n >= 9 then 2 * n - 8 else n
    ensures Relocates(n, 2, 2, Some(base), 8) && Succeeds(n, 2, 2, Some(base), 8) && !Roomy(n, 2, 2, base, 8)
  {
    hide AlignUp, Quot, Outcome;
    Margin(8, base, n, 2);
    PastPositive(8, base, n);
    if n >= 9 {
      ModIs(2 * n, n, 2, 0);
      ModIs(2 * n - 8, n, 1, n - 8);
      PageEnd(base, n);
    } else {
      ModIs(n, n, 1, 0);
    }
    FewQuot(8 + LastPageBytes(base, n) - 1, n);
    MeantAtBase(8, base, n);
    OutcomeAtBase(n, 2, 2, base, 8, PagesAdded(8, base, n));
  }

  lemma FewQuot(x: nat, n: nat)
    requires n > 0 && x <= n + 7
    ensures Quot(x, n) <= 9
  {
    hide Quot;
    QuotBounds(x, n);
    if Quot(x, n) >= 10 { MulMonotone(10, Quot(x, n), n); }
  }

  /** A full heap behind 3 GB and one byte of a larger page: no page is added, and the heap ends beyond the memory. */
  lemma LargePage(n: nat)
    requires 3 * HEAP_MAX + 1 < n < U32
    ensures var base := 3 * HEAP_MAX + 1;
            && Relocates(n, 1, 2, Some(base), HEAP_MAX) && Succeeds(n, 1, 2, Some(base), HEAP_MAX)
            && !Roomy(n, 1, 2, base, HEAP_MAX)
            && !Inside(Outcome(n, 1, 2, Some(base), HEAP_MAX).value, HEAP_MAX)
  {
    hide Quot, Outcome;
    var base := 3 * HEAP_MAX + 1;
    ModIs(base, n, 0, base);
    ModIs(base + HEAP_MAX, n, 1, base + HEAP_MAX - n);
    WrapsBack(HEAP_MAX, base, n);
    QuotIs(n, 0);
    OutcomeAtBase(n, 1, 2, base, HEAP_MAX, 0);
  }

  ghost predicate AlwaysInside(n: nat)
    requires n > 0
  {
    forall pages: nat, maxPages: nat, base: Option<nat>, heap: nat :: Succeeds(n, pages, maxPages, base, heap) ==>
      Inside(Outcome(n, pages, maxPages, base, heap).value, heap)
  }

  /** The heap always lies inside the memory, with at most 1 KB less than was asked for, exactly for pages of 1 KB up
      to 3 GB. Below, taking 1 KB off a smaller area wraps; above, the page count does. */
  lemma InsideIff(n: nat)
    requires 0 < n < U32
    ensures AlwaysInside(n) <==> KB <= n <= 3 * HEAP_MAX
  {
    hide Outcome;
    if KB <= n <= 3 * HEAP_MAX {
      forall pages: nat, maxPages: nat, base: Option<nat>, heap: nat | Succeeds(n, pages, maxPages, base, heap)
        ensures Inside(Outcome(n, pages, maxPages, base, heap).value, heap)
      {
        OutcomeMeant(n, pages, maxPages, base, heap);
        PlacementSound(Outcome(n, pages, maxPages, base, heap).value, n, pages, maxPages, base, heap);
      }
    } else if n < KB {
      NoRoomForKB(n);
    } else {
      NoPageAdded(n);
    }
  }

  /** Eight bytes of heap on small pages of their own. */
  lemma NoRoomForKB(n: nat)
    requires 0 < n < KB
    ensures Succeeds(n, 0, 2, None, 8) && !Inside(Outcome(n, 0, 2, None, 8).value, 8)
  {
    hide Quot, Outcome;
    var q := Quot(n + 7, n);
    SmallArea(n, q);
    assert WrappedPages(8, n) == q;
    TooSmallFor(n, q);
    OutcomeNewPages(n, 0, 2, 8, q);
  }

  lemma SmallArea(n: nat, q: nat)
    requires 0 < n < KB && q == Quot(n + 7, n)
    ensures 1 <= q <= 9 && 0 < n * q < KB
  {
    hide Quot;
    QuotBounds(n + 7, n);
    FewQuot(n + 7, n);
    if n >= 8 { ModIs(n + 7, n, 1, 7); QuotOf(n + 7, n); }
    MulMonotone(1, q, n);
  }

  lemma QuotOf(x: nat, n: nat)
    requires n > 0
    ensures Quot(x, n) == x / n
  {
  }

  lemma TooSmallFor(n: nat, q: nat)
    requires n > 0 && q == WrappedPages(8, n) && 0 < n * q < KB
    ensures WrappedSize(8, n) == U32 + n * q - KB && n * (0 + q) == n * q
  {
    hide WrappedPages;
    WrapPeriod(n * q - KB, 1);
  }

  /** A full heap on pages of more than 3 GB. */
  lemma NoPageAdded(n: nat)
    requires 3 * HEAP_MAX < n < U32
    ensures Succeeds(n, 0, 2, None, HEAP_MAX) && !Inside(Outcome(n, 0, 2, None, HEAP_MAX).value, HEAP_MAX)
  {
    hide Quot, Outcome;
    WrapInner(HEAP_MAX + n, -1);
    var x := HEAP_MAX + n - 1 - U32;
    assert Wrap(HEAP_MAX + n - 1) == x;
    QuotBounds(x, n);
    if Quot(x, n) > 0 { MulMonotone(1, Quot(x, n), n); }
    assert n * 0 == 0;
    OutcomeNewPages(n, 0, 2, HEAP_MAX, 0);
  }

  lemma OutcomeNewPages(n: nat, pages: nat, maxPages: nat, heap: nat, added: nat)
    requires n > 0 && heap > 0 && pages <= MAX_PAGES && added == WrappedPages(heap, n) && added < U32 - MAX_PAGES
    requires !Single(pages, maxPages) && !Empty(pages, maxPages) && n * pages != MAX_MEMORY && pages + added <= MAX_PAGES
    ensures var r := Outcome(n, pages, maxPages, None, heap);
            r.Some? && r.value.pageSize == n && r.value.initPages == pages + added
            && r.value.heapOffset == n * pages && r.value.heapSize == WrappedSize(heap, n)
  {
    hide WrappedPages, WrappedSize;
  }

  /** The assertion that the largest memory stays within 4 GB. */
  ghost predicate Limited(n: nat, pages: nat, maxPages: nat, base: Option<nat>, heap: nat)
    requires n > 0 && Outcome(n, pages, maxPages, base, heap).Some?
  {
    var p := Outcome(n, pages, maxPages, base, heap).value;
    p.pageSize * p.maxPages <= MAX_MEMORY
  }

  ghost predicate AlwaysLimited(n: nat)
    requires n > 0
  {
    forall pages: nat, maxPages: nat, base: Option<nat>, heap: nat :: Succeeds(n, pages, maxPages, base, heap) ==>
      Limited(n, pages, maxPages, base, heap)
  }

  /** That assertion always holds exactly for pages of at most 64 KB. */
  lemma LimitIff(n: nat)
    requires 0 < n < U32
    ensures AlwaysLimited(n) <==> n <= MAX_PAGES
  {
    hide WrappedAtBase, WrappedPages, WrappedSize;
    if n <= MAX_PAGES {
      forall pages: nat, maxPages: nat, base: Option<nat>, heap: nat | Succeeds(n, pages, maxPages, base, heap)
        ensures Limited(n, pages, maxPages, base, heap)
      {
        WithinMemory(n, Outcome(n, pages, maxPages, base, heap).value.maxPages);
      }
    } else {
      MulMonotone(MAX_PAGES + 1, n, MAX_PAGES);
      assert Succeeds(n, 0, MAX_PAGES, None, 0) && !Limited(n, 0, MAX_PAGES, None, 0);
    }
  }

  // ---- what every successful placement gives ----

  /** The heap lies inside the enlarged memory and has at most 1 KB less than was asked for. */
  ghost predicate Inside(p: Placement, heap: nat)
  {
    p.heapOffset + p.heapSize <= p.pageSize * p.initPages && p.heapSize + KB >= heap
  }

  /** The relocated base: behind the heap, with pages of 2 KB at least 1 KB below the memory's end, and with pages of at
      most 64 KB stored without loss. */
  ghost predicate BaseMoved(p: Placement, n: nat, base: nat, heap: nat)
    requires n > 0
  {
    && base == p.heapOffset && p.heapOffset + p.heapSize <= NewBase(heap, base, n)
    && (n >= 2 * KB ==> NewBase(heap, base, n) + KB <= p.pageSize * p.initPages)
    && (n <= MAX_PAGES ==> Wrap(NewBase(heap, base, n)) == NewBase(heap, base, n))
  }

  /** A placement for which nothing wraps is sound and puts the heap behind what the module itself uses. */
  lemma PlacementSound(p: Placement, n: nat, initPages: nat, maxPages: nat, base: Option<nat>, heap: nat)
    requires 0 < n < U32 && initPages <= MAX_PAGES && maxPages <= MAX_PAGES && heap <= HEAP_MAX
    requires heap == 0 || Single(initPages, maxPages) || Empty(initPages, maxPages) || Regular(n, heap)
    requires !Refused(n, initPages, maxPages, base, heap) && Placed(p, n, initPages, maxPages, base, heap)
    ensures Inside(p, heap)
    ensures Relocates(n, initPages, maxPages, base, heap) ==> BaseMoved(p, n, base.value, heap)
    ensures !Relocates(n, initPages, maxPages, base, heap) ==> p.heapOffset >= n * initPages
    ensures Single(initPages, maxPages) || Empty(initPages, maxPages) || n <= MAX_PAGES ==>
              p.pageSize * p.maxPages <= MAX_MEMORY
  {
    if heap == 0 || Single(initPages, maxPages) || Empty(initPages, maxPages) {
      SoundAppended(p, n, initPages, maxPages, base, heap);
    } else {
      SoundPages(p, n, initPages, maxPages, base, heap);
      if AtBase(n, initPages, base) {
        SoundAtBase(p, n, initPages, maxPages, base, heap);
      } else {
        SoundNewPages(p, n, initPages, maxPages, base, heap);
      }
    }
  }

  /** What is placed where, and that it is no more than needed. Without pages of its own the heap has the size asked for: at
      the base if that lies in the memory, else right behind it. On pages of its own it starts behind the memory and ends
      1 KB below the end. No more pages are added than these take, the largest memory grows by as much as the initial one
      unless 65536 pages cap it, and only a heap that leads past 65536 pages is refused. */
  lemma PlacementExact(n: nat, initPages: nat, maxPages: nat, base: Option<nat>, heap: nat)
    requires 0 < n < U32 && initPages <= maxPages <= 65536 && 0 < heap <= 0x4000_0000 && 1024 <= n && n + heap <= U32
    requires n * initPages < 0x1_0000_0000 && !Single(initPages, maxPages) && !Empty(initPages, maxPages)
    ensures var r := Outcome(n, initPages, maxPages, base, heap);
            if base.Some? && base.value < n * initPages then
              var end := base.value + heap;
              var grown := AlignUp(end, n) - AlignUp(base.value, n) + if AlignUp(end, n) - end < 1024 then n else 0;
              && NewBase(heap, base.value, n) == end + (if AlignUp(end, n) - end < 1024 then 1024 else 0)
              && (r.None? <==> n * initPages + grown > n * 65536)
              && (r.Some? ==> r.value.heapOffset == base.value && r.value.heapSize == heap && n * r.value.initPages == n * initPages + grown)
            else
              && (r.None? <==> n * initPages + AlignUp(heap, n) > n * 65536)
              && (r.Some? ==> r.value.heapOffset == n * initPages && r.value.heapSize == AlignUp(heap, n) - 1024
                              && n * r.value.initPages == n * initPages + AlignUp(heap, n))
    ensures var r := Outcome(n, initPages, maxPages, base, heap);
            r.Some? ==> r.value.pageSize == n && r.value.initPages <= r.value.maxPages <= 65536
                        && (r.value.maxPages == 65536 || r.value.maxPages - r.value.initPages == maxPages - initPages)
  {
    hide AlignUp, Quot, LastPageBytes, Outcome, PagesAdded;
    OutcomeMeant(n, initPages, maxPages, base, heap);
    if base.Some? && base.value < n * initPages {
      var added := PagesAdded(heap, base.value, n);
      GrownAtBase(heap, base.value, n);
      PageEnd(base.value + heap, n);
      PageSums(n, initPages, added);
    } else {
      AlignQuot(heap, n);
      PageSums(n, initPages, Quot(AlignUp(heap, n), n));
    }
  }

  lemma GrownAtBase(heap: nat, base: nat, n: nat)
    requires n > 0
    ensures PagesAdded(heap, base, n) * n
            == AlignUp(base + heap, n) - AlignUp(base, n) + if AlignUp(base + heap, n) - (base + heap) < 1024 then n else 0
  {
    hide AlignUp, Quot, LastPageBytes;
    PastPositive(heap, base, n);
    PageEnd(base + heap, n);
  }

  lemma PageSums(n: nat, pages: nat, added: nat)
    requires n > 0
    ensures n * (pages + added) == n * pages + added * n
    ensures pages + added > MAX_PAGES <==> n * pages + added * n > n * MAX_PAGES
  {
    if pages + added > MAX_PAGES { MulOrder(MAX_PAGES, pages + added, n); } else { MulMonotone(pages + added, MAX_PAGES, n); }
  }

  /** A memory of one page that cannot grow becomes a page that ends with the heap; one of no pages becomes the heap. */
  lemma AppendedExact(n: nat, base: Option<nat>, heap: nat)
    requires 0 < n < U32 && 0 < heap <= 0x4000_0000
    ensures Outcome(n, 1, 1, base, heap) == if n + heap >= U32 then None else Some(Placement(n + heap, 1, 1, n, heap))
    ensures Outcome(n, 0, 0, base, heap) == Some(Placement(heap, 1, 1, 0, heap))
    ensures forall pages: nat, max: nat :: Outcome(n, pages, max, base, 0) == Some(Placement(n, pages, max, n * pages, 0))
  {
  }

  lemma SoundAppended(p: Placement, n: nat, initPages: nat, maxPages: nat, base: Option<nat>, heap: nat)
    requires 0 < n < U32 && initPages <= MAX_PAGES && maxPages <= MAX_PAGES
    requires heap == 0 || Single(initPages, maxPages) || Empty(initPages, maxPages)
    requires !Refused(n, initPages, maxPages, base, heap) && Placed(p, n, initPages, maxPages, base, heap)
    requires heap <= HEAP_MAX
    ensures Inside(p, heap) && p.heapOffset >= n * initPages
    ensures Single(initPages, maxPages) || Empty(initPages, maxPages) || n <= MAX_PAGES ==>
              p.pageSize * p.maxPages <= MAX_MEMORY
  {
    hide PagesAdded, AlignUp, Quot;
    if heap == 0 {
      WithinMemory(n, maxPages);
      assert Empty(initPages, maxPages) ==> n * maxPages == 0;
    }
  }

  lemma SoundPages(p: Placement, n: nat, initPages: nat, maxPages: nat, base: Option<nat>, heap: nat)
    requires n > 0 && heap > 0 && !Single(initPages, maxPages) && !Empty(initPages, maxPages)
    requires Placed(p, n, initPages, maxPages, base, heap)
    ensures n <= MAX_PAGES ==> p.pageSize * p.maxPages <= MAX_MEMORY
  {
    hide PagesAdded, AlignUp, Quot;
    WithinMemory(n, p.maxPages);
  }

  lemma SoundAtBase(p: Placement, n: nat, initPages: nat, maxPages: nat, base: Option<nat>, heap: nat)
    requires 0 < n < U32 && heap > 0 && !Single(initPages, maxPages) && !Empty(initPages, maxPages) && Regular(n, heap)
    requires AtBase(n, initPages, base)
    requires !Refused(n, initPages, maxPages, base, heap) && Placed(p, n, initPages, maxPages, base, heap)
    ensures Inside(p, heap) && BaseMoved(p, n, base.value, heap)
  {
    hide PagesAdded, NewBase, Wrap;
    var added, newBase := PagesAdded(heap, base.value, n), NewBase(heap, base.value, n);
    BaseFits(n, initPages, base.value, heap);
    InMemory(p, n, initPages + added, base.value, heap, newBase, n * (initPages + added));
  }

  lemma BaseFits(n: nat, pages: nat, base: nat, heap: nat)
    requires n >= KB && base < n * pages && pages + PagesAdded(heap, base, n) <= MAX_PAGES
    ensures var size, newBase := n * (pages + PagesAdded(heap, base, n)), NewBase(heap, base, n);
            && base + heap <= newBase && base + heap <= size && (n >= 2 * KB ==> newBase + KB <= size)
            && (n <= MAX_PAGES ==> Wrap(newBase) == newBase)
  {
    hide PagesAdded, NewBase, Wrap;
    var all := pages + PagesAdded(heap, base, n);
    EndInside(heap, base, n, pages);
    if n >= 2 * KB { AboveBase(heap, base, n, pages); } else { MulMonotone(n, 2 * KB, all); }
    WithinMemory(n, all);
    if n <= MAX_PAGES { WrapSmall(NewBase(heap, base, n)); }
  }

  lemma InMemory(p: Placement, n: nat, pages: nat, base: nat, heap: nat, newBase: nat, size: nat)
    requires n > 0 && p.pageSize == n && p.initPages == pages && p.heapOffset == base && p.heapSize == heap
    requires size == n * pages && newBase == NewBase(heap, base, n)
    requires base + heap <= newBase && base + heap <= size && (n >= 2 * KB ==> newBase + KB <= size)
    requires n <= MAX_PAGES ==> Wrap(newBase) == newBase
    ensures Inside(p, heap) && BaseMoved(p, n, base, heap)
  {
    hide NewBase, Wrap;
  }

  lemma WrapSmall(x: nat)
    requires x < U32
    ensures Wrap(x) == x
  {
  }

  lemma SoundNewPages(p: Placement, n: nat, initPages: nat, maxPages: nat, base: Option<nat>, heap: nat)
    requires 0 < n < U32 && heap > 0 && !Single(initPages, maxPages) && !Empty(initPages, maxPages) && Regular(n, heap)
    requires !AtBase(n, initPages, base) && Placed(p, n, initPages, maxPages, base, heap)
    ensures Inside(p, heap) && p.heapOffset >= n * initPages
  {
    hide Quot, AlignUp;
    OwnPagesEnd(heap, n, initPages);
    BehindMemory(p, n, initPages, heap, AlignUp(heap, n), Quot(AlignUp(heap, n), n), n * initPages);
  }

  lemma BehindMemory(p: Placement, n: nat, initPages: nat, heap: nat, size: nat, added: nat, offset: nat)
    requires p.pageSize == n && p.heapOffset == offset && p.heapSize == size - KB && p.initPages == initPages + added
    requires n * (initPages + added) == offset + size && size >= heap
    ensures Inside(p, heap)
  {
  }

  lemma OwnPagesEnd(heap: nat, n: nat, pages: nat)
    requires 0 < n && 0 < heap
    ensures n * (pages + Quot(AlignUp(heap, n), n)) == n * pages + AlignUp(heap, n)
    ensures AlignUp(heap, n) >= n
  {
    hide Quot, AlignUp;
    AlignQuot(heap, n);
    MorePages(n, pages, Quot(AlignUp(heap, n), n), 0);
    AtLeastPage(heap, n);
  }

  lemma AtLeastPage(heap: nat, n: nat)
    requires 0 < n && 0 < heap
    ensures AlignUp(heap, n) >= n
  {
    hide Quot, AlignUp;
    AlignQuot(heap, n);
    if Quot(AlignUp(heap, n), n) == 0 { assert false; }
    MulMonotone(1, Quot(AlignUp(heap, n), n), n);
  }

  lemma EndInside(heap: nat, base: nat, n: nat, pages: nat)
    requires n > 0 && base <= n * pages
    ensures base + heap <= NewBase(heap, base, n) && base + heap <= n * (pages + PagesAdded(heap, base, n))
    ensures n >= KB ==> NewBase(heap, base, n) <= n * (pages + PagesAdded(heap, base, n))
  {
    Margin(heap, base, n, pages);
  }

  lemma AboveBase(heap: nat, base: nat, n: nat, pages: nat)
    requires n >= 2 * KB && base <= n * pages
    ensures base + heap <= NewBase(heap, base, n) && NewBase(heap, base, n) + KB <= n * (pages + PagesAdded(heap, base, n))
  {
    Margin(heap, base, n, pages);
  }

  lemma WithinMemory(n: nat, pages: nat)
    requires pages <= MAX_PAGES
    ensures n <= MAX_PAGES ==> n * pages <= MAX_MEMORY
  {
    if n <= MAX_PAGES {
      MulMonotone(n, MAX_PAGES, pages);
      assert MAX_PAGES * pages <= MAX_MEMORY;
    }
  }
}
