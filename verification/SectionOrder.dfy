/** Splitting an AOT file into sections and checking their order (resolve_execute_mode, create_sections and
    load_from_sections in aot_loader.c). The file starts at an address that is a multiple of four. */
module SectionOrder {
  import opened Wrappers
  import opened Bytes

  const TARGET_INFO := 0
  const TEXT := 2
  const RELOCATION := 5
  const SIGNATURE := 6
  const CUSTOM := 100
  const NO_SECTION := 0xFFFF_FFFF
  const HEADER := 8
  const E_TYPE_XIP := 4

  /** A section of the file: its type and where its body lies. */
  datatype Raw = Raw(kind: nat, at: nat, size: nat)

  /** A section of the list, with the body that its loader gets to see. */
  datatype Section = Section(kind: nat, body: seq<byte>)

  function Word(b: seq<byte>, p: nat): nat
    requires p + W32 <= |b|
  {
    FromLE(b[p..p + W32])
  }

  predicate KnownKind(kind: nat)
  {
    kind < SIGNATURE || kind == CUSTOM
  }

  // ---- splitting ----

  /** The section whose header is next at p. */
  function RawAt(b: seq<byte>, p: nat): (r: Option<Raw>)
    ensures r.Some? ==> KnownKind(r.value.kind) && p < r.value.at && r.value.at + r.value.size <= |b|
  {
    var q := Aligned(p);
    if q + W32 > |b| || !KnownKind(Word(b, q)) || q + HEADER > |b| then None
    else
      var size := Word(b, q + W32);
      if q + HEADER + size > |b| then None else Some(Raw(Word(b, q), q + HEADER, size))
  }

  function SplitFrom(b: seq<byte>, p: nat): Option<seq<Raw>>
    decreases |b| - p
  {
    if p >= |b| then Some([]) else
      var r := RawAt(b, p);
      if r.None? then None else
        var rest := SplitFrom(b, r.value.at + r.value.size);
        if rest.None? then None else Some([r.value] + rest.value)
  }

  /** Bodies lie behind one another, each within the file and behind a header of its own. */
  lemma {:induction false} BodiesApart(b: seq<byte>, p: nat, i: nat, j: nat)
    requires SplitFrom(b, p).Some? && i < j < |SplitFrom(b, p).value|
    ensures var raws := SplitFrom(b, p).value;
            && p < raws[i].at && raws[i].at + raws[i].size < raws[j].at
            && raws[j].at + raws[j].size <= |b|
    decreases |b| - p
  {
    var r := RawAt(b, p).value;
    var end := r.at + r.size;
    if i > 0 {
      BodiesApart(b, end, i - 1, j - 1);
    } else {
      FirstBehind(b, end, j - 1);
    }
  }

  lemma {:induction false} FirstBehind(b: seq<byte>, p: nat, j: nat)
    requires SplitFrom(b, p).Some? && j < |SplitFrom(b, p).value|
    ensures var raw := SplitFrom(b, p).value[j]; p < raw.at && raw.at + raw.size <= |b|
    decreases |b| - p
  {
    if j > 0 {
      var r := RawAt(b, p).value;
      FirstBehind(b, r.at + r.size, j - 1);
    }
  }

  /** The mode that resolve_execute_mode finds from p on: whether the target info says position-independent. */
  function ModeFrom(b: seq<byte>, p: nat): Option<bool>
    decreases |b| - p
  {
    if p >= |b| then Some(false) else
      var q := Aligned(p);
      if q + W32 > |b| then None
      else if Word(b, q) > SIGNATURE then Some(false)
      else if q + HEADER > |b| || q + HEADER + Word(b, q + W32) > |b| then None
      else if Word(b, q) == TARGET_INFO then
        var t := q + HEADER + W32;
        if t + W16 > |b| then None else Some(FromLE(b[t..t + W16]) == E_TYPE_XIP)
      else ModeFrom(b, q + HEADER + Word(b, q + W32))
  }

  method ResolveExecuteMode(b: seq<byte>) returns (mode: Option<bool>)
    ensures mode == ModeFrom(b, HEADER)
  {
    hide Word;
    var p: nat := HEADER;
    while p < |b|
      invariant ModeFrom(b, HEADER) == ModeFrom(b, p)
    {
      p := Aligned(p);
      if p + W32 > |b| { return None; }
      var kind := Word(b, p);
      p := p + W32;
      if kind > SIGNATURE { return Some(false); }
      if p + W32 > |b| { return None; }
      var size := Word(b, p);
      p := p + W32;
      if p + size > |b| { return None; }
      if kind == TARGET_INFO {
        p := p + W32;
        if p + W16 > |b| { return None; }
        return Some(FromLE(b[p..p + W16]) == E_TYPE_XIP);
      }
      p := p + size;
    }
    return Some(false);
  }

  /** In a file that can be split the scan goes up to the first target info or custom section. The mode is recorded in the
      target info; without one, or behind a custom section, the file is taken not to be position-independent. */
  lemma {:induction false} ModeOfSplit(b: seq<byte>, p: nat, i: nat)
    requires SplitFrom(b, p).Some? && i <= |SplitFrom(b, p).value|
    requires forall j :: 0 <= j < i ==> SplitFrom(b, p).value[j].kind != TARGET_INFO && SplitFrom(b, p).value[j].kind != CUSTOM
    ensures var raws := SplitFrom(b, p).value;
            if i == |raws| || raws[i].kind == CUSTOM then ModeFrom(b, p) == Some(false)
            else raws[i].kind == TARGET_INFO ==>
              ModeFrom(b, p) == if raws[i].at + 6 > |b| then None else Some(FromLE(b[raws[i].at + 4..raws[i].at + 6]) == 4)
    decreases i
  {
    hide FromLE, RawAt, ModeFrom;
    var raws := SplitFrom(b, p).value;
    if p >= |b| {
      NoMode(b, p);
    } else {
      var r := RawAt(b, p).value;
      var rest := SplitFrom(b, r.at + r.size).value;
      assert raws == [r] + rest && raws[0] == r;
      ModeStep(b, p);
      if i > 0 {
        forall j | 0 <= j < i - 1 ensures rest[j].kind != TARGET_INFO && rest[j].kind != CUSTOM { assert rest[j] == raws[j + 1]; }
        ModeOfSplit(b, r.at + r.size, i - 1);
        assert i < |raws| ==> raws[i] == rest[i - 1];
      }
    }
  }

  lemma NoMode(b: seq<byte>, p: nat)
    requires p >= |b|
    ensures ModeFrom(b, p) == Some(false)
  {
  }

  /** One round of the scan over a section that is there. */
  lemma ModeStep(b: seq<byte>, p: nat)
    requires p < |b| && RawAt(b, p).Some?
    ensures var r := RawAt(b, p).value;
            ModeFrom(b, p) == if r.kind == CUSTOM then Some(false)
                              else if r.kind != TARGET_INFO then ModeFrom(b, r.at + r.size)
                              else if r.at + 6 > |b| then None else Some(FromLE(b[r.at + 4..r.at + 6]) == 4)
  {
    hide FromLE;
  }

  /** The text is copied to executable memory unless it is position-independent. */
  predicate Copied(raw: Raw, indirect: bool)
  {
    raw.kind == TEXT && raw.size > 0 && !indirect
  }

  /** What the copy takes: the text and the jump table behind it, in whole words. */
  function CopySize(size: nat, plt: nat): (n: nat)
    ensures size + plt <= n < size + plt + W32 && n % W32 == 0
  {
    Aligned(size + plt)
  }

  function BodyOf(b: seq<byte>, raw: Raw, indirect: bool, plt: nat): seq<byte>
    requires raw.at + raw.size <= |b|
  {
    b[raw.at..raw.at + raw.size] + if Copied(raw, indirect) then Zeros(CopySize(raw.size, plt) - raw.size) else []
  }

  /** The list of a file: every section in order, with its own bytes. */
  ghost predicate ListOf(sections: seq<Section>, b: seq<byte>, raws: seq<Raw>, indirect: bool, plt: nat)
  {
    && |sections| == |raws|
    && forall i :: 0 <= i < |raws| ==>
         && raws[i].at + raws[i].size <= |b|
         && sections[i] == Section(raws[i].kind, BodyOf(b, raws[i], indirect, plt))
  }

  /** Executable memory can be had for every copy that is needed. */
  ghost predicate CopiesFit(raws: seq<Raw>, indirect: bool, plt: nat, maps: bool)
  {
    forall i :: 0 <= i < |raws| && Copied(raws[i], indirect) ==> maps && CopySize(raws[i].size, plt) < U32 - 1
  }

  /** Having listed `done`, the cursor is at p. */
  ghost predicate Splitting(all: Option<seq<Raw>>, done: seq<Raw>, b: seq<byte>, p: nat)
  {
    var rest := SplitFrom(b, p);
    all == if rest.None? then None else Some(done + rest.value)
  }

  lemma SplittingStart(b: seq<byte>, p: nat)
    ensures Splitting(SplitFrom(b, p), [], b, p)
  {
    var rest := SplitFrom(b, p);
    assert rest.Some? ==> [] + rest.value == rest.value;
  }

  lemma SplittingStep(all: Option<seq<Raw>>, done: seq<Raw>, b: seq<byte>, p: nat)
    requires p < |b| && Splitting(all, done, b, p)
    ensures RawAt(b, p).None? ==> all.None?
    ensures RawAt(b, p).Some? ==> var r := RawAt(b, p).value;
              && Splitting(all, done + [r], b, r.at + r.size)
              && (all.Some? ==> |done| < |all.value| && all.value[|done|] == r)
  {
    hide RawAt;
    var r := RawAt(b, p);
    if r.Some? && SplitFrom(b, r.value.at + r.value.size).Some? {
      var rest := SplitFrom(b, r.value.at + r.value.size).value;
      assert done + ([r.value] + rest) == (done + [r.value]) + rest;
    }
  }

  lemma SplittingEnd(all: Option<seq<Raw>>, done: seq<Raw>, b: seq<byte>, p: nat)
    requires p >= |b| && Splitting(all, done, b, p)
    ensures all == Some(done)
  {
    assert done + [] == done;
  }

  // ---- a writer of such files ----

  type Str = s: seq<byte> | |s| < U32 witness []

  datatype Emitted = Emitted(kind: nat, body: Str)

  function EmitFrom(sections: seq<Emitted>, p: nat): seq<byte>
  {
    if sections == [] then [] else
      var s := sections[0];
      Lead(s, p) + s.body + EmitFrom(sections[1..], p + |Lead(s, p)| + |s.body|)
  }

  /** Padding, type and size. */
  function Lead(s: Emitted, p: nat): seq<byte>
  {
    Zeros(Aligned(p) - p) + LE(s.kind, W32) + LE(|s.body|, W32)
  }

  lemma SplitOne(b: seq<byte>, p: nat, r: Raw)
    requires p < |b| && RawAt(b, p) == Some(r) && SplitFrom(b, r.at + r.size).Some?
    ensures SplitFrom(b, p) == Some([r] + SplitFrom(b, r.at + r.size).value)
  {
  }

  lemma AllSame(b: seq<byte>, r: Raw, rest: seq<Raw>, sections: seq<Emitted>)
    requires |rest| + 1 == |sections| && SameSection(b, r, sections[0])
    requires forall i :: 0 <= i < |rest| ==> SameSection(b, rest[i], sections[1..][i])
    ensures forall i :: 0 <= i < |sections| ==> SameSection(b, ([r] + rest)[i], sections[i])
  {
    hide SameSection;
    forall i | 0 <= i < |sections| ensures SameSection(b, ([r] + rest)[i], sections[i]) {
      if i > 0 { assert SameSection(b, rest[i - 1], sections[1..][i - 1]); }
    }
  }

  /** A file so written splits into the sections it was made of. */
  lemma {:induction false} SplitEmitted(sections: seq<Emitted>, b: seq<byte>, p: nat)
    requires p <= |b| && b[p..] == EmitFrom(sections, p)
    requires forall i :: 0 <= i < |sections| ==> KnownKind(sections[i].kind)
    ensures SplitFrom(b, p).Some? && |SplitFrom(b, p).value| == |sections|
    ensures forall i :: 0 <= i < |sections| ==> SameSection(b, SplitFrom(b, p).value[i], sections[i])
  {
    hide RawAt, SameSection, Lead, KnownKind;
    if sections != [] {
      var s := sections[0];
      var mid := p + |Lead(s, p)|;
      var end := mid + |s.body|;
      HeaderEmitted(s, b, p, EmitFrom(sections[1..], end));
      SplitEmitted(sections[1..], b, end);
      SplitOne(b, p, Raw(s.kind, mid, |s.body|));
      AllSame(b, Raw(s.kind, mid, |s.body|), SplitFrom(b, end).value, sections);
    }
  }

  predicate SameSection(b: seq<byte>, raw: Raw, s: Emitted)
  {
    raw.kind == s.kind && raw.at + raw.size <= |b| && b[raw.at..raw.at + raw.size] == s.body
  }

  lemma HeaderEmitted(s: Emitted, b: seq<byte>, p: nat, rest: seq<byte>)
    requires p <= |b| && b[p..] == Lead(s, p) + s.body + rest && KnownKind(s.kind)
    ensures var mid := p + |Lead(s, p)|; var end := mid + |s.body|;
            && RawAt(b, p) == Some(Raw(s.kind, mid, |s.body|))
            && end <= |b| && b[end..] == rest && SameSection(b, Raw(s.kind, mid, |s.body|), s)
  {
    hide LE, FromLE, Pow256;
    var q, mid := Aligned(p), p + |Lead(s, p)|;
    var end := mid + |s.body|;
    Widths();
    DecodeLE(s.kind, W32);
    DecodeLE(|s.body|, W32);
    SliceOf(b, p, Zeros(q - p), LE(s.kind, W32), LE(|s.body|, W32) + s.body + rest);
    SliceOf(b, p, Zeros(q - p) + LE(s.kind, W32), LE(|s.body|, W32), s.body + rest);
    SliceOf(b, p, Lead(s, p), s.body, rest);
  }

  lemma SliceOf(b: seq<byte>, p: nat, x: seq<byte>, y: seq<byte>, z: seq<byte>)
    requires p <= |b| && b[p..] == x + y + z
    ensures p + |x| + |y| <= |b| && b[p + |x|..p + |x| + |y|] == y && b[p + |x| + |y|..] == z
  {
    assert b[p + |x|..p + |x| + |y|] == b[p..][|x|..|x| + |y|];
    assert b[p + |x| + |y|..] == b[p..][|x| + |y|..];
  }

  /** The file has been written from these sections, behind its own header. */
  ghost predicate Written(b: seq<byte>, es: seq<Emitted>)
  {
    |b| >= HEADER && b[HEADER..] == EmitFrom(es, HEADER) && forall i :: 0 <= i < |es| ==> KnownKind(es[i].kind)
  }

  /** The list has the sections that were written, with their bodies; a text that is copied is followed by zeros up to
      whole words with room for the jump table. */
  ghost predicate Listed(list: seq<Section>, es: seq<Emitted>, indirect: bool, plt: nat)
  {
    |list| == |es| && forall i :: 0 <= i < |es| ==> ListedAs(list[i], es[i], indirect, plt)
  }

  predicate ListedAs(s: Section, e: Emitted, indirect: bool, plt: nat)
  {
    && s.kind == e.kind && |s.body| >= |e.body| && s.body[..|e.body|] == e.body
    && if e.kind == TEXT && |e.body| > 0 && !indirect then
         |s.body| % 4 == 0 && |e.body| + plt <= |s.body| < |e.body| + plt + 4 && forall j :: |e.body| <= j < |s.body| ==> s.body[j] == 0
       else s.body == e.body
  }

  lemma WrittenListed(b: seq<byte>, es: seq<Emitted>, list: seq<Section>, indirect: bool, plt: nat)
    requires Written(b, es) && SplitFrom(b, HEADER).Some? && ListOf(list, b, SplitFrom(b, HEADER).value, indirect, plt)
    ensures Listed(list, es, indirect, plt)
  {
    hide SplitFrom, EmitFrom, Aligned;
    SplitEmitted(es, b, HEADER);
    var raws := SplitFrom(b, HEADER).value;
    forall i | 0 <= i < |es| ensures ListedAs(list[i], es[i], indirect, plt) {
      assert SameSection(b, raws[i], es[i]);
    }
  }

  /** A file that was written can be split, and its mode is the one in its target info if that was written first. */
  lemma WrittenSplits(b: seq<byte>, es: seq<Emitted>)
    requires Written(b, es)
    ensures SplitFrom(b, HEADER).Some? && |SplitFrom(b, HEADER).value| == |es|
    ensures es != [] && es[0].kind == TARGET_INFO && |es[0].body| >= 6 ==>
              ModeFrom(b, HEADER) == Some(FromLE(es[0].body[4..6]) == 4)
  {
    hide SplitFrom, EmitFrom, ModeFrom, FromLE;
    SplitEmitted(es, b, HEADER);
    if es != [] && es[0].kind == TARGET_INFO && |es[0].body| >= 6 {
      var raw := SplitFrom(b, HEADER).value[0];
      assert SameSection(b, raw, es[0]);
      ModeOfSplit(b, HEADER, 0);
      Inner(b, raw.at, raw.size, 4, 2);
    }
  }

  /** create_sections. */
  method CreateSections(b: seq<byte>, plt: nat, maps: bool) returns (list: Option<seq<Section>>)
    ensures var raws, mode := SplitFrom(b, HEADER), ModeFrom(b, HEADER);
            && (list.Some? <==> mode.Some? && raws.Some? && raws.value != [] && CopiesFit(raws.value, mode.value, plt, maps))
            && (list.Some? ==> ListOf(list.value, b, raws.value, mode.value, plt))
    ensures forall es :: Written(b, es) && list.Some? ==> Listed(list.value, es, ModeFrom(b, HEADER).value, plt)
  {
    hide RawAt, SplitFrom, ModeFrom, Splitting, Written, Listed;
    var mode := ResolveExecuteMode(b);
    if mode.None? { return None; }
    var indirect := mode.value;
    var p: nat, sections: seq<Section> := HEADER, [];
    ghost var all, done := SplitFrom(b, HEADER), [];
    SplittingStart(b, p);
    while p < |b|
      invariant Splitting(all, done, b, p)
      invariant ListOf(sections, b, done, indirect, plt) && CopiesFit(done, indirect, plt, maps)
      decreases |b| - p
    {
      SplittingStep(all, done, b, p);
      var raw := ReadHeader(b, p);
      if raw.None? { return None; }
      var body := ReadBody(b, raw.value, indirect, plt, maps);
      if body.None? { return None; }
      sections := sections + [Section(raw.value.kind, body.value)];
      done := done + [raw.value];
      p := raw.value.at + raw.value.size;
    }
    SplittingEnd(all, done, b, p);
    if |sections| == 0 { return None; }
    forall es | Written(b, es) ensures Listed(sections, es, indirect, plt) { WrittenListed(b, es, sections, indirect, plt); }
    return Some(sections);
  }

  method ReadHeader(b: seq<byte>, start: nat) returns (r: Option<Raw>)
    ensures r == RawAt(b, start)
    ensures r.Some? ==> start < r.value.at && r.value.at + r.value.size <= |b|
  {
    hide Word;
    var p: nat := Aligned(start);
    if p + W32 > |b| { return None; }
    var kind := Word(b, p);
    p := p + W32;
    if !KnownKind(kind) { return None; }
    if p + W32 > |b| { return None; }
    var size := Word(b, p);
    p := p + W32;
    if p + size > |b| { return None; }
    return Some(Raw(kind, p, size));
  }

  method ReadBody(b: seq<byte>, raw: Raw, indirect: bool, plt: nat, maps: bool) returns (body: Option<seq<byte>>)
    requires raw.at + raw.size <= |b|
    ensures body.Some? <==> (Copied(raw, indirect) ==> maps && CopySize(raw.size, plt) < U32 - 1)
    ensures body.Some? ==> body.value == BodyOf(b, raw, indirect, plt)
  {
    hide Aligned;
    body := Some(b[raw.at..raw.at + raw.size]);
    if raw.kind == TEXT && raw.size > 0 && !indirect {
      var total := CopyTotal(raw.size + plt);
      if total >= U32 - 1 || !maps { return None; }
      var text := CopyText(body.value, total);
      body := Some(text[..]);
    }
  }

  method CopyTotal(size: nat) returns (total: nat)
    ensures total == Aligned(size)
  {
    total := (size + 3) - (size + 3) % 4;
  }

  method CopyText(body: seq<byte>, total: nat) returns (text: array<byte>)
    requires |body| <= total
    ensures text[..] == body + Zeros(total - |body|)
  {
    text := new byte[total](_ => 0);
    Copy(text, 0, body);
    assert text[..] == text[..|body|] + text[|body|..];
  }

  // ---- the order ----

  /** The first k types, then only custom sections. */
  ghost predicate Ordered(kinds: seq<nat>, k: nat)
  {
    && k <= |kinds| && k <= SIGNATURE
    && (forall i :: 0 <= i < k ==> kinds[i] == i)
    && forall i :: k <= i < |kinds| ==> kinds[i] == CUSTOM
  }

  /** Sections come in the order of their types from the target info on, without gap or repetition, and custom
      ones behind them; the last is the relocation section or a custom one. */
  ghost predicate Accepted(kinds: seq<nat>)
  {
    kinds != [] && (exists k :: 1 <= k && Ordered(kinds, k)) && (kinds[|kinds| - 1] == RELOCATION || kinds[|kinds| - 1] == CUSTOM)
  }

  /** load_from_sections up to its end-of-list check: `loads[i]` says whether the loader of section i succeeds.
      `loaded` lists the sections that were handed to their loaders. */
  method LoadSections(kinds: seq<nat>, loads: seq<bool>) returns (ok: bool, loaded: seq<nat>)
    requires |loads| == |kinds|
    ensures ok <==> Accepted(kinds) && forall i :: 0 <= i < |loads| ==> loads[i]
    ensures loaded <= kinds && (loaded != [] ==> exists k :: 1 <= k && Ordered(loaded, k))
    ensures ok ==> loaded == kinds
  {
    var last := NO_SECTION;
    ghost var k := 0;
    loaded := [];
    for i := 0 to |kinds|
      invariant loaded == kinds[..i] && Ordered(loaded, k) && (i > 0 ==> k >= 1) && (i == 0 ==> k == 0)
      invariant last == if i == 0 then NO_SECTION else kinds[i - 1]
      invariant forall j :: 0 <= j < i ==> loads[j]
    {
      var kind := kinds[i];
      if (last == NO_SECTION && kind != TARGET_INFO) || (last != NO_SECTION && kind != last + 1 && kind != CUSTOM) {
        BadOrder(kinds, i, k);
        return false, loaded;
      }
      last := kind;
      if !KnownKind(kind) {
        BadOrder(kinds, i, k);
        return false, loaded;
      }
      loaded := loaded + [kind];
      if kind != CUSTOM { k := k + 1; }
      assert Ordered(loaded, k);
      if !loads[i] { return false, loaded; }
    }
    assert kinds[..|kinds|] == kinds;
    ok := last == RELOCATION || last == CUSTOM;
  }

  /** Once the next section does not fit, no order of the whole list is accepted. */
  lemma BadOrder(kinds: seq<nat>, i: nat, k: nat)
    requires i < |kinds| && Ordered(kinds[..i], k) && (i > 0 ==> k >= 1)
    requires var kind := kinds[i];
             || !KnownKind(kind)
             || (i == 0 && kind != TARGET_INFO) || (i > 0 && kind != kinds[i - 1] + 1 && kind != CUSTOM)
    ensures !Accepted(kinds)
  {
    forall m | 1 <= m ensures !Ordered(kinds, m) {
      if m <= i { assert kinds[..i][m - 1] == kinds[m - 1]; }
    }
  }

  /** No section but a custom one is loaded twice, and each only after the one of the type before. */
  lemma LoadedOnce(loaded: seq<nat>, k: nat, i: nat)
    requires Ordered(loaded, k) && i < |loaded| && loaded[i] != CUSTOM
    ensures forall j :: 0 <= j < |loaded| && j != i ==> loaded[j] != loaded[i]
    ensures loaded[i] > TARGET_INFO ==> i > 0 && loaded[i - 1] == loaded[i] - 1
  {
  }

  /** Sections in the middle may be missing if a custom section follows. */
  lemma GapAccepted()
    ensures Accepted([TARGET_INFO, CUSTOM])
  {
    assert Ordered([TARGET_INFO, CUSTOM], 1);
  }
}
