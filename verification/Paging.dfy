/** vm_map: mapping a range of pages, in two passes over the tables. */
module Paging {
  import opened Bits
  import opened MissingTables
  import opened Option
  import opened PageTables
  import opened PagingBits
  import opened TableAllocator

  /** vm_map's return code, or no return when the allocator halts the machine. */
  datatype Outcome = Ret(code: int) | Halted

  /** The outcome that passes on an answer other than a page. */
  predicate PassesOn(r: Outcome, answer: Answer) {
    match answer
    case Page(_) => false
    case Fail(e) => r == Ret(e)
    case Halt => r == Halted
  }

  // ----------------------------------------------------------------- relations

  lemma AgreeGrown(m: Mem, m': Mem, root: nat, own: set<nat>, u: VPage)
    requires WellFormed(m, root, own) && AgreeOn(m, m', own)
    ensures WellFormed(m', root, own) && SameTables(m, m', root) && Grown(m, m', root, u)
  {
    AgreeSameTables(m, m', root, own);
    forall v: VPage
      ensures Translate(m', root, v) == Translate(m, root, v)
    {
      SamePathSameWalk(m, m', root, root, v, 3, ALL, Perm(false, false));
    }
    forall v: VPage, p: Perm
      ensures Verdict(m', root, v, p) == Verdict(m, root, v, p)
    {
      SamePathSameWalk(m, m', root, root, v, 3, ALL, p);
    }
  }

  lemma GrownTrans(a: Mem, b: Mem, c: Mem, root: nat, u: VPage)
    requires Grown(a, b, root, u) && Grown(b, c, root, u)
    ensures Grown(a, c, root, u)
  {
  }

  lemma AgreeTrans(a: Mem, b: Mem, c: Mem, s: set<nat>, s': set<nat>)
    requires AgreeOn(a, b, s) && AgreeOn(b, c, s') && s <= s'
    ensures AgreeOn(a, c, s)
  {
  }

  // ---------------------------------------------------------------- primitives

  /** Entry i of the table in frame t becomes w. */
  method StoreEntry(ram: array<Word>, t: nat, i: Index, w: Word)
    requires 512 * t + 512 <= ram.Length
    modifies ram
    ensures ram[..] == SetEntry(old(ram[..]), t, i, w)
  {
    ram[512 * t + i] := w;
  }

  method ClearTable(ram: array<Word>, t: nat)
    requires 512 * t + 512 <= ram.Length
    modifies ram
    ensures forall f: nat, i: Index :: Entry(ram[..], f, i) == if f == t then 0 else old(Entry(ram[..], f, i))
  {
    for i := 0 to 512
      invariant forall j :: 0 <= j < ram.Length ==>
        ram[j] == if 512 * t <= j < 512 * t + i then 0 else old(ram[j])
    {
      ram[512 * t + i] := 0;
    }
  }

  method CallAllocator<A(!new)>(ram: array<Word>, alloc: PtAlloc<A>, ctx: A,
                                ghost inv: (A, Mem, set<nat>) -> bool, ghost live: set<nat>)
    returns (answer: Answer, ctx': A)
    requires Honest(alloc, inv) && inv(ctx, ram[..], live)
    modifies ram
    ensures Reply(ctx', ram[..], answer) == alloc(ctx, old(ram[..]))
    ensures HonestReply(Reply(ctx', ram[..], answer), inv, old(ram[..]), live)
  {
    var r := alloc(ctx, ram[..]);
    forall i | 0 <= i < ram.Length {
      ram[i] := r.mem[i];
    }
    assert ram[..] == r.mem;
    return r.answer, r.ctx;
  }

  // -------------------------------------------------------------------- pass 1

  /** The missing-table branch of pass 1: allocate, clear, and hang the new table
      under slot (v, l). */
  method NewTable<A(!new)>(ram: array<Word>, ghost root: nat, t: nat, ghost v: VPage, ghost l: Level, i: Index,
                           alloc: PtAlloc<A>, ctx: A, ghost log: Log<A>,
                           ghost inv: (A, Mem, set<nat>) -> bool, ghost own: set<nat>, ghost live: set<nat>)
    returns (answer: Answer, ctx': A, ghost log': Log<A>)
    requires Honest(alloc, inv) && inv(ctx, ram[..], live) && own <= live
    requires Reached(alloc, log, ctx, ram[..], live) && Served(alloc, log)
    requires WellFormed(ram[..], root, own) && EmptySlot(ram[..], root, v, l, t) && l > 0 && i == Idx(v, l)
    modifies ram
    ensures Grown(old(ram[..]), ram[..], root, v) && AgreeOn(old(ram[..]), ram[..], live - own)
    // The allocator is called once, and its answer is the method's.
    ensures log' == log.Then(old(ram[..])) && log'.calls != [] && answer == LastReply(alloc, log').answer
    ensures Served(alloc, log') <==> answer.Page?
    ensures Reached(alloc, log', ctx', ram[..], if answer.Page? then live + {answer.frame} else live)
    ensures answer.Page? ==>
      && answer.frame !in live && inv(ctx', ram[..], live + {answer.frame})
      && WellFormed(ram[..], root, own + {answer.frame})
      && TableAt(ram[..], root, v, l - 1) == Some(answer.frame)
      && OnlyEntry(old(ram[..]), ram[..], root, v, l)
      && forall j: Index :: Entry(ram[..], answer.frame, j) == 0
    ensures !answer.Page? ==>
      WellFormed(ram[..], root, own) && EmptySlot(ram[..], root, v, l, t) && SameTables(old(ram[..]), ram[..], root)
    ensures answer.Fail? ==> answer.err != 0 && inv(ctx', ram[..], live)
  {
    ghost var m0 := ram[..];
    ReachedCall(alloc, log, ctx, m0, live);
    log' := log.Then(m0);
    answer, ctx' := CallAllocator(ram, alloc, ctx, inv, live);
    ghost var m1 := ram[..];
    if !answer.Page? {
      AgreeGrown(m0, m1, root, own, v);
      StillEmpty(m0, m1, root, own, v, l, t);
      return;
    }
    var q := answer.frame;
    ClearTable(ram, q);
    ghost var m2 := ram[..];
    AgreeGrown(m0, m2, root, own, v);
    TableEntry(q);
    var w := Or(Or(Or(4096 * q, PAGE_FLAG_PRESENT), PAGE_FLAG_READWRITE), PAGE_FLAG_USER);
    assert TableAt(m0, root, v, l) == TableAt(m2, root, v, l) && EntryAt(m2, root, v, l) == EntryAt(m0, root, v, l);
    LinkTable(m2, root, own, v, l, t, w);
    StoreEntry(ram, t, i, w);
    GrownTrans(m0, m2, ram[..], root, v);
    SameThenOne(m0, m2, ram[..], root, v, l);
    assert SameOutside(m1, ram[..], live + {q});
    ReachedWrite(alloc, log', ctx', m1, ram[..], live + {q});
  }

  lemma SameThenOne(a: Mem, b: Mem, c: Mem, root: nat, u: VPage, k: Level)
    requires SameTables(a, b, root) && OnlyEntry(b, c, root, u, k)
    ensures OnlyEntry(a, c, root, u, k)
  {
    hide TableAt, EntryAt, Under;
  }

  lemma StillEmpty(m: Mem, m': Mem, root: nat, own: set<nat>, v: VPage, l: Level, t: nat)
    requires WellFormed(m, root, own) && AgreeOn(m, m', own) && SameTables(m, m', root) && EmptySlot(m, root, v, l, t)
    ensures EmptySlot(m', root, v, l, t)
  {
    TableInRam(m, root, own, v, l, t);
    assert TableAt(m', root, v, l) == TableAt(m, root, v, l);
  }

  /** The rule of both passes: 4K pages always end the walk, and a 2M or 1G slot does when it is empty and
      the rest of the range starts aligned and covers it. */
  predicate StopsAt(pa: Word, va: Word, remaining: Word, l: Level, e: Word) {
    l == 0 || (1 <= l <= 2 && Offset(pa / 4096, l) == 0 && Offset(VPageOf(va), l) == 0
               && remaining >= 4096 * Pages(l) && e == 0)
  }

  /** The test of both passes, on a shift count and its span. */
  function LeafTest(pa: Word, va: Word, remaining: Word, shift: nat, span: nat, e: Word): bool
    requires span > 0
  {
    shift == 12
    || ((shift == 21 || shift == 30) && And(Or(pa, va), span - 1) == 0 && remaining >= span && e == 0)
  }

  lemma LeafTestMeaning(pa: Word, va: Word, remaining: Word, l: Level, e: Word)
    requires PageAligned(pa) && PageAligned(va)
    ensures Pow2(Shift(l)) == 4096 * Pages(l)
    ensures LeafTest(pa, va, remaining, Shift(l), Pow2(Shift(l)), e) <==> StopsAt(pa, va, remaining, l, e)
  {
    SpanIsPages(l);
    if l <= 2 {
      BothAligned(pa, va, l);
    }
  }

  /** Slot (v, l) is empty, aligned and large enough: pass 2 will put a leaf there. */
  ghost predicate LeafReady(m: Mem, root: nat, v: VPage, f: nat, l: Level) {
    && l <= 2 && Offset(v, l) == 0 && Offset(f, l) == 0
    && TableAt(m, root, v, l).Some? && EntryAt(m, root, v, l) == 0
  }

  /** What the entry e at level l of the walk of v means for the verdict on v,
      and what pass 1's tests of e see. */
  lemma Decide(m: Mem, root: nat, t: nat, v: VPage, l: Level, e: Word, flags: Word)
    requires TableAt(m, root, v, l) == Some(t) && e == Entry(m, t, Idx(v, l))
    ensures
      var here, perm := VerdictFrom(m, t, v, l, PermOf(flags)), And(flags, 6);
      if e == 0 then
        here == 0 && EmptySlot(m, root, v, l, t) && EntryAt(m, root, v, l) == 0
      else if l == 0 || And(e, PAGE_FLAG_PRESENT) == 0 || And(e, PAGE_FLAG_PAGESIZE) != 0 then
        here == -EEXIST
      else if And(e, perm) != perm || And(e, 0x8000_0000_0000_0000) != 0 then
        here == -EINVAL
      else
        && And(e, PHYS_ADDR_MASK) / 4096 == Frame(e)
        && TableAt(m, root, v, l - 1) == Some(Frame(e))
        && here == VerdictFrom(m, Frame(e), v, l - 1, PermOf(flags))
  {
    EntryTests(e);
    PermissionTest(e, flags);
  }

  lemma TableInRam(m: Mem, root: nat, own: set<nat>, v: VPage, l: Level, t: nat)
    requires WellFormed(m, root, own) && TableAt(m, root, v, l) == Some(t)
    ensures 512 * t + 512 <= |m| && t in own
  {
  }

  lemma GrownRefl(m: Mem, root: nat, u: VPage, own: set<nat>, live: set<nat>)
    ensures Grown(m, m, root, u) && AgreeOn(m, m, live - own) && own + {} == own && live + {} == live
    ensures TableAt(m, root, u, 3) == Some(root)
  {
  }

  /** Taking one more frame. */
  lemma AgreeMore(a: Mem, b: Mem, c: Mem, own: set<nat>, live: set<nat>, taken: set<nat>, q: nat)
    requires AgreeOn(a, b, live - own) && AgreeOn(b, c, (live + taken) - (own + taken)) && taken !! live
    ensures AgreeOn(a, c, live - own)
    ensures (live + taken) + {q} == live + (taken + {q}) && (own + taken) + {q} == own + (taken + {q})
  {
    assert live - own <= (live + taken) - (own + taken);
    AgreeTrans(a, b, c, live - own, (live + taken) - (own + taken));
  }

  lemma ClearedVerdict(m: Mem, t: nat, v: VPage, l: Level, p: Perm)
    requires forall j: Index :: Entry(m, t, j) == 0
    ensures VerdictFrom(m, t, v, l, p) == 0
  {
  }

  lemma VerdictKept(m: Mem, m': Mem, root: nat, u: VPage, v: VPage, p: Perm)
    requires Grown(m, m', root, u)
    ensures Verdict(m', root, v, p) == Verdict(m, root, v, p)
  {
  }

  /** m' is m with empty tables added on the walk of u, in the frames `taken`. */
  ghost predicate Stepped(m: Mem, m': Mem, root: nat, own: set<nat>, live: set<nat>, taken: set<nat>, u: VPage) {
    taken !! live && WellFormed(m', root, own + taken) && Grown(m, m', root, u) && AgreeOn(m, m', live - own)
  }

  /** The walk of page v ends at level l in an empty entry under which the `rest` pages
      from v on, going to frame f, cannot start with one leaf: a table is missing. */
  ghost predicate LacksTable(m: Mem, root: nat, v: VPage, f: nat, rest: nat, l: Level) {
    && l > 0 && TableAt(m, root, v, l).Some? && EntryAt(m, root, v, l) == 0
    && !(l <= 2 && Offset(v, l) == 0 && Offset(f, l) == 0 && rest >= Pages(l))
  }

  /** No leaf fits at a level above l. */
  ghost predicate TooHigh(m: Mem, root: nat, v: VPage, f: nat, rest: nat, l: Level) {
    forall k: Level :: k > l ==> !FitsLeaf(m, root, v, f, rest, k)
  }

  /** What the test at level l says about the leaf chosen in the tables before the round. */
  lemma LeafHere(m0: Mem, m: Mem, root: nat, pa: Word, va: Word, remaining: Word, l: Level, t: nat, e: Word,
                 taken: set<nat>)
    requires Descended(m0, m, root, VPageOf(va), l, taken) && PageAligned(remaining)
    requires TableAt(m, root, VPageOf(va), l) == Some(t) && e == Entry(m, t, Idx(VPageOf(va), l))
    requires TooHigh(m0, root, VPageOf(va), PageNo(pa), PageNo(remaining), l)
    ensures
      var leaf := LeafLevel(m0, root, VPageOf(va), PageNo(pa), PageNo(remaining));
      && leaf <= l && (StopsAt(pa, va, remaining, l, e) && e == 0 ==> leaf == l)
      && (!StopsAt(pa, va, remaining, l, e) ==>
            leaf < l && TooHigh(m0, root, VPageOf(va), PageNo(pa), PageNo(remaining), l - 1))
  {
    hide VPageOf, Offset, TableAt, Supplied, Touched, Slot, MissingAt, Idx, Entry;
    SlotOf(m, root, VPageOf(va), l, t);
    var v := VPageOf(va);
    assert EntryAt(m0, root, v, l) == e;
    hide EntryAt;
  }

  /** A refused table is missing in the tables before the round. */
  lemma NoTableBelow(m0: Mem, m: Mem, root: nat, v: VPage, l: Level, t: nat, taken: set<nat>)
    requires Descended(m0, m, root, v, l, taken) && l > 0 && EmptySlot(m, root, v, l, t)
    ensures TableAt(m0, root, v, l - 1) == None
  {
    SlotOf(m, root, v, l, t);
    MissingOneMore(m0, root, v, l);
  }

  /** One round of pass 1: walk to the leaf slot for va, adding missing tables. */
  method PrepareStep<A(!new)>(ram: array<Word>, root: nat, pa: Word, va: Word, remaining: Word, flags: Word,
                              alloc: PtAlloc<A>, ctx: A, ghost log: Log<A>,
                              ghost inv: (A, Mem, set<nat>) -> bool, ghost own: set<nat>, ghost live: set<nat>)
    returns (r: Outcome, span: nat, ctx': A, ghost log': Log<A>, ghost level: Level, ghost taken: set<nat>)
    requires Honest(alloc, inv) && inv(ctx, ram[..], live) && own <= live
    requires Reached(alloc, log, ctx, ram[..], live) && Served(alloc, log)
    requires WellFormed(ram[..], root, own)
    requires PageAligned(pa) && PageAligned(va) && remaining > 0 && PageAligned(remaining)
    modifies ram
    ensures Stepped(old(ram[..]), ram[..], root, own, live, taken, VPageOf(va))
    ensures r.Ret? ==> inv(ctx', ram[..], live + taken)
    ensures SameStart(log, log') && Reached(alloc, log', ctx', ram[..], live + taken)
    ensures r == Ret(0) ==>
      && Served(alloc, log') && span == 4096 * Pages(level) <= remaining
      && LeafReady(ram[..], root, VPageOf(va), PageNo(pa), level)
      && Verdict(old(ram[..]), root, VPageOf(va), PermOf(flags)) == 0
    // Another outcome is the verdict on the page, unless a table was missing and refused.
    ensures r != Ret(0) && Served(alloc, log') ==> r == Ret(Verdict(old(ram[..]), root, VPageOf(va), PermOf(flags)))
    ensures !Served(alloc, log') ==>
      && log'.calls != [] && PassesOn(r, LastReply(alloc, log').answer)
      && Verdict(old(ram[..]), root, VPageOf(va), PermOf(flags)) == 0
      && LacksTable(ram[..], root, VPageOf(va), PageNo(pa), PageNo(remaining), level)
    // The new tables are those missing on the walk, from the top down to `level`: down to the
    // leaf's level if the round succeeds, and short of it if it was refused.
    ensures Descended(old(ram[..]), ram[..], root, VPageOf(va), level, taken)
    ensures var leaf := LeafLevel(old(ram[..]), root, VPageOf(va), PageNo(pa), PageNo(remaining));
      && leaf <= level && (r == Ret(0) ==> leaf == level)
      && (!Served(alloc, log') ==> leaf < level && TableAt(old(ram[..]), root, VPageOf(va), level - 1) == None)
  {
    hide Honest, WellFormed, Grown, AgreeOn, TableAt, EntryAt, VerdictFrom, And, Or, Pow2, Slot, Idx, Offset, Reached,
         Served, Follows, LastReply, Descended, LeafLevel, TooHigh, OnlyEntry, SameTables, LeafReady, LacksTable;
    ghost var m0, v, p := ram[..], VPageOf(va), PermOf(flags);
    var table := root;
    var shift := 39;
    level, taken, ctx', log' := 3, {}, ctx, log;
    GrownRefl(m0, root, v, own, live);
    DescentStarts(m0, root, v);
    NoneHigher(m0, root, v, PageNo(pa), PageNo(remaining));
    while shift >= 12
      invariant 0 <= level <= 3 && shift == Shift(level)
      invariant taken !! live && WellFormed(ram[..], root, own + taken) && inv(ctx', ram[..], live + taken)
      invariant Grown(m0, ram[..], root, v) && AgreeOn(m0, ram[..], live - own)
      invariant Descended(m0, ram[..], root, v, level, taken)
      invariant TooHigh(m0, root, v, PageNo(pa), PageNo(remaining), level)
      invariant TableAt(ram[..], root, v, level) == Some(table)
      invariant Verdict(m0, root, v, p) == VerdictFrom(ram[..], table, v, level, p)
      invariant SameStart(log, log') && Reached(alloc, log', ctx', ram[..], live + taken) && Served(alloc, log')
      decreases level
    {
      ghost var m := ram[..];
      IndexOf(va, level);
      TableInRam(m, root, own + taken, v, level, table);
      var i := And(Shr(va, shift), 511);
      var e := ram[512 * table + i];
      span := Pow2(shift);
      LeafTestMeaning(pa, va, remaining, level, e);
      Decide(m, root, table, v, level, e, flags);
      LeafHere(m0, m, root, pa, va, remaining, level, table, e, taken);
      if LeafTest(pa, va, remaining, shift, span, e) {
        if e != 0 {
          return Ret(-EEXIST), span, ctx', log', level, taken;
        }
        ReadyHere(m, root, pa, va, remaining, level, table);
        return Ret(0), span, ctx', log', level, taken;
      }
      if e != 0 {
        if And(e, PAGE_FLAG_PRESENT) == 0 || And(e, PAGE_FLAG_PAGESIZE) != 0 {
          return Ret(-EEXIST), span, ctx', log', level, taken;
        }
        var permissions := And(flags, 6);
        if And(e, permissions) != permissions || And(e, 0x8000_0000_0000_0000) != 0 {
          return Ret(-EINVAL), span, ctx', log', level, taken;
        }
        table := And(e, PHYS_ADDR_MASK) / 4096;
        DescentFollows(m0, m, root, v, level, taken);
      } else {
        NoTableBelow(m0, m, root, v, level, table, taken);
        SlotOf(m, root, v, level, table);
        var answer;
        answer, ctx', log' := NewTable(ram, root, table, v, level, i, alloc, ctx', log', inv, own + taken,
          live + taken);
        GrownTrans(m0, m, ram[..], root, v);
        AgreeMore(m0, m, ram[..], own, live, taken, if answer.Page? then answer.frame else 0);
        match answer
        case Halt =>
          DescentSame(m0, m, ram[..], root, v, level, taken);
          EmptyLacks(ram[..], root, table, pa, va, remaining, level);
          return Halted, span, ctx', log', level, taken;
        case Fail(err) =>
          DescentSame(m0, m, ram[..], root, v, level, taken);
          EmptyLacks(ram[..], root, table, pa, va, remaining, level);
          return Ret(err), span, ctx', log', level, taken;
        case Page(q) =>
          DescentLinks(m0, m, ram[..], root, v, level, taken, q);
          taken := taken + {q};
          table := q;
          ClearedVerdict(ram[..], q, v, level - 1, p);
      }
      level := level - 1;
      shift := shift - 9;
    }
    assert false;
  }

  lemma NoneHigher(m: Mem, root: nat, v: VPage, f: nat, rest: nat)
    ensures TooHigh(m, root, v, f, rest, 3)
  {
  }

  lemma ReadyHere(m: Mem, root: nat, pa: Word, va: Word, remaining: Word, l: Level, t: nat)
    requires StopsAt(pa, va, remaining, l, 0) && EmptySlot(m, root, VPageOf(va), l, t)
    ensures LeafReady(m, root, VPageOf(va), PageNo(pa), l)
  {
    SlotOf(m, root, VPageOf(va), l, t);
  }

  /** Two logs of one call of vm_map. */
  ghost predicate SameStart<A>(log: Log<A>, log': Log<A>) {
    log'.ctx == log.ctx && log'.mem == log.mem && log'.live == log.live
  }

  lemma SameStartTrans<A>(a: Log<A>, b: Log<A>, c: Log<A>)
    ensures SameStart(a, b) && SameStart(b, c) ==> SameStart(a, c)
    ensures SameStart(a, a)
  {
  }

  lemma EmptyLacks(m: Mem, root: nat, t: nat, pa: Word, va: Word, remaining: Word, l: Level)
    requires EmptySlot(m, root, VPageOf(va), l, t) && l > 0 && PageAligned(remaining)
    requires !StopsAt(pa, va, remaining, l, 0)
    ensures LacksTable(m, root, VPageOf(va), PageNo(pa), PageNo(remaining), l)
  {
    SlotOf(m, root, VPageOf(va), l, t);
  }

  // ------------------------------------------------------------------ ranges

  /** What vm_map's argument checks leave: an aligned range of existing physical
      addresses in one canonical half. */
  predicate GoodRange(phys: Word, virt: Word, size: Word) {
    && size > 0 && PageAligned(phys) && PageAligned(virt) && PageAligned(size)
    && virt + size <= W64 && phys + size <= 0x10_0000_0000_0000
    && (virt + size <= 0x8000_0000_0000 || virt >= 0xFFFF_8000_0000_0000)
  }

  /** In terms of the addresses: the range is aligned and not empty, its physical bytes exist,
      and each of its addresses is a canonical 64-bit one in the half of the first. */
  lemma GoodRangeIs(phys: Word, virt: Word, size: Word)
    ensures GoodRange(phys, virt, size) <==>
      && size > 0 && phys % 4096 == 0 && virt % 4096 == 0 && size % 4096 == 0 && phys + size <= 0x10_0000_0000_0000
      && virt + size <= W64 && forall va: Word :: virt <= va < virt + size ==>
           Canonical(va) && (va < 0x8000_0000_0000 <==> virt < 0x8000_0000_0000)
  {
    if size > 0 && virt + size <= W64 && forall va: Word :: virt <= va < virt + size ==>
         Canonical(va) && (va < 0x8000_0000_0000 <==> virt < 0x8000_0000_0000) {
      assert Canonical(virt) && Canonical(virt + size - 1);
    }
  }

  /** The flag bits are R/W, U/S, PWT, PCD, PS and G besides P. */
  lemma FlagsAre(flags: Word)
    ensures FlagsAllowed(flags) <==> flags < 0x200 && flags / 0x20 % 4 == 0
  {
  }

  /** The number of the page that starts at x. */
  function PageNo(x: Word): nat {
    x / 4096
  }

  lemma RangePages(phys: Word, virt: Word, size: Word)
    requires GoodRange(phys, virt, size)
    ensures VPageOf(virt) + PageNo(size) <= VPAGES && PageNo(phys) + PageNo(size) <= FRAMES
    ensures Position(phys, virt, size, 0, phys, virt, size)
  {
  }

  /** The loop variables of either pass after k pages. */
  predicate Position(phys: Word, virt: Word, size: Word, k: nat, pa: Word, va: Word, remaining: Word) {
    && remaining == size - 4096 * k && pa == phys + 4096 * k
    && (remaining > 0 ==> va == virt + 4096 * k)
  }

  lemma Here(phys: Word, virt: Word, size: Word, k: nat, pa: Word, va: Word, remaining: Word)
    requires GoodRange(phys, virt, size) && Position(phys, virt, size, k, pa, va, remaining)
    ensures PageAligned(remaining) && PageAligned(pa) && k <= PageNo(size)
    ensures remaining == 0 <==> k == PageNo(size)
    ensures remaining > 0 ==> PageAligned(va) && VPageOf(va) == VPageOf(virt) + k
    ensures remaining > 0 ==> PageNo(pa) == PageNo(phys) + k < FRAMES && PageNo(remaining) == PageNo(size) - k
  {
    hide VPageOf;
    var n, f, v := size / 4096, phys / 4096, virt / 4096;
    assert size == 4096 * n && phys == 4096 * f && virt == 4096 * v && k <= n;
    DivUnique(remaining, 4096, n - k, 0);
    DivUnique(pa, 4096, f + k, 0);
    if remaining > 0 {
      DivUnique(va, 4096, v + k, 0);
      PageOfCanonical(virt);
      PageOfCanonical(va);
    }
  }

  lemma Move(phys: Word, virt: Word, size: Word, k: nat, pa: Word, va: Word, remaining: Word, l: Level)
    requires GoodRange(phys, virt, size) && Position(phys, virt, size, k, pa, va, remaining)
    requires 0 < 4096 * Pages(l) <= remaining
    ensures pa + 4096 * Pages(l) < W64
    ensures Position(phys, virt, size, k + Pages(l), pa + 4096 * Pages(l), Wrap(va + 4096 * Pages(l)),
                     remaining - 4096 * Pages(l))
  {
  }

  /** 64-bit addition wraps. */
  function Wrap(x: nat): Word {
    x % W64
  }

  /** Low-half pages are numbered from 0, high-half pages from 2^35. */
  lemma PageOfCanonical(va: Word)
    requires Canonical(va)
    ensures va < 0x8000_0000_0000 ==> VPageOf(va) == va / 4096 < 0x8_0000_0000
    ensures va >= 0xFFFF_8000_0000_0000 ==> VPageOf(va) == va / 4096 - 0xF_FFF0_0000_0000 >= 0x8_0000_0000
  {
    if va >= 0xFFFF_8000_0000_0000 {
      DivUnique(va / 4096, VPAGES, 0xFFFF, va / 4096 - 0xF_FFF0_0000_0000);
    }
  }

  /** A canonical address lies in the range just when its page does. */
  lemma RangeByPage(phys: Word, virt: Word, size: Word, va: Word)
    requires GoodRange(phys, virt, size) && Canonical(va)
    ensures virt <= va < virt + size <==> VPageOf(virt) <= VPageOf(va) < VPageOf(virt) + PageNo(size)
    ensures virt <= va < virt + size ==>
      4096 * (PageNo(phys) + (VPageOf(va) - VPageOf(virt))) + va % 4096 == phys + (va - virt)
  {
    hide VPageOf;
    PageOfCanonical(va);
    PageOfCanonical(virt);
  }

  /** The verdict on a run of pages: the first one that is not 0. */
  function RangeVerdict(m: Mem, root: nat, v: nat, n: nat, p: Perm): int
    requires v + n <= VPAGES
    decreases n
  {
    if n == 0 then 0
    else if Verdict(m, root, v, p) != 0 then Verdict(m, root, v, p)
    else RangeVerdict(m, root, v + 1, n - 1, p)
  }

  lemma {:induction false} RangeVerdictSkip(m: Mem, root: nat, v: nat, n: nat, k: nat, p: Perm)
    requires v + n <= VPAGES && k <= n
    requires forall u: VPage :: v <= u < v + k ==> Verdict(m, root, u, p) == 0
    ensures RangeVerdict(m, root, v, n, p) == RangeVerdict(m, root, v + k, n - k, p)
    decreases k
  {
    if k > 0 {
      assert Verdict(m, root, v, p) == 0;
      RangeVerdictSkip(m, root, v + 1, n - 1, k - 1, p);
    }
  }

  /** No translation and no verdict differs. */
  ghost predicate SameView(m: Mem, m': Mem, root: nat) {
    && (forall v: VPage :: Translate(m', root, v) == Translate(m, root, v))
    && (forall v: VPage, p: Perm :: Verdict(m', root, v, p) == Verdict(m, root, v, p))
  }

  // -------------------------------------------------------------------- plans

  /** A leaf that pass 2 is going to write. */
  datatype Step = Step(page: VPage, level: Level) {
    function End(): nat { page + Pages(level) }
  }

  /** The steps cover pages v0 .. end-1 without gap or overlap. */
  ghost predicate Tiles(plan: seq<Step>, v0: nat, end: nat) {
    && (if |plan| == 0 then end == v0 else plan[0].page == v0 && plan[|plan| - 1].End() == end)
    && (forall k :: 0 <= k < |plan| - 1 ==> plan[k + 1].page == plan[k].End())
    && (forall k :: 0 <= k < |plan| ==> v0 <= plan[k].page && plan[k].End() <= end)
  }

  /** Every step of the plan has an empty slot; page v0 is to be mapped to frame f0. */
  ghost predicate Ready(m: Mem, root: nat, plan: seq<Step>, v0: nat, f0: nat) {
    forall k :: 0 <= k < |plan| ==>
      plan[k].page >= v0 && LeafReady(m, root, plan[k].page, f0 + (plan[k].page - v0), plan[k].level)
  }

  /** Growing the tables of a later page leaves the plan ready. */
  lemma GrownReady(m: Mem, m': Mem, root: nat, plan: seq<Step>, v0: nat, f0: nat, u: VPage)
    requires Ready(m, root, plan, v0, f0) && Tiles(plan, v0, u) && Grown(m, m', root, u)
    ensures Ready(m', root, plan, v0, f0)
  {
    hide Grown, LeafReady, Pages;
    forall k | 0 <= k < |plan|
      ensures LeafReady(m', root, plan[k].page, f0 + (plan[k].page - v0), plan[k].level)
    {
      GrownLeaf(m, m', root, plan[k], f0 + (plan[k].page - v0), u);
    }
  }

  lemma GrownLeaf(m: Mem, m': Mem, root: nat, s: Step, f: nat, u: VPage)
    requires Grown(m, m', root, u) && LeafReady(m, root, s.page, f, s.level) && s.End() <= u
    ensures LeafReady(m', root, s.page, f, s.level)
  {
    hide Slot, Idx, Offset, Translate, Verdict, Pages, TableAt, EntryAt;
    assert Slot(s.page, s.level) != Slot(u, s.level) by {
      ReadyAligned(m, root, s.page, f, s.level);
      UnderRange(u, s.page, s.level);
    }
  }

  /** All pages of a ready leaf have the verdict of its first page. */
  lemma LeafVerdicts(m: Mem, root: nat, s: Step, f: nat, p: Perm)
    requires LeafReady(m, root, s.page, f, s.level)
    ensures forall v: VPage :: s.page <= v < s.End() ==> Verdict(m, root, v, p) == Verdict(m, root, s.page, p)
  {
    forall v: VPage | s.page <= v < s.End()
      ensures Verdict(m, root, v, p) == Verdict(m, root, s.page, p)
    {
      UnderRange(v, s.page, s.level);
      OneVerdict(m, root, s.page, s.level, v, 3, root, p);
    }
  }

  // -------------------------------------------------------------- pass 1, whole

  /** m is m0 with nothing but empty tables added, in the frames `taken`. */
  ghost predicate Unmapped(m0: Mem, m: Mem, root: nat, own: set<nat>, live: set<nat>, taken: set<nat>) {
    taken !! live && WellFormed(m, root, own + taken) && SameView(m0, m, root) && AgreeOn(m0, m, live - own)
  }

  /** Pages v0 .. end-1 are validated and planned. */
  ghost predicate Planned(m0: Mem, m: Mem, root: nat, plan: seq<Step>, v0: nat, f0: nat, end: nat, p: Perm) {
    && Tiles(plan, v0, end) && Ready(m, root, plan, v0, f0)
    && forall v: VPage :: v0 <= v < end ==> Verdict(m0, root, v, p) == 0
  }

  lemma UnmappedGrown(m0: Mem, m: Mem, m': Mem, root: nat, own: set<nat>, live: set<nat>, taken: set<nat>,
                      more: set<nat>, u: VPage)
    requires own <= live && Unmapped(m0, m, root, own, live, taken) && more !! live + taken
    requires Grown(m, m', root, u) && AgreeOn(m, m', (live + taken) - (own + taken))
    requires WellFormed(m', root, (own + taken) + more)
    ensures Unmapped(m0, m', root, own, live, taken + more)
    ensures (live + taken) + more == live + (taken + more)
  {
    hide TableAt, EntryAt, WellFormed, Translate, Verdict;
    assert (own + taken) + more == own + (taken + more);
    assert live - own <= (live + taken) - (own + taken);
    AgreeTrans(m0, m, m', live - own, (live + taken) - (own + taken));
  }

  lemma PlanStep(m0: Mem, m: Mem, m': Mem, root: nat, own: set<nat>, live: set<nat>, taken: set<nat>,
                 plan: seq<Step>, v0: nat, f0: nat, u: VPage, l: Level, p: Perm)
    requires Planned(m0, m, root, plan, v0, f0, u, p) && Grown(m, m', root, u) && v0 <= u
    requires Unmapped(m0, m, root, own, live, taken)
    requires LeafReady(m', root, u, f0 + (u - v0), l) && Verdict(m, root, u, p) == 0
    ensures Planned(m0, m', root, plan + [Step(u, l)], v0, f0, u + Pages(l), p)
  {
    hide Grown, WellFormed, AgreeOn, LeafReady, Verdict, Translate;
    GrownReady(m, m', root, plan, v0, f0, u);
    LeafVerdicts(m', root, Step(u, l), f0 + (u - v0), p);
    forall v: VPage | u <= v < u + Pages(l)
      ensures Verdict(m0, root, v, p) == 0
    {
      VerdictKept(m, m', root, u, u, p);
      VerdictKept(m, m', root, u, v, p);
      UnmappedIs(m0, m, root, own, live, taken, v, p);
    }
  }

  lemma UnmappedIs(m0: Mem, m: Mem, root: nat, own: set<nat>, live: set<nat>, taken: set<nat>, u: VPage, p: Perm)
    requires Unmapped(m0, m, root, own, live, taken)
    ensures Verdict(m, root, u, p) == Verdict(m0, root, u, p)
    ensures WellFormed(m, root, own + taken)
  {
  }

  /** After a plan up to u, the verdict on the range is the verdict on u. */
  lemma PlannedVerdict(m0: Mem, m: Mem, root: nat, own: set<nat>, live: set<nat>, taken: set<nat>,
                       plan: seq<Step>, v0: nat, f0: nat, u: nat, n: nat, p: Perm)
    requires Planned(m0, m, root, plan, v0, f0, u, p) && Unmapped(m0, m, root, own, live, taken)
    requires v0 <= u <= v0 + n <= VPAGES
    ensures u == v0 + n ==> RangeVerdict(m0, root, v0, n, p) == 0
    ensures u < v0 + n && Verdict(m, root, u, p) != 0 ==> RangeVerdict(m0, root, v0, n, p) == Verdict(m, root, u, p)
  {
    hide Verdict, Translate, WellFormed, AgreeOn, Tiles, Ready;
    RangeVerdictSkip(m0, root, v0, n, u - v0, p);
  }

  /** Pass 1 after k pages; mine and held are the frames of the tree and of all clients by now. */
  ghost predicate PassOne(m0: Mem, m: Mem, root: nat, own: set<nat>, live: set<nat>, taken: set<nat>,
                          mine: set<nat>, held: set<nat>, plan: seq<Step>, v0: nat, f0: nat, k: nat, p: Perm) {
    && own <= live && mine == own + taken && held == live + taken
    && v0 + k <= VPAGES && Unmapped(m0, m, root, own, live, taken) && Planned(m0, m, root, plan, v0, f0, v0 + k, p)
  }

  lemma PassOneStart(m: Mem, root: nat, own: set<nat>, live: set<nat>, v0: nat, f0: nat, p: Perm)
    requires own <= live && WellFormed(m, root, own) && v0 <= VPAGES
    ensures PassOne(m, m, root, own, live, {}, own, live, [], v0, f0, 0, p)
  {
  }

  lemma PassOneTree(m0: Mem, m: Mem, root: nat, own: set<nat>, live: set<nat>, taken: set<nat>,
                    mine: set<nat>, held: set<nat>, plan: seq<Step>, v0: nat, f0: nat, k: nat, p: Perm)
    requires PassOne(m0, m, root, own, live, taken, mine, held, plan, v0, f0, k, p)
    ensures WellFormed(m, root, mine) && mine <= held
  {
  }

  /** A round of pass 1 that ends in a refusal. */
  lemma PassOneStop(m0: Mem, m: Mem, m': Mem, root: nat, own: set<nat>, live: set<nat>, taken: set<nat>,
                    mine: set<nat>, held: set<nat>, more: set<nat>,
                    plan: seq<Step>, v0: nat, f0: nat, k: nat, u: VPage, n: nat, p: Perm)
    requires PassOne(m0, m, root, own, live, taken, mine, held, plan, v0, f0, k, p) && u == v0 + k
    requires Stepped(m, m', root, mine, held, more, u) && k < n && v0 + n <= VPAGES
    ensures Unmapped(m0, m', root, own, live, taken + more) && held + more == live + (taken + more)
    ensures Verdict(m, root, u, p) != 0 ==> RangeVerdict(m0, root, v0, n, p) == Verdict(m, root, u, p)
    ensures Verdict(m, root, u, p) == 0 ==> MappableTo(m0, root, v0, k, p)
  {
    hide Unmapped, Planned, WellFormed, Grown, AgreeOn, LeafReady, Verdict, Pages, RangeVerdict;
    UnmappedGrown(m0, m, m', root, own, live, taken, more, u);
    PlannedVerdict(m0, m, root, own, live, taken, plan, v0, f0, u, n, p);
    if Verdict(m, root, u, p) == 0 {
      UnmappedIs(m0, m, root, own, live, taken, u, p);
      PlannedPages(m0, m, root, plan, v0, f0, u, p);
    }
  }

  lemma PlannedPages(m0: Mem, m: Mem, root: nat, plan: seq<Step>, v0: nat, f0: nat, end: nat, p: Perm)
    requires Planned(m0, m, root, plan, v0, f0, end, p)
    ensures forall v: VPage :: v0 <= v < end ==> Verdict(m0, root, v, p) == 0
  {
    hide Tiles, Ready, Verdict;
  }

  /** Pages v0 .. v0+k can all be mapped. */
  ghost predicate MappableTo(m: Mem, root: nat, v0: nat, k: nat, p: Perm) {
    forall v: VPage :: v0 <= v <= v0 + k ==> Verdict(m, root, v, p) == 0
  }

  /** Pass 1 cannot go on without a table: the pages up to the k-th can be mapped in m0,
      but in m the k-th has neither a leaf slot that fits the rest nor a table below. */
  ghost predicate StarvedAt(m0: Mem, m: Mem, root: nat, v0: nat, f0: nat, n: nat, p: Perm, k: nat, l: Level) {
    && k < n && v0 + n <= VPAGES && MappableTo(m0, root, v0, k, p)
    && LacksTable(m, root, v0 + k, f0 + k, n - k, l)
  }

  ghost predicate Starved(m0: Mem, m: Mem, root: nat, v0: nat, f0: nat, n: nat, p: Perm) {
    exists k: nat, l: Level :: StarvedAt(m0, m, root, v0, f0, n, p, k, l)
  }

  lemma StarvedWith(m0: Mem, m: Mem, root: nat, v0: nat, f0: nat, n: nat, p: Perm, k: nat, l: Level,
                    u: VPage, f: nat, rest: nat)
    requires k < n && v0 + n <= VPAGES && MappableTo(m0, root, v0, k, p) && LacksTable(m, root, u, f, rest, l)
    requires u == v0 + k && f == f0 + k && rest == n - k
    ensures Starved(m0, m, root, v0, f0, n, p)
  {
    hide MappableTo, LacksTable;
    assert StarvedAt(m0, m, root, v0, f0, n, p, k, l);
  }

  /** A round of pass 1 that finds its leaf. */
  lemma PassOneNext(m0: Mem, m: Mem, m': Mem, root: nat, own: set<nat>, live: set<nat>, taken: set<nat>,
                    mine: set<nat>, held: set<nat>, more: set<nat>,
                    plan: seq<Step>, v0: nat, f0: nat, k: nat, u: VPage, l: Level, p: Perm)
    requires PassOne(m0, m, root, own, live, taken, mine, held, plan, v0, f0, k, p) && u == v0 + k
    requires Stepped(m, m', root, mine, held, more, u)
    requires LeafReady(m', root, u, f0 + k, l) && Verdict(m, root, u, p) == 0 && v0 + k + Pages(l) <= VPAGES
    ensures PassOne(m0, m', root, own, live, taken + more, mine + more, held + more,
                    plan + [Step(u, l)], v0, f0, k + Pages(l), p)
  {
    hide Unmapped, Planned, WellFormed, Grown, AgreeOn, LeafReady, Verdict, Pages, RangeVerdict;
    UnmappedGrown(m0, m, m', root, own, live, taken, more, u);
    PlanStep(m0, m, m', root, own, live, taken, plan, v0, f0, u, l, p);
  }

  lemma PassOneDone(m0: Mem, m: Mem, root: nat, own: set<nat>, live: set<nat>, taken: set<nat>,
                    mine: set<nat>, held: set<nat>, plan: seq<Step>, v0: nat, f0: nat, n: nat, p: Perm)
    requires PassOne(m0, m, root, own, live, taken, mine, held, plan, v0, f0, n, p)
    ensures Unmapped(m0, m, root, own, live, taken) && Planned(m0, m, root, plan, v0, f0, v0 + n, p)
    ensures held == live + taken
    ensures v0 + n <= VPAGES && RangeVerdict(m0, root, v0, n, p) == 0
  {
    hide Unmapped, Planned, RangeVerdict;
    PlannedVerdict(m0, m, root, own, live, taken, plan, v0, f0, v0 + n, n, p);
  }

  lemma FramesApart(m0: Mem, m: Mem, m': Mem, root: nat, own: set<nat>, live: set<nat>, taken: set<nat>,
                    mine: set<nat>, held: set<nat>, more: set<nat>,
                    plan: seq<Step>, v0: nat, f0: nat, k: nat, u: VPage, p: Perm)
    requires PassOne(m0, m, root, own, live, taken, mine, held, plan, v0, f0, k, p)
    requires Stepped(m, m', root, mine, held, more, u)
    ensures taken !! more
  {
    hide Unmapped, Planned, WellFormed, Grown, AgreeOn;
  }

  /** The first pass: a leaf slot for every page of the range, with the tables above it. */
  method Prepare<A(!new)>(ram: array<Word>, root: nat, phys: Word, virt: Word, size: Word, flags: Word,
                          alloc: PtAlloc<A>, ctx: A,
                          ghost inv: (A, Mem, set<nat>) -> bool, ghost own: set<nat>, ghost live: set<nat>)
    returns (r: Outcome, ctx': A, ghost log: Log<A>, ghost plan: seq<Step>, ghost want: set<Place>,
      ghost taken: set<nat>)
    requires Honest(alloc, inv) && inv(ctx, ram[..], live) && own <= live && WellFormed(ram[..], root, own)
    requires GoodRange(phys, virt, size)
    modifies ram
    ensures VPageOf(virt) + PageNo(size) <= VPAGES
    ensures Unmapped(old(ram[..]), ram[..], root, own, live, taken)
    ensures r.Ret? ==> inv(ctx', ram[..], live + taken)
    ensures SameStart(Log(ctx, old(ram[..]), live, []), log) && Reached(alloc, log, ctx', ram[..], live + taken)
    ensures r == Ret(0) ==>
      && Served(alloc, log)
      && Planned(old(ram[..]), ram[..], root, plan, VPageOf(virt), PageNo(phys),
                 VPageOf(virt) + PageNo(size), PermOf(flags))
    // The code is the verdict on the range, or the refusal of a table the range needs.
    ensures Served(alloc, log) ==>
      r == Ret(RangeVerdict(old(ram[..]), root, VPageOf(virt), PageNo(size), PermOf(flags)))
    ensures !Served(alloc, log) ==>
      && log.calls != [] && PassesOn(r, LastReply(alloc, log).answer)
      && Starved(old(ram[..]), ram[..], root, VPageOf(virt), PageNo(phys), PageNo(size), PermOf(flags))
    // The new tables are missing ones of the range: all of them on success, and not all of
    // them if one was refused.
    ensures var missing := Missing(old(ram[..]), root, VPageOf(virt), PageNo(phys), PageNo(size));
      && Supplied(old(ram[..]), ram[..], root, want, taken) && want <= missing
      && (r == Ret(0) ==> want == missing) && (!Served(alloc, log) ==> |taken| < |missing|)
  {
    hide *;
    var pa: Word, va: Word, remaining: Word := phys, virt, size;
    ghost var k, mine, held := 0, own, live;
    ghost var m0, p, v0, f0, n := ram[..], PermOf(flags), VPageOf(virt), PageNo(phys), PageNo(size);
    plan, want, taken, ctx', log := [], {}, {}, ctx, Log(ctx, m0, live, []);
    RangePages(phys, virt, size);
    PassOneStart(m0, root, own, live, v0, f0, p);
    CountStarts(m0, root, v0, f0, n);
    ReachedStart(alloc, ctx, m0, live);
    SameStartTrans(log, log, log);
    while remaining > 0
      invariant 0 <= k && Position(phys, virt, size, k, pa, va, remaining)
      invariant inv(ctx', ram[..], held)
      invariant PassOne(m0, ram[..], root, own, live, taken, mine, held, plan, v0, f0, k, p)
      invariant SameStart(Log(ctx, m0, live, []), log) && Reached(alloc, log, ctx', ram[..], held) && Served(alloc, log)
      invariant Counted(m0, ram[..], root, v0, f0, n, k, want, taken)
      decreases remaining
    {
      Here(phys, virt, size, k, pa, va, remaining);
      ghost var m, u, before := ram[..], VPageOf(va), log;
      PassOneTree(m0, m, root, own, live, taken, mine, held, plan, v0, f0, k, p);
      var span;
      ghost var level, more;
      r, span, ctx', log, level, more :=
        PrepareStep(ram, root, pa, va, remaining, flags, alloc, ctx', log, inv, mine, held);
      SameStartTrans(Log(ctx, m0, live, []), before, log);
      FramesApart(m0, m, ram[..], root, own, live, taken, mine, held, more, plan, v0, f0, k, u, p);
      CountStep(m0, m, ram[..], root, v0, f0, n, k, want, taken, u, level, more);
      if r != Ret(0) {
        PassOneStop(m0, m, ram[..], root, own, live, taken, mine, held, more, plan, v0, f0, k, u, n, p);
        if !Served(alloc, log) {
          StarvedWith(m0, ram[..], root, v0, f0, n, p, k, level, u, PageNo(pa), PageNo(remaining));
          CountShort(m0, m, ram[..], root, v0, f0, n, k, want, taken, u, level, more);
        }
        want := want + MissingAt(m, root, u, level);
        taken := taken + more;
        return;
      }
      Move(phys, virt, size, k, pa, va, remaining, level);
      pa := pa + span;
      va := Wrap(va + span);
      remaining := remaining - span;
      Here(phys, virt, size, k + Pages(level), pa, va, remaining);
      PassOneNext(m0, m, ram[..], root, own, live, taken, mine, held, more, plan, v0, f0, k, u, level, p);
      plan, k, want := plan + [Step(u, level)], k + Pages(level), want + MissingAt(m, root, u, level);
      taken, mine, held := taken + more, mine + more, held + more;
    }
    Here(phys, virt, size, k, pa, va, remaining);
    PassOneDone(m0, ram[..], root, own, live, taken, mine, held, plan, v0, f0, n, p);
    CountDone(m0, ram[..], root, v0, f0, n, want, taken);
    r := Ret(0);
  }

  // -------------------------------------------------------------------- pass 2

  /** The translation of a page mapped to frame f by this call. */
  function MappedTo(f: nat, flags: Word): Translation {
    Mapped(f, Rights(Writable(flags), User(flags), false), AttrsOf(flags))
  }

  /** m' is m with a leaf in slot (u, l), mapping its first page to frame f. */
  ghost predicate Installed(m: Mem, m': Mem, root: nat, own: set<nat>, u: VPage, l: Level, f: nat, flags: Word) {
    && WellFormed(m', root, own) && Written(m, m', root, u, l) && SameOutside(m, m', own)
    && (forall v: VPage :: Translate(m', root, v) ==
          if Under(v, u, l) then MappedTo(f + Offset(v, l), flags) else Translate(m, root, v))
    && (forall v: VPage, q: Perm :: !Under(v, u, l) ==> Verdict(m', root, v, q) == Verdict(m, root, v, q))
  }

  lemma InstallLeaf(m: Mem, root: nat, own: set<nat>, u: VPage, l: Level, t: nat, pa: Word, flags: Word)
    requires WellFormed(m, root, own) && LeafReady(m, root, u, PageNo(pa), l) && TableAt(m, root, u, l) == Some(t)
    requires Verdict(m, root, u, PermOf(flags)) == 0
    requires FlagsAllowed(flags) && PageAligned(pa) && PageNo(pa) < FRAMES
    ensures 512 * t + 512 <= |m|
    ensures Installed(m, SetEntry(m, t, Idx(u, l), LeafWord(pa, flags, l)), root, own, u, l, PageNo(pa), flags)
  {
    hide WellFormed, AgreeOn, Translate, Verdict, Slot, Idx, Offset, TableAt, EntryAt, Leaf, Written;
    TableInRam(m, root, own, u, l, t);
    var w := LeafWord(pa, flags, l);
    assert EmptySlot(m, root, u, l, t) by { SlotOf(m, root, u, l, t); }
    WriteLeaf(m, root, own, u, l, t, w, PermOf(flags));
    forall v: VPage {
      LeafMeaning(pa, flags, l, v, Rights(Writable(flags), User(flags), false));
    }
  }

  lemma SlotOf(m: Mem, root: nat, u: VPage, l: Level, t: nat)
    requires TableAt(m, root, u, l) == Some(t)
    ensures EntryAt(m, root, u, l) == Entry(m, t, Idx(u, l))
  {
  }

  /** What pass 2 meets on the walk to a ready leaf: pointers above it, nothing at it. */
  lemma OnTheWay(m: Mem, root: nat, own: set<nat>, u: VPage, f: nat, l: Level, k: Level, t: nat)
    requires WellFormed(m, root, own) && LeafReady(m, root, u, f, k) && k <= l && TableAt(m, root, u, l) == Some(t)
    ensures 512 * t + 512 <= |m|
    ensures l == k ==> Entry(m, t, Idx(u, l)) == 0
    ensures l > k ==>
      var e := Entry(m, t, Idx(u, l));
      e != 0 && And(e, PHYS_ADDR_MASK) / 4096 == Frame(e) && TableAt(m, root, u, l - 1) == Some(Frame(e))
  {
    hide WellFormed, Slot, Idx, Offset, And;
    TableInRam(m, root, own, u, l, t);
    if l > k {
      TablePointer(m, root, u, u, k, l);
      EntryTests(Entry(m, t, Idx(u, l)));
    }
  }

  lemma LeafStops(m: Mem, root: nat, pa: Word, va: Word, remaining: Word, l: Level)
    requires LeafReady(m, root, VPageOf(va), PageNo(pa), l) && 4096 * Pages(l) <= remaining
    ensures StopsAt(pa, va, remaining, l, 0) && l <= 2
  {
  }

  /** One round of pass 2: walk to the leaf slot for va and fill it. */
  method InstallStep(ram: array<Word>, root: nat, pa: Word, va: Word, remaining: Word, flags: Word, ghost k: Level,
                     ghost own: set<nat>)
    returns (span: nat)
    requires WellFormed(ram[..], root, own) && PageAligned(pa) && PageAligned(va) && PageNo(pa) < FRAMES
    requires LeafReady(ram[..], root, VPageOf(va), PageNo(pa), k) && 4096 * Pages(k) <= remaining
    requires FlagsAllowed(flags) && LeafFlags(flags) == flags && Verdict(ram[..], root, VPageOf(va), PermOf(flags)) == 0
    modifies ram
    ensures span == 4096 * Pages(k)
    ensures Installed(old(ram[..]), ram[..], root, own, VPageOf(va), k, PageNo(pa), flags)
  {
    hide WellFormed, LeafReady, TableAt, EntryAt, Verdict, And, Or, Pow2, Slot, Idx, Offset, Installed, Pages,
         FlagsAllowed, LeafWord, VPageOf, LeafFlags, Entry;
    ghost var m, v := ram[..], VPageOf(va);
    LeafStops(m, root, pa, va, remaining, k);
    var table := root;
    var shift := 39;
    ghost var level: Level := 3;
    RootTable(m, root, v);
    while shift >= 12
      invariant 0 <= k <= level <= 3 && shift == Shift(level)
      invariant ram[..] == m && TableAt(m, root, v, level) == Some(table)
      decreases level
    {
      IndexOf(va, level);
      OnTheWay(m, root, own, v, PageNo(pa), level, k, table);
      var i := And(Shr(va, shift), 511);
      var e := ReadEntry(ram, table, i);
      span := Pow2(shift);
      LeafTestMeaning(pa, va, remaining, level, e);
      if LeafTest(pa, va, remaining, shift, span, e) {
        assert level == k by { StopLevel(pa, va, remaining, level, k, e); }
        LeafEntry(pa, flags, level);
        InstallLeaf(m, root, own, v, k, table, pa, flags);
        StoreEntry(ram, table, i, Or(Or(pa, flags), if shift == 12 then 0 else PAGE_FLAG_PAGESIZE));
        return;
      }
      assert level > k by { StopLevel(pa, va, remaining, level, k, e); }
      table := And(e, PHYS_ADDR_MASK) / 4096;
      level := level - 1;
      shift := shift - 9;
    }
    assert false;
  }

  method ReadEntry(ram: array<Word>, t: nat, i: Index) returns (e: Word)
    requires 512 * t + 512 <= ram.Length
    ensures e == Entry(ram[..], t, i)
  {
    e := ram[512 * t + i];
  }

  lemma RootTable(m: Mem, root: nat, v: VPage)
    ensures TableAt(m, root, v, 3) == Some(root)
  {
  }

  /** Pass 2 stops at the planned level: not above it, where entries are pointers. */
  lemma StopLevel(pa: Word, va: Word, remaining: Word, l: Level, k: Level, e: Word)
    requires k <= l && (l > k ==> e != 0) && (l == k ==> e == 0) && StopsAt(pa, va, remaining, k, 0)
    ensures StopsAt(pa, va, remaining, l, e) <==> l == k
  {
  }

  // -------------------------------------------------------------- pass 2, whole

  /** The tables of m' are in the same frames as those of m. */
  ghost predicate SamePlaces(m: Mem, m': Mem, root: nat) {
    forall v: VPage, l: Level :: TableAt(m', root, v, l) == TableAt(m, root, v, l)
  }

  lemma WrittenPlaces(m1: Mem, m: Mem, m': Mem, root: nat, u: VPage, k: Level)
    requires SamePlaces(m1, m, root) && Written(m, m', root, u, k)
    ensures SamePlaces(m1, m', root)
  {
    hide TableAt, EntryAt, Under;
  }

  /** New tables stay new while the tables stay where they are. */
  lemma SuppliedPlaces(m0: Mem, m: Mem, m': Mem, root: nat, want: set<Place>, taken: set<nat>)
    requires SamePlaces(m, m', root) && Supplied(m0, m, root, want, taken)
    ensures Supplied(m0, m', root, want, taken)
  {
    hide TableAt, PlaceOf, IsPlace;
    assert forall v: VPage, l: Level :: IsNew(m0, m', root, v, l) <==> IsNew(m0, m, root, v, l);
    forall q | q in taken
      ensures Houses(m0, m', root, q)
    {
      assert Houses(m0, m, root, q);
      var v: VPage, l: Level :| IsNew(m0, m, root, v, l) && TableAt(m, root, v, l) == Some(q);
      assert IsNew(m0, m', root, v, l);
    }
  }

  /** Pass 2 after j steps and k pages, started from m1. */
  ghost predicate PassTwo(m1: Mem, m: Mem, root: nat, own: set<nat>, plan: seq<Step>, j: nat,
                          v0: nat, f0: nat, k: nat, n: nat, flags: Word) {
    && Tiles(plan, v0, v0 + n) && v0 + n <= VPAGES && f0 + n <= FRAMES && k <= n
    && (if j < |plan| then plan[j].page == v0 + k else j == |plan| && k == n)
    && WellFormed(m, root, own) && SameOutside(m1, m, own) && SamePlaces(m1, m, root)
    && (forall i :: j <= i < |plan| ==>
          LeafReady(m, root, plan[i].page, f0 + (plan[i].page - v0), plan[i].level))
    && (forall v: VPage :: v0 + k <= v < v0 + n ==> Verdict(m, root, v, PermOf(flags)) == 0)
    && (forall v: VPage, q: Perm :: !(v0 <= v < v0 + k) ==> Verdict(m, root, v, q) == Verdict(m1, root, v, q))
    && (forall v: VPage :: Translate(m, root, v) ==
          if v0 <= v < v0 + k then MappedTo(f0 + (v - v0), flags) else Translate(m1, root, v))
  }

  lemma PassTwoStart(m0: Mem, m: Mem, root: nat, own: set<nat>, live: set<nat>, taken: set<nat>, mine: set<nat>,
                     plan: seq<Step>, v0: nat, f0: nat, n: nat, flags: Word)
    requires Unmapped(m0, m, root, own, live, taken) && Planned(m0, m, root, plan, v0, f0, v0 + n, PermOf(flags))
    requires v0 + n <= VPAGES && f0 + n <= FRAMES && mine == own + taken
    ensures PassTwo(m, m, root, mine, plan, 0, v0, f0, 0, n, flags)
  {
    hide WellFormed, LeafReady, Translate, Verdict, AgreeOn, Pages, TableAt;
    assert SameView(m0, m, root);
  }

  /** The step pass 2 is about to take, met by the loop variables. */
  lemma PassTwoHere(m1: Mem, m: Mem, root: nat, own: set<nat>, plan: seq<Step>, j: nat,
                    v0: nat, f0: nat, k: nat, n: nat, flags: Word)
    requires PassTwo(m1, m, root, own, plan, j, v0, f0, k, n, flags) && k < n
    ensures j < |plan| && plan[j].page == v0 + k && k + Pages(plan[j].level) <= n
    ensures WellFormed(m, root, own)
    ensures LeafReady(m, root, plan[j].page, f0 + k, plan[j].level)
    ensures Verdict(m, root, plan[j].page, PermOf(flags)) == 0
  {
    hide WellFormed, LeafReady, Translate, Verdict, SameOutside, SamePlaces, Pages;
  }

  lemma PassTwoNext(m1: Mem, m: Mem, m': Mem, root: nat, own: set<nat>, plan: seq<Step>, j: nat,
                    v0: nat, f0: nat, k: nat, n: nat, flags: Word)
    requires PassTwo(m1, m, root, own, plan, j, v0, f0, k, n, flags) && k < n && j < |plan|
    requires Installed(m, m', root, own, plan[j].page, plan[j].level, f0 + k, flags)
    ensures PassTwo(m1, m', root, own, plan, j + 1, v0, f0, k + Pages(plan[j].level), n, flags)
  {
    hide WellFormed, LeafReady, Translate, Verdict, SameOutside, Pages, Slot, Offset, Written, SamePlaces;
    var s := plan[j];
    WrittenPlaces(m1, m, m', root, s.page, s.level);
    assert LeafReady(m, root, s.page, f0 + (s.page - v0), s.level);
    ReadyAligned(m, root, s.page, f0 + k, s.level);
    forall i | j + 1 <= i < |plan|
      ensures LeafReady(m', root, plan[i].page, f0 + (plan[i].page - v0), plan[i].level)
    {
      TilesApart(plan, v0, v0 + n, j, i);
      UnderRange(plan[i].page, s.page, s.level);
      WrittenReady(m, m', root, s.page, s.level, plan[i].page, f0 + (plan[i].page - v0), plan[i].level);
    }
    forall v: VPage
      ensures v0 + k + Pages(s.level) <= v < v0 + n ==> Verdict(m', root, v, PermOf(flags)) == 0
      ensures Translate(m', root, v) ==
        if v0 <= v < v0 + k + Pages(s.level) then MappedTo(f0 + (v - v0), flags) else Translate(m1, root, v)
    {
      UnderRange(v, s.page, s.level);
    }
    forall v: VPage, q: Perm | !(v0 <= v < v0 + k + Pages(s.level))
      ensures Verdict(m', root, v, q) == Verdict(m1, root, v, q)
    {
      UnderRange(v, s.page, s.level);
    }
    SameOutsideTrans(m1, m, m', own);
  }

  lemma ReadyAligned(m: Mem, root: nat, u: VPage, f: nat, l: Level)
    requires LeafReady(m, root, u, f, l)
    ensures Offset(u, l) == 0
  {
  }

  /** Later steps start after earlier ones end. */
  lemma {:induction false} TilesApart(plan: seq<Step>, v0: nat, end: nat, j: nat, i: nat)
    requires Tiles(plan, v0, end) && j < i < |plan|
    ensures plan[j].End() <= plan[i].page
  {
    if i > j + 1 {
      TilesApart(plan, v0, end, j, i - 1);
      assert plan[i - 1 + 1].page == plan[i - 1].End();
    }
  }

  lemma WrittenReady(m: Mem, m': Mem, root: nat, u: VPage, k: Level, v: VPage, f: nat, l: Level)
    requires Written(m, m', root, u, k) && !Under(v, u, k) && LeafReady(m, root, v, f, l)
    ensures LeafReady(m', root, v, f, l)
  {
  }

  /** The second pass: the planned leaves, into tables that are all there by now. */
  method Install(ram: array<Word>, root: nat, phys: Word, virt: Word, size: Word, flags: Word,
                 ghost plan: seq<Step>, ghost own: set<nat>)
    requires GoodRange(phys, virt, size) && FlagsAllowed(flags) && LeafFlags(flags) == flags
    requires PassTwo(ram[..], ram[..], root, own, plan, 0, VPageOf(virt), PageNo(phys), 0, PageNo(size), flags)
    modifies ram
    ensures PassTwo(old(ram[..]), ram[..], root, own, plan, |plan|, VPageOf(virt), PageNo(phys), PageNo(size),
      PageNo(size), flags)
  {
    hide *;
    var pa: Word, va: Word, remaining: Word := phys, virt, size;
    ghost var k: nat, j: nat := 0, 0;
    ghost var m1, v0, f0, n := ram[..], VPageOf(virt), PageNo(phys), PageNo(size);
    RangePages(phys, virt, size);
    while remaining > 0
      invariant Position(phys, virt, size, k, pa, va, remaining)
      invariant PassTwo(m1, ram[..], root, own, plan, j, v0, f0, k, n, flags)
      decreases remaining
    {
      Here(phys, virt, size, k, pa, va, remaining);
      ghost var m := ram[..];
      PassTwoHere(m1, m, root, own, plan, j, v0, f0, k, n, flags);
      ghost var level := plan[j].level;
      Fits(phys, virt, size, k, pa, va, remaining, level);
      var span := InstallStep(ram, root, pa, va, remaining, flags, level, own);
      PassTwoNext(m1, m, ram[..], root, own, plan, j, v0, f0, k, n, flags);
      Move(phys, virt, size, k, pa, va, remaining, level);
      pa := pa + span;
      va := Wrap(va + span);
      remaining := remaining - span;
      k, j := k + Pages(level), j + 1;
    }
    Here(phys, virt, size, k, pa, va, remaining);
    PassTwoEnd(m1, ram[..], root, own, plan, j, v0, f0, k, n, flags);
  }

  lemma PassTwoEnd(m1: Mem, m: Mem, root: nat, own: set<nat>, plan: seq<Step>, j: nat,
                   v0: nat, f0: nat, k: nat, n: nat, flags: Word)
    requires PassTwo(m1, m, root, own, plan, j, v0, f0, k, n, flags) && k == n
    ensures j == |plan|
  {
    hide WellFormed, LeafReady, Translate, Verdict, SameOutside, SamePlaces;
  }

  /** A planned leaf fits what remains. */
  lemma Fits(phys: Word, virt: Word, size: Word, k: nat, pa: Word, va: Word, remaining: Word, l: Level)
    requires GoodRange(phys, virt, size) && Position(phys, virt, size, k, pa, va, remaining)
    requires k + Pages(l) <= PageNo(size)
    ensures 0 < 4096 * Pages(l) <= remaining
  {
  }

  // -------------------------------------------------------------------- vm_map

  /** Every canonical address of the range reaches its physical byte with exactly the
      requested rights and attributes, and every other one is translated as before. */
  ghost predicate MapsRange(m: Mem, m': Mem, root: nat, phys: Word, virt: Word, size: Word, flags: Word) {
    forall va: Word :: Canonical(va) ==>
      Walk(m', root, va) ==
        if virt <= va < virt + size
        then Byte(phys + (va - virt), Rights(Writable(flags), User(flags), false), AttrsOf(flags))
        else Walk(m, root, va)
  }

  /** The verdicts on pages outside the range are those of m. */
  ghost predicate SameVerdictsOutside(m: Mem, m': Mem, root: nat, virt: Word, size: Word) {
    forall v: VPage, q: Perm :: !(VPageOf(virt) <= v < VPageOf(virt) + PageNo(size)) ==>
      Verdict(m', root, v, q) == Verdict(m, root, v, q)
  }

  lemma PagesToBytes(m: Mem, m': Mem, root: nat, phys: Word, virt: Word, size: Word, flags: Word)
    requires GoodRange(phys, virt, size) && FlagsAllowed(flags)
    requires forall v: VPage ::
      Translate(m', root, v) ==
        if VPageOf(virt) <= v < VPageOf(virt) + PageNo(size)
        then MappedTo(PageNo(phys) + (v - VPageOf(virt)), LeafFlags(flags)) else Translate(m, root, v)
    ensures MapsRange(m, m', root, phys, virt, size, flags)
  {
    hide Translate, GoodRange, FlagsAllowed, LeafFlags, VPageOf, PageNo;
    forall va: Word | Canonical(va)
      ensures Walk(m', root, va) ==
        if virt <= va < virt + size
        then Byte(phys + (va - virt), Rights(Writable(flags), User(flags), false), AttrsOf(flags))
        else Walk(m, root, va)
    {
      RangeByPage(phys, virt, size, va);
    }
  }

  lemma PassTwoResult(m0: Mem, m1: Mem, m: Mem, root: nat, own: set<nat>, live: set<nat>, taken: set<nat>,
                      want: set<Place>, plan: seq<Step>, phys: Word, virt: Word, size: Word, flags: Word)
    requires Unmapped(m0, m1, root, own, live, taken) && own <= live && Supplied(m0, m1, root, want, taken)
    requires GoodRange(phys, virt, size) && FlagsAllowed(flags)
    requires PassTwo(m1, m, root, own + taken, plan, |plan|, VPageOf(virt), PageNo(phys), PageNo(size), PageNo(size),
                     LeafFlags(flags))
    ensures MapsRange(m0, m, root, phys, virt, size, flags) && SameVerdictsOutside(m0, m, root, virt, size)
    ensures WellFormed(m, root, own + taken) && AgreeOn(m0, m, live - own)
    ensures SameOutside(m1, m, live + taken) && Supplied(m0, m, root, want, taken)
  {
    hide WellFormed, Translate, Verdict, LeafReady, Tiles, LeafFlags, VPageOf, PageNo, MappedTo, GoodRange,
         FlagsAllowed, SameOutside, MapsRange, SamePlaces, Supplied;
    SuppliedPlaces(m0, m1, m, root, want, taken);
    assert SameView(m0, m1, root);
    PagesToBytes(m0, m, root, phys, virt, size, flags);
    FramesKept(m0, m1, m, own, live, taken);
  }

  lemma FramesKept(m0: Mem, m1: Mem, m: Mem, own: set<nat>, live: set<nat>, taken: set<nat>)
    requires AgreeOn(m0, m1, live - own) && SameOutside(m1, m, own + taken) && taken !! live && own <= live
    ensures AgreeOn(m0, m, live - own) && SameOutside(m1, m, live + taken)
  {
    hide Entry;
    forall t: nat, i: Index | t in live - own
      ensures Entry(m, t, i) == Entry(m0, t, i)
    {
      assert t !in own + taken;
    }
  }

  lemma InvKept<A(!new)>(alloc: PtAlloc<A>, inv: (A, Mem, set<nat>) -> bool, ctx: A, m: Mem, m': Mem, live: set<nat>)
    requires Honest(alloc, inv) && inv(ctx, m, live) && SameOutside(m, m', live)
    ensures inv(ctx, m', live)
  {
  }

  /** The argument checks of vm_map, with the 64-bit wrap-around of virt + size - 1. */
  method CheckArguments(pgd: bool, alloc: bool, phys: Word, virt: Word, size: Word, flags: Word) returns (ok: bool)
    requires size != 0
    ensures ok <==>
      && pgd && alloc && flags < 0x200 && flags / 0x20 % 4 == 0
      && phys % 4096 == 0 && virt % 4096 == 0 && size % 4096 == 0 && phys + size <= 0x10_0000_0000_0000
      && virt + size <= W64 && forall va: Word :: virt <= va < virt + size ==>
           Canonical(va) && (va < 0x8000_0000_0000 <==> virt < 0x8000_0000_0000)
  {
    GoodRangeIs(phys, virt, size);
    FlagsAre(flags);
    AlignedTest(phys, virt, size);
    FlagsTest(flags);
    HalfTest(virt, size);
    if !pgd || !alloc || And(Or(Or(phys, virt), size), PAGE_SIZE - 1) != 0
       || size - 1 > W64 - 1 - virt
       || phys > 0x000F_FFFF_FFFF_FFFF
       || size - 1 > 0x000F_FFFF_FFFF_FFFF - phys
       || And(flags, Not(0x19F)) != 0
    {
      return false;
    }
    var half := Shr(virt, 47);
    if (half != 0 && half != 0x1ffff) || Shr(Wrap(virt + size - 1), 47) != half {
      return false;
    }
    return true;
  }

  lemma AlignedTest(phys: Word, virt: Word, size: Word)
    ensures And(Or(Or(phys, virt), size), PAGE_SIZE - 1) == 0 <==>
            PageAligned(phys) && PageAligned(virt) && PageAligned(size)
  {
    Powers();
    OrAligned(Or(phys, virt), size, 12);
    OrAligned(phys, virt, 12);
    AndLow(Or(phys, virt), 12);
  }

  lemma HalfTest(virt: Word, size: Word)
    ensures size > 0 && virt + size <= W64 ==>
      ((Shr(virt, 47) == 0 || Shr(virt, 47) == 0x1ffff) && Shr(Wrap(virt + size - 1), 47) == Shr(virt, 47)
       <==> virt + size <= 0x8000_0000_0000 || virt >= 0xFFFF_8000_0000_0000)
  {
    Powers();
  }

  /** What a call on good arguments has done when it returns r, having found log.mem and
      leaving m: the frames `taken` are new tables of the tree, whose frames were `own`. */
  ghost predicate Done<A>(alloc: PtAlloc<A>, log: Log<A>, r: Outcome, ctx: A, m: Mem, root: nat,
                          phys: Word, virt: Word, size: Word, flags: Word, own: set<nat>, taken: set<nat>) {
    var v0, f0, n, p := VPageOf(virt), PageNo(phys), PageNo(size), PermOf(flags);
    && v0 + n <= VPAGES
    // The tables and everybody else's frames.
    && taken !! log.live && WellFormed(m, root, own + taken) && AgreeOn(log.mem, m, log.live - own)
    // The calls to the allocator, and the code: the verdict of the old tables on the
    // range, or else the refusal of a table that mappable pages needed.
    && Reached(alloc, log, ctx, m, log.live + taken)
    && (Served(alloc, log) ==> r == Ret(RangeVerdict(log.mem, root, v0, n, p)))
    && (!Served(alloc, log) ==>
          && r != Ret(0) && log.calls != [] && PassesOn(r, LastReply(alloc, log).answer)
          && Starved(log.mem, m, root, v0, f0, n, p))
    // How many tables are asked for, told from the old tables.
    && |log.calls| == |taken| + (if Served(alloc, log) then 0 else 1)
    && FillsMissing(log.mem, m, root, Missing(log.mem, root, v0, f0, n), taken)
    && (r == Ret(0) ==> |taken| == |Missing(log.mem, root, v0, f0, n)|)
    && (!Served(alloc, log) ==> |taken| < |Missing(log.mem, root, v0, f0, n)|)
    // The translations.
    && (r == Ret(0) ==>
          && MapsRange(log.mem, m, root, phys, virt, size, flags)
          && SameVerdictsOutside(log.mem, m, root, virt, size))
    && (r != Ret(0) ==> SameView(log.mem, m, root))
  }

  /** Each frame taken is a table at one of the places that had none, one frame a place, and
      no other table is new. */
  ghost predicate FillsMissing(m0: Mem, m: Mem, root: nat, missing: set<Place>, taken: set<nat>) {
    exists want :: want <= missing && Supplied(m0, m, root, want, taken)
  }

  /** vm_map.  `own` are the frames of this tree, `live` all frames in use by clients of
      the allocator; `log` tells what the allocator was asked. */
  method VmMap<A(!new)>(ram: array<Word>, pgd: Option<nat>, phys: Word, virt: Word, size: Word, flags: Word,
                        allocator: Option<PtAlloc<A>>, ctx: A,
                        ghost inv: (A, Mem, set<nat>) -> bool, ghost own: set<nat>, ghost live: set<nat>)
    returns (r: Outcome, ctx': A, ghost taken: set<nat>, ghost log: Log<A>)
    requires own <= live
    requires allocator.Some? ==> Honest(allocator.value, inv) && inv(ctx, ram[..], live)
    requires pgd.Some? ==> WellFormed(ram[..], pgd.value, own)
    modifies ram
    ensures SameStart(Log(ctx, old(ram[..]), live, []), log)
    // The arguments are good if there are a tree and an allocator, no flag but P, R/W, U/S, PWT, PCD,
    // PS and G, and an aligned range of existing physical bytes and of canonical addresses in one half.
    ensures
      if && size > 0 && pgd.Some? && allocator.Some? && flags < 0x200 && flags / 0x20 % 4 == 0
         && phys % 4096 == 0 && virt % 4096 == 0 && size % 4096 == 0 && phys + size <= 0x10_0000_0000_0000
         && virt + size <= W64 && forall va: Word :: virt <= va < virt + size ==>
              Canonical(va) && (va < 0x8000_0000_0000 <==> virt < 0x8000_0000_0000)
      then
        && Done(allocator.value, log, r, ctx', ram[..], pgd.value, phys, virt, size, flags, own, taken)
        && (r.Ret? ==> inv(ctx', ram[..], live + taken))
      else
        && r == Ret(if size == 0 then 0 else -EINVAL)
        && ram[..] == old(ram[..]) && ctx' == ctx && taken == {} && log.calls == []
    // What the processor makes of the tables: on success every address of the range reaches its own
    // byte, with the rights and attributes asked for and no NX, and nothing else changes ..
    ensures size > 0 && r == Ret(0) ==> pgd.Some? && forall va: Word :: Canonical(va) ==>
      Walk(ram[..], pgd.value, va) ==
        if virt <= va < virt + size
        then Byte(phys + (va - virt), Rights(flags / 2 % 2 == 1, flags / 4 % 2 == 1, false),
                  Attrs(false, flags / 8 % 2 == 1, flags / 16 % 2 == 1, flags / 256 % 2 == 1))
        else Walk(old(ram[..]), pgd.value, va)
    // .. and on failure nothing changes at all.
    ensures r != Ret(0) && pgd.Some? ==> forall va: Word :: Canonical(va) ==>
      Walk(ram[..], pgd.value, va) == Walk(old(ram[..]), pgd.value, va)
  {
    hide FillsMissing, Supplied, Missing, HonestReply;
    hide Honest, WellFormed, AgreeOn, GoodRange, FlagsAllowed, MapsRange, SameVerdictsOutside, SameView, PassTwo,
         Planned, Unmapped, RangeVerdict, VPageOf, PageNo, LeafFlags, And, Or, SameOutside, Done, Reached, Served,
         LastReply, PassesOn, Starved;
    ghost var m0 := ram[..];
    ctx', taken, log := ctx, {}, Log(ctx, m0, live, []);
    SameStartTrans(log, log, log);
    EmptyIsBad(phys, virt, size);
    GoodRangeIs(phys, virt, size);
    FlagsAre(flags);
    if size == 0 {
      return Ret(0), ctx', taken, log;
    }
    var ok := CheckArguments(pgd.Some?, allocator.Some?, phys, virt, size, flags);
    if !ok {
      return Ret(-EINVAL), ctx', taken, log;
    }
    NormalizeFlags(flags);
    var leafFlags := Or(And(flags, Not(PAGE_FLAG_PAGESIZE)), PAGE_FLAG_PRESENT);
    NormalFlags(flags);
    RangePages(phys, virt, size);
    ghost var plan, want;
    r, ctx', log, plan, want, taken :=
      Prepare(ram, pgd.value, phys, virt, size, leafFlags, allocator.value, ctx, inv, own, live);
    UnmappedApart(m0, ram[..], pgd.value, own, live, taken);
    CallsCounted(allocator.value, inv, log, ctx', ram[..], taken);
    FillsWith(m0, ram[..], pgd.value, Missing(m0, pgd.value, VPageOf(virt), PageNo(phys), PageNo(size)), want, taken);
    if r != Ret(0) {
      DoneRefused(allocator.value, log, r, ctx', ram[..], pgd.value, phys, virt, size, flags, own, taken);
      DoneWalks(allocator.value, log, r, ctx', ram[..], pgd.value, phys, virt, size, flags, own, taken);
      return;
    }
    ghost var m1 := ram[..];
    PassTwoStart(m0, m1, pgd.value, own, live, taken, own + taken, plan, VPageOf(virt), PageNo(phys), PageNo(size),
      leafFlags);
    Install(ram, pgd.value, phys, virt, size, leafFlags, plan, own + taken);
    PassTwoResult(m0, m1, ram[..], pgd.value, own, live, taken, want, plan, phys, virt, size, flags);
    FillsWith(m0, ram[..], pgd.value, Missing(m0, pgd.value, VPageOf(virt), PageNo(phys), PageNo(size)), want, taken);
    InvKept(allocator.value, inv, ctx', m1, ram[..], live + taken);
    DoneMapped(allocator.value, log, ctx', m1, ram[..], pgd.value, phys, virt, size, flags, own, taken);
    DoneWalks(allocator.value, log, r, ctx', ram[..], pgd.value, phys, virt, size, flags, own, taken);
  }

  /** A finished call in terms of the processor's walk. */
  lemma DoneWalks<A>(alloc: PtAlloc<A>, log: Log<A>, r: Outcome, ctx: A, m: Mem, root: nat,
                     phys: Word, virt: Word, size: Word, flags: Word, own: set<nat>, taken: set<nat>)
    requires Done(alloc, log, r, ctx, m, root, phys, virt, size, flags, own, taken)
    ensures r == Ret(0) ==> forall va: Word :: Canonical(va) ==>
      Walk(m, root, va) ==
        if virt <= va < virt + size
        then Byte(phys + (va - virt), Rights(flags / 2 % 2 == 1, flags / 4 % 2 == 1, false),
                  Attrs(false, flags / 8 % 2 == 1, flags / 16 % 2 == 1, flags / 256 % 2 == 1))
        else Walk(log.mem, root, va)
    ensures r != Ret(0) ==> forall va: Word :: Canonical(va) ==> Walk(m, root, va) == Walk(log.mem, root, va)
  {
    hide FillsMissing, Missing, WellFormed, AgreeOn, Served, Reached, RangeVerdict, VPageOf, PageNo, Translate, Verdict,
         SameVerdictsOutside, PassesOn, LastReply, Starved;
  }

  lemma UnmappedApart(m0: Mem, m: Mem, root: nat, own: set<nat>, live: set<nat>, taken: set<nat>)
    requires Unmapped(m0, m, root, own, live, taken)
    ensures taken !! live
  {
  }

  lemma FillsWith(m0: Mem, m: Mem, root: nat, missing: set<Place>, want: set<Place>, taken: set<nat>)
    requires want <= missing && Supplied(m0, m, root, want, taken)
    ensures FillsMissing(m0, m, root, missing, taken)
    ensures want == missing ==> |taken| == |missing|
  {
    SuppliedSize(m0, m, root, want, taken);
    hide Supplied;
  }

  lemma CallsCounted<A(!new)>(alloc: PtAlloc<A>, inv: (A, Mem, set<nat>) -> bool, log: Log<A>, ctx: A, m: Mem,
                              taken: set<nat>)
    requires Honest(alloc, inv) && inv(log.ctx, log.mem, log.live)
    requires Reached(alloc, log, ctx, m, log.live + taken) && taken !! log.live
    ensures |log.calls| == |taken| + (if Served(alloc, log) then 0 else 1)
  {
    hide Honest, Served, Follows, SameOutside, StateNow, MemoryNow, Granted;
    HonestLog(alloc, inv, log);
    assert taken == Granted(alloc, log);
  }

  lemma DoneRefused<A>(alloc: PtAlloc<A>, log: Log<A>, r: Outcome, ctx: A, m: Mem, root: nat,
                       phys: Word, virt: Word, size: Word, flags: Word, own: set<nat>, taken: set<nat>)
    requires Unmapped(log.mem, m, root, own, log.live, taken) && r != Ret(0)
    requires VPageOf(virt) + PageNo(size) <= VPAGES && Reached(alloc, log, ctx, m, log.live + taken)
    requires Served(alloc, log) ==> r == Ret(RangeVerdict(log.mem, root, VPageOf(virt), PageNo(size), PermOf(flags)))
    requires |log.calls| == |taken| + (if Served(alloc, log) then 0 else 1)
    requires var missing := Missing(log.mem, root, VPageOf(virt), PageNo(phys), PageNo(size));
      FillsMissing(log.mem, m, root, missing, taken) && (!Served(alloc, log) ==> |taken| < |missing|)
    requires !Served(alloc, log) ==>
      && log.calls != [] && PassesOn(r, LastReply(alloc, log).answer)
      && Starved(log.mem, m, root, VPageOf(virt), PageNo(phys), PageNo(size), PermOf(flags))
    ensures Done(alloc, log, r, ctx, m, root, phys, virt, size, flags, own, taken)
  {
    hide Reached, Served, SameOutside, WellFormed, AgreeOn, RangeVerdict, MapsRange, SameVerdictsOutside, VPageOf,
         PageNo, SameView, Starved, PassesOn, LastReply, FillsMissing, Missing;
  }

  lemma DoneMapped<A>(alloc: PtAlloc<A>, log: Log<A>, ctx: A, m1: Mem, m: Mem, root: nat,
                      phys: Word, virt: Word, size: Word, flags: Word, own: set<nat>, taken: set<nat>)
    requires Reached(alloc, log, ctx, m1, log.live + taken) && SameOutside(m1, m, log.live + taken)
      && Served(alloc, log)
    requires VPageOf(virt) + PageNo(size) <= VPAGES && |log.calls| == |taken|
    requires Unmapped(log.mem, m1, root, own, log.live, taken)
    requires var missing := Missing(log.mem, root, VPageOf(virt), PageNo(phys), PageNo(size));
      FillsMissing(log.mem, m, root, missing, taken) && |taken| == |missing|
    requires WellFormed(m, root, own + taken) && AgreeOn(log.mem, m, log.live - own)
    requires RangeVerdict(log.mem, root, VPageOf(virt), PageNo(size), PermOf(flags)) == 0
    requires MapsRange(log.mem, m, root, phys, virt, size, flags)
    requires SameVerdictsOutside(log.mem, m, root, virt, size)
    ensures Done(alloc, log, Ret(0), ctx, m, root, phys, virt, size, flags, own, taken)
  {
    hide Reached, Served, SameOutside, WellFormed, AgreeOn, RangeVerdict, MapsRange, SameVerdictsOutside, VPageOf,
         PageNo, SameView, FillsMissing, Missing;
    ReachedWrite(alloc, log, ctx, m1, m, log.live + taken);
  }

  lemma EmptyIsBad(phys: Word, virt: Word, size: Word)
    ensures size == 0 ==> !GoodRange(phys, virt, size)
  {
  }

  lemma NormalFlags(flags: Word)
    requires FlagsAllowed(flags)
    ensures FlagsAllowed(LeafFlags(flags)) && LeafFlags(LeafFlags(flags)) == LeafFlags(flags)
    ensures PermOf(LeafFlags(flags)) == PermOf(flags)
  {
    NoDirty(flags);
  }
}
