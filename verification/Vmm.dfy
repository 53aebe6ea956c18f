/** vmm.c: kernel mappings whose page tables come from the buddy allocator. */
module Vmm {
  import opened Bits
  import opened MissingTables
  import opened Option
  import opened PageTables
  import opened PagingBits
  import opened Paging
  import opened TableAllocator
  import opened VmMapLaws
  import opened Lists
  import opened BuddyModel
  import opened BuddyLaws
  import opened BuddyMemory

  /** vm_page_alloc: a zeroed page from the buddy allocator, or -ENOMEM; palloc's
      out-of-memory panic does not return. */
  function VmPageAlloc(maps: Addr, b: Buddy, m: Mem): Reply<Buddy> {
    if |b.lists| != BUDDY_MAX_ORDER + 1 then Reply(b, m, Halt)
    else
      var (c, r) := Alloc(b, 0);
      var m' := PallocMem(b, m, maps, 0, true);
      match r
      case Null => Reply(c, m', Fail(-ENOMEM))
      case Panic => Reply(c, m', Halt)
      case Got(p) => Reply(c, m', Page(p))
  }

  /** The allocator as vm_map sees it. */
  function Allocator(maps: Addr): PtAlloc<Buddy> {
    (b: Buddy, m: Mem) => VmPageAlloc(maps, b, m)
  }

  /** The buddy allocator's lists are in memory, and no client frame is free or holds
      a list head. */
  ghost predicate Serves(maps: Addr, b: Buddy, m: Mem, live: set<nat>) {
    InMemory(b, m, maps) && forall t :: t in live ==> !FreePage(b, t) && Foreign(maps, t)
  }

  ghost function Invariant(maps: Addr): (Buddy, Mem, set<nat>) -> bool {
    (b: Buddy, m: Mem, live: set<nat>) => Serves(maps, b, m, live)
  }

  lemma ServesReply(maps: Addr, b: Buddy, m: Mem, live: set<nat>)
    requires Serves(maps, b, m, live)
    ensures HonestReply(VmPageAlloc(maps, b, m), Invariant(maps), m, live)
  {
    hide Valid, Layout, ListsIn, Entry, PallocMem, Alloc, Foreign, FreePage, IsLive;
    InMemoryLists(b, m, maps);
    PallocMemory(b, m, maps, 0, true);
    PallocKeeps(b, 0);
    var r := VmPageAlloc(maps, b, m);
    match r.answer
    case Page(q) =>
      assert Within(q, q, 0);
      BlockInMemory(b, m, maps, q);
      FrameNumber(b, m, maps, q);
      forall t | t in live + {q}
        ensures !FreePage(r.ctx, t) && Foreign(maps, t)
      {
      }
    case Fail(e) =>
    case Halt =>
  }

  lemma FrameNumber(b: Buddy, m: Mem, maps: Addr, q: nat)
    requires InMemory(b, m, maps) && 512 * q + 512 <= |m|
    ensures q < FRAMES
  {
  }

  /** The fresh-page assumption of vm_map holds of the buddy allocator. */
  lemma BuddyIsHonest(maps: Addr)
    ensures Honest(Allocator(maps), Invariant(maps))
  {
    var alloc, inv := Allocator(maps), Invariant(maps);
    forall b: Buddy, m: Mem, live: set<nat> | inv(b, m, live)
      ensures HonestReply(alloc(b, m), inv, m, live)
    {
      ServesReply(maps, b, m, live);
    }
    forall b: Buddy, m: Mem, m': Mem, live: set<nat> | inv(b, m, live) && SameOutside(m, m', live)
      ensures inv(b, m', live)
    {
      ClientsSpareLists(b, m, m', maps, live);
    }
  }

  // ----------------------------------------------------------- calls and refusals

  /** What vm_page_alloc makes of palloc's result. */
  predicate Answers(answer: Answer, r: Result) {
    match r
    case Null => answer == Fail(-ENOMEM)
    case Panic => answer == Halt
    case Got(p) => answer == Page(p)
  }

  /** vm_map's requests for tables are palloc(0) calls, one after the other. */
  lemma {:induction false} RequestsArePallocs(maps: Addr, log: Log<Buddy>)
    requires Follows(Allocator(maps), log) && Valid(log.ctx)
    ensures StateNow(Allocator(maps), log) == Pallocs(log.ctx, 0, |log.calls|)
    ensures Served(Allocator(maps), log) <==> Grants(log.ctx, 0, |log.calls|)
    ensures log.calls != [] ==>
      && Grants(log.ctx, 0, |log.calls| - 1)
      && Answers(LastReply(Allocator(maps), log).answer, Alloc(Pallocs(log.ctx, 0, |log.calls| - 1), 0).1)
    decreases |log.calls|
  {
    hide Valid, Alloc, Allocator, Grants, Answers;
    if log.calls == [] {
      NoRequest(log.ctx);
    } else {
      var past, m, k := log.Before(), log.calls[|log.calls| - 1], |log.calls| - 1;
      RequestsArePallocs(maps, past);
      OneRequest(maps, log.ctx, k, StateNow(Allocator(maps), past), m);
    }
  }

  lemma NoRequest(b: Buddy)
    requires Valid(b)
    ensures Pallocs(b, 0, 0) == b && Grants(b, 0, 0)
  {
  }

  lemma OneRequest(maps: Addr, b: Buddy, k: nat, c: Buddy, m: Mem)
    requires Valid(b) && c == Pallocs(b, 0, k)
    ensures Allocator(maps)(c, m).ctx == Pallocs(b, 0, k + 1)
    ensures Answers(Allocator(maps)(c, m).answer, Alloc(c, 0).1)
    ensures Grants(b, 0, k + 1) <==> Grants(b, 0, k) && Allocator(maps)(c, m).answer.Page?
  {
    hide Valid, Alloc, PallocMem;
    ValidBlocks(c);
    assert Pallocs(b, 0, k + 1) == Alloc(c, 0).0;
    assert Grants(b, 0, k + 1) <==> Grants(b, 0, k) && Alloc(Pallocs(b, 0, k), 0).1.Got?;
  }

  /** When vm_page_alloc gets no page: palloc panics when no page is free, and answers
      NULL when the smallest free block is of order 2 or more, however much is free. */
  lemma PageRefusals(b: Buddy)
    requires Valid(b)
    ensures Alloc(b, 0).1.Panic? <==> forall i: nat :: !FreePage(b, i)
    ensures Alloc(b, 0).1.Null? <==> b.lists[0] == [] && b.lists[1] == [] && exists i: nat :: FreePage(b, i)
  {
    hide Valid, Alloc, FreePage;
    ValidBlocks(b);
    SomeFree(b);
    PallocOutcome(b, 0);
  }

  lemma SomeFree(b: Buddy)
    requires Valid(b)
    ensures (exists i: nat :: FreePage(b, i)) <==> exists k: Order :: |b.lists[k]| > 0
  {
    hide GoodBlocks;
    forall i: nat | FreePage(b, i)
      ensures exists k: Order :: |b.lists[k]| > 0
    {
      var p: nat, k: Order :| IsFree(b, p, k) && Within(i, p, k);
      assert p in b.lists[k];
    }
    forall k: Order | |b.lists[k]| > 0
      ensures exists i: nat :: FreePage(b, i)
    {
      var p := b.lists[k][0];
      assert p in b.lists[k];
      assert IsFree(b, p, k) && Within(p, p, k);
      assert FreePage(b, p);
    }
  }

  // -------------------------------------------------------------------- spaces

  /** struct vm_area */
  datatype Area = Area(virt: Word, phys: Word, size: Word, flags: Word) {
    ghost predicate Holds(va: Word) {
      virt <= va < virt + size
    }
  }

  /** Every address of the area reaches its own byte, with the rights asked for. */
  ghost predicate Mapped(m: Mem, root: nat, a: Area) {
    forall va: Word :: Canonical(va) && a.Holds(va) ==>
      Walk(m, root, va) == Byte(a.phys + (va - a.virt), Rights(Writable(a.flags), User(a.flags), false),
        AttrsOf(a.flags))
  }

  ghost predicate AreasDisjoint(areas: seq<Area>) {
    forall i, j, va: Word :: 0 <= i < j < |areas| && Canonical(va) && areas[i].Holds(va) ==> !areas[j].Holds(va)
  }

  ghost predicate AreasMapped(m: Mem, root: nat, areas: seq<Area>) {
    forall i :: 0 <= i < |areas| ==> Mapped(m, root, areas[i])
  }

  /** An area is empty or a range vm_map accepted. */
  ghost predicate AreasGood(areas: seq<Area>) {
    forall i :: 0 <= i < |areas| ==> areas[i].size == 0 || GoodRange(areas[i].phys, areas[i].virt, areas[i].size)
  }

  /** A successful call adds its area in front: it was unmapped before, so it overlaps no
      recorded area, and the recorded ones keep their translations. */
  lemma VmapAdds(m: Mem, m': Mem, root: nat, areas: seq<Area>, a: Area)
    requires AreasDisjoint(areas) && AreasMapped(m, root, areas) && AreasGood(areas)
    requires Maps(m, m', root, a.phys, a.virt, a.size, a.flags, 0)
    ensures AreasDisjoint([a] + areas) && AreasMapped(m', root, [a] + areas) && AreasGood([a] + areas)
  {
    hide Walk, GoodRange, RangeVerdict, SameVerdictsOutside;
    var all := [a] + areas;
    forall i, va: Word | 0 <= i < |areas| && Canonical(va) && a.Holds(va)
      ensures !areas[i].Holds(va)
    {
      SuccessMeansUnmapped(m, m', root, a.phys, a.virt, a.size, a.flags, va);
      assert Mapped(m, root, areas[i]);
    }
    forall i | 0 <= i < |all|
      ensures Mapped(m', root, all[i])
    {
      if i > 0 {
        assert all[i] == areas[i - 1] && Mapped(m, root, areas[i - 1]);
      }
    }
  }

  /** Memory in which every walk is as before maps the same areas. */
  lemma SameViewAreas(m: Mem, m': Mem, root: nat, areas: seq<Area>)
    requires SameView(m, m', root) && AreasMapped(m, root, areas)
    ensures AreasMapped(m', root, areas)
  {
    hide Translate, Verdict;
    forall i | 0 <= i < |areas|
      ensures Mapped(m', root, areas[i])
    {
      assert Mapped(m, root, areas[i]);
    }
  }

  lemma EmptyAreaAdds(m: Mem, root: nat, areas: seq<Area>, a: Area)
    requires AreasDisjoint(areas) && AreasMapped(m, root, areas) && AreasGood(areas)
    ensures a.size == 0 ==> AreasDisjoint([a] + areas) && AreasMapped(m, root, [a] + areas) && AreasGood([a] + areas)
  {
    hide Walk, GoodRange;
    if a.size == 0 {
      var all := [a] + areas;
      forall i | 0 <= i < |all|
        ensures Mapped(m, root, all[i])
      {
        assert i > 0 ==> all[i] == areas[i - 1] && Mapped(m, root, areas[i - 1]);
      }
    }
  }

  lemma Unchanged(m: Mem, root: nat, others: set<nat>)
    ensures SameView(m, m, root) && AgreeOn(m, m, others)
  {
    hide Translate, Verdict, Entry;
  }

  lemma InvariantIs(maps: Addr, b: Buddy, m: Mem, live: set<nat>)
    ensures Invariant(maps)(b, m, live) == Serves(maps, b, m, live)
  {
  }

  lemma ServesValid(maps: Addr, b: Buddy, m: Mem, live: set<nat>)
    requires Serves(maps, b, m, live)
    ensures Valid(b) && Pallocs(b, 0, 0) == b
  {
    hide Valid, Layout, ListsIn;
  }

  /** The number of tables that mapping the range takes, told from the tables. */
  ghost function TablesNeeded(m: Mem, root: nat, phys: Word, virt: Word, size: Word): nat
    requires VPageOf(virt) + PageNo(size) <= VPAGES
  {
    |Missing(m, root, VPageOf(virt), PageNo(phys), PageNo(size))|
  }

  /** No block of order 2 or more is free. */
  ghost predicate NoLarger(b: Buddy)
    requires |b.lists| == BUDDY_MAX_ORDER + 1
  {
    forall j: Order :: j > 1 ==> |b.lists[j]| == 0
  }

  /** vm_map's outcome and the palloc calls it made, told from the tables and the free lists
      before the call. */
  lemma VmapDone(maps: Addr, log: Log<Buddy>, r: Outcome, c: Buddy, m: Mem, root: nat,
                 phys: Word, virt: Word, size: Word, flags: Word, own: set<nat>, taken: set<nat>)
    requires Done(Allocator(maps), log, r, c, m, root, phys, virt, size, flags, own, taken)
    requires Valid(log.ctx) && |log.ctx.lists| == BUDDY_MAX_ORDER + 1
    requires GoodRange(phys, virt, size) && FlagsAllowed(flags)
    ensures VPageOf(virt) + PageNo(size) <= VPAGES
    ensures
      var k, need := |log.calls|, TablesNeeded(log.mem, root, phys, virt, size);
      var supply, mappable := Supply(log.ctx.lists, 0), Mappable(log.mem, root, phys, virt, size, flags);
      && taken !! log.live && WellFormed(m, root, own + taken)
      && AgreeOn(log.mem, m, log.live - own) && c == Pallocs(log.ctx, 0, k)
      && k <= supply + 1 && (r == Ret(0) <==> mappable && need <= supply)
      && (mappable ==> k == if need <= supply then need else supply + 1)
      && (r == Halted <==> k > supply && NoLarger(log.ctx)) && (k > supply ==> need > supply)
      && FillsMissing(log.mem, m, root, Missing(log.mem, root, VPageOf(virt), PageNo(phys), PageNo(size)), taken)
      && (r == Ret(0) ==> Served(Allocator(maps), log) && MapsRange(log.mem, m, root, phys, virt, size, flags))
      && (r != Ret(0) ==> SameView(log.mem, m, root))
  {
    hide WellFormed, FillsMissing, Missing, AgreeOn, Follows, Served, LastReply, StateNow, Granted, Starved, Alloc,
         Pallocs, Valid, GoodRange, FlagsAllowed, RangeVerdict, VPageOf, PageNo, MapsRange, SameVerdictsOutside,
         SameView, Allocator, MemoryNow, SameOutside, Supply, Grants;
    var k := |log.calls|;
    RequestsArePallocs(maps, log);
    GrantsExactly(log.ctx, 0, k);
    if k > 0 {
      GrantsExactly(log.ctx, 0, k - 1);
    }
    FirstRefusal(log.ctx, 0);
  }

  lemma WasUnmapped(m: Mem, m': Mem, root: nat, a: Area)
    requires Maps(m, m', root, a.phys, a.virt, a.size, a.flags, 0)
    ensures forall va: Word :: Canonical(va) && a.virt <= va < a.virt + a.size ==> Walk(m, root, va) == Fault(false)
  {
    forall va: Word | Canonical(va) && a.virt <= va < a.virt + a.size
      ensures Walk(m, root, va) == Fault(false)
    {
      SuccessMeansUnmapped(m, m', root, a.phys, a.virt, a.size, a.flags, va);
    }
  }

  /** The arguments are good and no page of the range is mapped or cut off by rights. */
  ghost predicate Mappable(m: Mem, root: nat, phys: Word, virt: Word, size: Word, flags: Word) {
    && GoodRange(phys, virt, size) && FlagsAllowed(flags) && VPageOf(virt) + PageNo(size) <= VPAGES
    && RangeVerdict(m, root, VPageOf(virt), PageNo(size), PermOf(flags)) == 0
  }

  lemma GoodHasPages(phys: Word, virt: Word, size: Word)
    ensures GoodRange(phys, virt, size) ==> size > 0 && VPageOf(virt) + PageNo(size) <= VPAGES
  {
    if GoodRange(phys, virt, size) {
      RangePages(phys, virt, size);
    }
  }

  /** struct vm_space over one memory and one buddy allocator. */
  class VmSpace {
    const ram: array<Word>
    const maps: Addr
    const pgd: nat
    var buddy: Buddy
    var areas: seq<Area>          // front first, as list_add pushes them
    ghost var tables: set<nat>    // frames of this page-table tree
    ghost var others: set<nat>    // frames of all other clients of the allocator

    ghost predicate Ok()
      reads this, ram
    {
      && tables !! others && Serves(maps, buddy, ram[..], tables + others)
      && WellFormed(ram[..], pgd, tables)
      && AreasDisjoint(areas) && AreasMapped(ram[..], pgd, areas) && AreasGood(areas)
    }

    /** init_vmm: the boot page tables, no area yet. */
    constructor (ram: array<Word>, maps: Addr, pgd: nat, buddy: Buddy, ghost tables: set<nat>, ghost others: set<nat>)
      requires tables !! others && Serves(maps, buddy, ram[..], tables + others) && WellFormed(ram[..], pgd, tables)
      ensures Ok() && this.ram == ram && this.maps == maps && this.pgd == pgd && this.buddy == buddy && areas == []
      ensures this.tables == tables && this.others == others
    {
      this.ram, this.maps, this.pgd, this.buddy := ram, maps, pgd, buddy;
      this.tables, this.others := tables, others;
      areas := [];
    }

    /** vmap.  `granted` tells whether kmalloc gave storage for the area record; the
        result tells whether the call returned an area, NULL, or not at all, and `asked`
        how many pages it asked the buddy allocator for. */
    method Vmap(granted: bool, phys: Word, virt: Word, size: Word, flags: Word)
      returns (r: Option<Area>, halted: bool, ghost asked: nat)
      requires Ok()
      modifies this`buddy, this`areas, this`tables, ram
      ensures !halted ==> Ok()
      // Other clients' frames are untouched, whatever happens.
      ensures AgreeOn(old(ram[..]), ram[..], others)
      ensures r.Some? ==> !halted && r.value == Area(virt, phys, size, flags) && areas == [r.value] + old(areas)
      // A failed call leaves the area list and every translation unchanged.
      ensures r.None? ==> areas == old(areas) && SameView(old(ram[..]), ram[..], pgd)
      // A call that returns an area has mapped exactly it.
      ensures r.Some? && size > 0 ==> MapsRange(old(ram[..]), ram[..], pgd, phys, virt, size, flags)
      ensures r.Some? && size > 0 ==> forall va: Word :: Canonical(va) ==>
        Walk(ram[..], pgd, va) ==
          if virt <= va < virt + size
          then Byte(phys + (va - virt), Rights(flags / 2 % 2 == 1, flags / 4 % 2 == 1, false),
                    Attrs(false, flags / 8 % 2 == 1, flags / 16 % 2 == 1, flags / 256 % 2 == 1))
          else Walk(old(ram[..]), pgd, va)
      // A range that is already mapped in part gives NULL.
      ensures (exists va: Word ::
                 Canonical(va) && virt <= va < virt + size && Walk(old(ram[..]), pgd, va) != Fault(false))
              ==> r.None?
      // An area is returned just when its record is granted and the range is empty, or can be
      // mapped with no more tables than there are free pages in blocks of order 0 and 1.
      ensures |old(buddy).lists| == BUDDY_MAX_ORDER + 1
      ensures r.Some? <==>
        && granted
        && (size == 0 || (&& Mappable(old(ram[..]), pgd, phys, virt, size, flags)
                          && TablesNeeded(old(ram[..]), pgd, phys, virt, size) <= Supply(old(buddy).lists, 0)))
      // When tables run out the call does not return, unless a larger block is free.
      ensures granted && Mappable(old(ram[..]), pgd, phys, virt, size, flags)
              && TablesNeeded(old(ram[..]), pgd, phys, virt, size) > Supply(old(buddy).lists, 0) ==>
        (halted <==> NoLarger(old(buddy)))
      ensures halted <==> asked > Supply(old(buddy).lists, 0) && NoLarger(old(buddy))
      // As many pages are asked for as tables are missing, until one is refused; each page
      // becomes a table at a place of its own that had none.
      ensures buddy == Pallocs(old(buddy), 0, asked) && asked <= Supply(old(buddy).lists, 0) + 1
      ensures granted && Mappable(old(ram[..]), pgd, phys, virt, size, flags) ==>
        var need, supply := TablesNeeded(old(ram[..]), pgd, phys, virt, size), Supply(old(buddy).lists, 0);
        asked == if need <= supply then need else supply + 1
      ensures old(tables) <= tables
      ensures if !granted || size == 0 || !GoodRange(phys, virt, size) || !FlagsAllowed(flags)
        then asked == 0 && tables == old(tables)
        else VPageOf(virt) + PageNo(size) <= VPAGES
             && FillsMissing(old(ram[..]), ram[..], pgd,
                             Missing(old(ram[..]), pgd, VPageOf(virt), PageNo(phys), PageNo(size)),
                             tables - old(tables))
    {
      hide WellFormed, Serves, AreasDisjoint, AreasMapped, AreasGood, SameView, MapsRange, SameVerdictsOutside,
           AgreeOn, Honest, GoodRange, FlagsAllowed, RangeVerdict, Walk, VPageOf, PageNo, Invariant, Allocator, Maps,
           Done, Starved, Pallocs, Alloc, Valid, FillsMissing, Missing, TablesNeeded, Supply, NoLarger, Reached,
           Follows, Served;
      var area := Area(virt, phys, size, flags);
      ghost var m0, live := ram[..], tables + others;
      Unchanged(m0, pgd, others);
      ServesValid(maps, buddy, m0, live);
      ValidBlocks(buddy);
      GoodHasPages(phys, virt, size);
      assert tables - tables == {};
      halted, asked := false, 0;
      if !granted {
        return None, false, 0;
      }
      GoodRangeIs(phys, virt, size);
      FlagsAre(flags);
      BuddyIsHonest(maps);
      InvariantIs(maps, buddy, m0, live);
      var code, b;
      ghost var taken, log;
      code, b, taken, log :=
        VmMap(ram, Some(pgd), phys, virt, size, flags, Some(Allocator(maps)), buddy, Invariant(maps), tables, live);
      asked := |log.calls|;
      if taken == {} {
        assert tables + taken == tables && live + taken == live;
      }
      if code.Ret? {
        InvariantIs(maps, b, ram[..], live + taken);
      }
      assert live - tables == others && (live + taken) == (tables + taken) + others;
      if GoodRange(phys, virt, size) && FlagsAllowed(flags) {
        VmapDone(maps, log, code, b, ram[..], pgd, phys, virt, size, flags, tables, taken);
      }
      assert taken !! live && (tables + taken) - tables == taken;
      if code == Ret(0) && size > 0 {
        DoneMaps(Allocator(maps), log, code, b, ram[..], pgd, phys, virt, size, flags, tables, taken);
        VmapAdds(m0, ram[..], pgd, areas, area);
        WasUnmapped(m0, ram[..], pgd, area);
      } else {
        SameViewAreas(m0, ram[..], pgd, areas);
        EmptyAreaAdds(ram[..], pgd, areas, area);
      }
      buddy := b;
      tables := tables + taken;
      if code != Ret(0) {
        return None, code == Halted, asked;
      }
      areas := [area] + areas;
      return Some(area), false, asked;
    }
  }
}
