/** vmap together with the kernel heap: the area record comes from kmalloc, whose frames and
    the page tables are blocks of one buddy allocator in one memory. */
module VmHeap {
  import opened PageTables
  import opened Paging
  import opened PagingBits
  import opened VmMapLaws
  import opened Lists
  import opened BuddyModel
  import opened BuddyLaws
  import opened BuddyMemory
  import opened HeapModel
  import opened HeapSteps
  import opened Vmm
  import S = SlabModel
  import K = Kmalloc
  import T = TableAllocator

  /** An object of the heap: object i of the frame of class c at page pn. */
  datatype Obj = Obj(c: S.Class, pn: nat, i: nat)

  /** The buddy allocator, the heap (records, frames and frame counts), the frames of one
      page-table tree, and the areas of its space with the objects that hold them. */
  datatype World = World(b: Buddy, m: Mem, recs: Records, model: Model, counts: seq<int>,
                         tables: set<nat>, areas: seq<Area>, holders: seq<Obj>)

  const AREA_BYTES := 48

  ghost predicate Live(model: Model, o: Obj) {
    IsObj(model, o.c, o.pn, o.i)
  }

  function At(o: Obj): nat {
    S.ObjAddr(o.pn, o.c, o.i)
  }

  /** Object o is a struct vm_area with the fields of a; its list links are not looked at. */
  ghost predicate Holds(m: Mem, o: Obj, a: Area) {
    && o.c == K.ClassFor(AREA_BYTES) && At(o) + 4 <= |m|
    && m[At(o)] == a.virt && m[At(o) + 1] == a.phys && m[At(o) + 2] == a.size && m[At(o) + 3] == a.flags
  }

  /** Every area has its fields in a live object of its own. */
  ghost predicate Recorded(model: Model, m: Mem, holders: seq<Obj>, areas: seq<Area>) {
    && |holders| == |areas|
    && (forall k :: 0 <= k < |areas| ==> Live(model, holders[k]) && Holds(m, holders[k], areas[k]))
    && (forall j, k :: 0 <= j < k < |holders| ==> holders[j] != holders[k])
  }

  /** The heap is in order, no table is free or part of the heap, and the areas are
      disjoint and mapped. */
  ghost predicate InOrder(w: World, maps: Addr, root: nat) {
    && K.Steady(w.b, w.m, maps, w.recs, w.model, w.counts) && WellFormed(w.m, root, w.tables)
    && (forall t :: t in w.tables ==> Outside(w.b, w.model, t) && Foreign(maps, t))
    && AreasDisjoint(w.areas) && AreasMapped(w.m, root, w.areas) && AreasGood(w.areas)
  }

  /** .. and the areas are those the records in the heap describe. */
  ghost predicate Ok(w: World, maps: Addr, root: nat) {
    InOrder(w, maps, root) && Recorded(w.model, w.m, w.holders, w.areas)
  }

  ghost predicate SameSpace(w: World, w': World) {
    w'.tables == w.tables && w'.areas == w.areas && w'.holders == w.holders
  }

  // ------------------------------------------------------- other calls and tables

  /** What leaves the tables alone leaves the space in order. */
  lemma SpaceKept(w: World, w': World, maps: Addr, root: nat)
    requires InOrder(w, maps, root) && K.Steady(w'.b, w'.m, maps, w'.recs, w'.model, w'.counts) && SameSpace(w, w')
    requires AgreeOn(w.m, w'.m, w.tables) && forall t :: t in w.tables ==> Outside(w'.b, w'.model, t)
    ensures InOrder(w', maps, root) && SameView(w.m, w'.m, root)
  {
    hide WellFormed, K.Steady, AreasDisjoint, AreasMapped, AreasGood, Outside, Foreign, Grown, SameView, AgreeOn;
    AgreeGrown(w.m, w'.m, root, w.tables, 0);
    GrownView(w.m, w'.m, root, 0);
    SameViewAreas(w.m, w'.m, root, w.areas);
  }

  lemma GrownView(m: Mem, m': Mem, root: nat, u: VPage)
    requires Grown(m, m', root, u)
    ensures SameView(m, m', root)
  {
  }

  /** kmalloc, kfree and client writes in objects leave the address space as it is: every
      translation, every area, and the tables outside the heap and the free pages. */
  lemma HeapCallKeepsSpace(w: World, w': World, maps: Addr, root: nat)
    requires InOrder(w, maps, root) && K.Steady(w'.b, w'.m, maps, w'.recs, w'.model, w'.counts) && SameSpace(w, w')
    requires SparesRest(w.b, w.model, w.m, w'.m, maps) && SameBlocks(w.b, w.model, w'.b, w'.model)
    ensures InOrder(w', maps, root) && SameView(w.m, w'.m, root)
  {
    TablesSpared(w, w', maps, root);
    hide WellFormed, K.Steady, AreasDisjoint, AreasMapped, AreasGood, Outside, Foreign, SparesRest, SameView, AgreeOn;
    SpaceKept(w, w', maps, root);
  }

  lemma TablesSpared(w: World, w': World, maps: Addr, root: nat)
    requires InOrder(w, maps, root) && SparesRest(w.b, w.model, w.m, w'.m, maps)
    ensures AgreeOn(w.m, w'.m, w.tables)
  {
    hide WellFormed, K.Steady, AreasDisjoint, AreasMapped, AreasGood, FreePage, HeapPage, Foreign;
  }

  // ------------------------------------------------------- vm_map and the heap

  /** The frames of the heap. */
  ghost function HeapFrames(w: World): set<nat> {
    set t: nat | t < w.b.n && HeapPage(w.model, t)
  }

  lemma HeapFramesAll(w: World, maps: Addr)
    requires K.Steady(w.b, w.m, maps, w.recs, w.model, w.counts)
    ensures forall t: nat :: t in HeapFrames(w) <==> HeapPage(w.model, t)
    ensures forall t: nat :: HeapPage(w.model, t) ==> !FreePage(w.b, t) && Foreign(maps, t)
  {
    hide InMemory, FreePage, Foreign, HeapPage;
    K.SteadyMeans(w.b, w.m, maps, w.recs, w.model, w.counts);
    forall t: nat | HeapPage(w.model, t)
      ensures t < w.b.n && !FreePage(w.b, t) && Foreign(maps, t)
    {
      HeapPageIsLive(w.b, w.m, maps, w.model, t);
    }
  }

  /** Live blocks and the number of pages survive palloc calls. */
  lemma {:induction false} PallocsKeepLive(b: Buddy, k: nat)
    requires Valid(b)
    ensures Pallocs(b, 0, k).n == b.n && forall q: nat, j: Order :: IsLive(b, q, j) ==> IsLive(Pallocs(b, 0, k), q, j)
  {
    hide Valid, Alloc, IsLive, FreePage, Coalesced;
    if k > 0 {
      PallocsKeepLive(b, k - 1);
      var c := Pallocs(b, 0, k - 1);
      PallocKeeps(c, 0);
      ValidBlocks(c);
      assert Pallocs(b, 0, k) == Alloc(c, 0).0;
    }
  }

  /** The frames vm_map must leave alone: this tree's and the heap's. */
  lemma LiveFrames(w: World, maps: Addr, root: nat)
    requires InOrder(w, maps, root)
    ensures w.tables !! HeapFrames(w) && (w.tables + HeapFrames(w)) - w.tables == HeapFrames(w)
    ensures Serves(maps, w.b, w.m, w.tables + HeapFrames(w))
  {
    hide WellFormed, AreasDisjoint, AreasMapped, AreasGood, FreePage, HeapPage, Foreign, K.Steady, HeapFrames, InMemory;
    HeapFramesAll(w, maps);
    K.SteadyMeans(w.b, w.m, maps, w.recs, w.model, w.counts);
  }

  /** vm_map turns the arguments of a down before it looks at the tables. */
  predicate TurnedDown(a: Area) {
    a.size == 0 || !GoodRange(a.phys, a.virt, a.size) || !FlagsAllowed(a.flags)
  }

  /** A vm_map whose tables come from the buddy allocator, from world w to w'. */
  ghost predicate Mapping(w: World, w': World, maps: Addr, root: nat, log: T.Log<Buddy>, r: Paging.Outcome, a: Area) {
    if TurnedDown(a) then
      && r == Ret(if a.size == 0 then 0 else -EINVAL)
      && w' == w.(areas := if r == Ret(0) then [a] + w.areas else w.areas)
    else
      && r.Ret? && log.ctx == w.b && log.mem == w.m && log.live == w.tables + HeapFrames(w)
      && w'.recs == w.recs && w'.model == w.model && w'.counts == w.counts && w'.holders == w.holders
      && w.tables <= w'.tables && w'.areas == (if r == Ret(0) then [a] + w.areas else w.areas)
      && Done(Allocator(maps), log, r, w'.b, w'.m, root, a.phys, a.virt, a.size, a.flags, w.tables,
        w'.tables - w.tables)
      && Serves(maps, w'.b, w'.m, log.live + (w'.tables - w.tables))
  }

  /** vm_map keeps the heap, with the contents of every live object, and the space. */
  lemma VmMapKeepsHeap(w: World, w': World, maps: Addr, root: nat, log: T.Log<Buddy>, r: Paging.Outcome, a: Area)
    requires InOrder(w, maps, root) && Mapping(w, w', maps, root, log, r, a)
    ensures InOrder(w', maps, root) && w'.model == w.model && SameObjects(w.model, w.m, w'.m)
    ensures r != Ret(0) ==> SameView(w.m, w'.m, root)
  {
    hide K.Steady, WellFormed, Outside, Foreign, AreasDisjoint, AreasMapped, AreasGood, SameObjects, SameView, Done,
         Serves, HeapFrames, TurnedDown;
    if TurnedDown(a) {
      DownKeeps(w, w', maps, root, log, r, a);
    } else {
      HeapKept(w, w', maps, root, log, r, a);
      TablesKept(w, w', maps, root, log, r, a);
      AreasKept(w, w', maps, root, log, r, a);
    }
  }

  lemma DownKeeps(w: World, w': World, maps: Addr, root: nat, log: T.Log<Buddy>, r: Paging.Outcome, a: Area)
    requires InOrder(w, maps, root) && TurnedDown(a) && Mapping(w, w', maps, root, log, r, a)
    ensures InOrder(w', maps, root) && w'.model == w.model && SameObjects(w.model, w.m, w'.m)
    ensures SameView(w.m, w'.m, root)
  {
    hide K.Steady, WellFormed, Outside, Foreign, AreasDisjoint, AreasMapped, AreasGood, IsObj, SameView, Done, Serves;
    Unchanged(w.m, root, {});
    EmptyAreaAdds(w.m, root, w.areas, a);
  }

  lemma CallsReached(log: T.Log<Buddy>, b: Buddy, m: Mem, maps: Addr, held: set<nat>)
    requires T.Reached(Allocator(maps), log, b, m, held)
    ensures T.Follows(Allocator(maps), log) && b == T.StateNow(Allocator(maps), log)
  {
    hide T.Follows, T.StateNow;
  }

  lemma MappingMeans(w: World, w': World, maps: Addr, root: nat, log: T.Log<Buddy>, r: Paging.Outcome, a: Area)
    requires !TurnedDown(a) && Mapping(w, w', maps, root, log, r, a)
    ensures log.ctx == w.b && log.live == w.tables + HeapFrames(w)
    ensures w'.recs == w.recs && w'.model == w.model && w'.counts == w.counts
    ensures T.Reached(Allocator(maps), log, w'.b, w'.m, log.live + (w'.tables - w.tables))
    ensures AgreeOn(w.m, w'.m, log.live - w.tables) && InMemory(w'.b, w'.m, maps)
  {
    hide T.Reached, T.Served, T.LastReply, Starved, MapsRange, SameVerdictsOutside, SameView, Allocator, RangeVerdict,
         FillsMissing, GoodRange, FlagsAllowed, HeapFrames, WellFormed, AgreeOn, InMemory, VPageOf, PageNo, FreePage,
         Foreign;
  }

  lemma InOrderSteady(w: World, maps: Addr, root: nat)
    requires InOrder(w, maps, root)
    ensures K.Steady(w.b, w.m, maps, w.recs, w.model, w.counts)
  {
  }

  lemma HeapKept(w: World, w': World, maps: Addr, root: nat, log: T.Log<Buddy>, r: Paging.Outcome, a: Area)
    requires InOrder(w, maps, root) && !TurnedDown(a) && Mapping(w, w', maps, root, log, r, a)
    ensures K.Steady(w'.b, w'.m, maps, w'.recs, w'.model, w'.counts) && SameObjects(w.model, w.m, w'.m)
  {
    hide Valid, Layout, ListsIn, IsLive, S.FrameIn, HeapPage, FreePage, Foreign, Entry, WellFormed, T.Reached,
         T.Served, Starved, MapsRange, SameVerdictsOutside, SameView, Allocator, AreasDisjoint, AreasMapped, AreasGood,
         Pallocs, RangeVerdict, FillsMissing, GoodRange, FlagsAllowed, SameObjects, T.LastReply, FramesIn, HeapFrames,
         T.Follows, T.StateNow;
    hide Mapping, InOrder, Done, TurnedDown;
    MappingMeans(w, w', maps, root, log, r, a);
    InOrderSteady(w, maps, root);
    LiveFrames(w, maps, root);
    HeapFramesAll(w, maps);
    K.SteadyMeans(w.b, w.m, maps, w.recs, w.model, w.counts);
    CallsReached(log, w'.b, w'.m, maps, log.live + (w'.tables - w.tables));
    RequestsArePallocs(maps, log);
    PallocsKeepLive(w.b, |log.calls|);
    SameFramesLive(w.b, w'.b, w.model);
    SameHeapWords(w.b, w.m, w'.m, maps, w.recs, w.model);
  }

  lemma TablesKept(w: World, w': World, maps: Addr, root: nat, log: T.Log<Buddy>, r: Paging.Outcome, a: Area)
    requires InOrder(w, maps, root) && !TurnedDown(a) && Mapping(w, w', maps, root, log, r, a)
    ensures WellFormed(w'.m, root, w'.tables)
    ensures forall t :: t in w'.tables ==> Outside(w'.b, w'.model, t) && Foreign(maps, t)
  {
    hide K.Steady, WellFormed, HeapPage, FreePage, Foreign, T.Reached, T.Served, Starved, MapsRange,
         SameVerdictsOutside, SameView, Allocator, AreasDisjoint, AreasMapped, AreasGood, RangeVerdict, FillsMissing,
         GoodRange, T.LastReply, HeapFrames, InMemory, AgreeOn;
    HeapFramesAll(w, maps);
    assert w.tables + (w'.tables - w.tables) == w'.tables;
  }

  lemma AreasKept(w: World, w': World, maps: Addr, root: nat, log: T.Log<Buddy>, r: Paging.Outcome, a: Area)
    requires InOrder(w, maps, root) && !TurnedDown(a) && Mapping(w, w', maps, root, log, r, a)
    ensures AreasDisjoint(w'.areas) && AreasMapped(w'.m, root, w'.areas) && AreasGood(w'.areas)
    ensures r != Ret(0) ==> SameView(w.m, w'.m, root)
  {
    hide K.Steady, WellFormed, Outside, Foreign, T.Reached, T.Served, Starved, MapsRange, SameVerdictsOutside,
         SameView, Serves, Allocator, AreasDisjoint, AreasMapped, AreasGood, RangeVerdict, FillsMissing, GoodRange,
         T.LastReply, HeapFrames, AgreeOn, Maps;
    if r == Ret(0) {
      DoneMaps(Allocator(maps), log, r, w'.b, w'.m, root, a.phys, a.virt, a.size, a.flags, w.tables,
        w'.tables - w.tables);
      VmapAdds(w.m, w'.m, root, w.areas, a);
    } else {
      SameViewAreas(w.m, w'.m, root, w.areas);
    }
  }

  // -------------------------------------------------------------------- records

  /** The fields of object o are the same. */
  ghost predicate SameFields(m: Mem, m': Mem, o: Obj) {
    |m'| == |m| && forall x :: At(o) <= x < At(o) + 4 && x < |m| ==> m'[x] == m[x]
  }

  lemma RecordsKept(model: Model, m: Mem, model': Model, m': Mem, holders: seq<Obj>, areas: seq<Area>)
    requires Recorded(model, m, holders, areas)
    requires forall o :: o in holders ==> Live(model', o) && SameFields(m, m', o)
    ensures Recorded(model', m', holders, areas)
  {
    hide Live, At;
    forall k | 0 <= k < |areas|
      ensures Live(model', holders[k]) && Holds(m', holders[k], areas[k])
    {
      var o := holders[k];
      assert o in holders && Live(model, o) && Holds(m, o, areas[k]);
    }
  }

  /** Objects that stay live and keep their words. */
  lemma ObjectsKept(model: Model, m: Mem, model': Model, m': Mem, holders: seq<Obj>, areas: seq<Area>)
    requires Recorded(model, m, holders, areas)
    requires forall o :: o in holders ==> Live(model', o) && SameWords(m, m', At(o), S.ObjWords(o.c))
    ensures Recorded(model', m', holders, areas)
  {
    hide Live, At, Holds;
    RecordsKept(model, m, model', m', holders, areas);
  }

  lemma HoldersLive(model: Model, m: Mem, holders: seq<Obj>, areas: seq<Area>, o: Obj)
    requires Recorded(model, m, holders, areas) && o in holders
    ensures Live(model, o)
  {
    hide Live, Holds;
    var k :| 0 <= k < |holders| && holders[k] == o;
  }

  // -------------------------------------------------------------------- the steps

  ghost predicate HeapOk(w: World, maps: Addr) {
    K.Steady(w.b, w.m, maps, w.recs, w.model, w.counts)
  }

  /** kmalloc gives object o. */
  ghost predicate Gives(w: World, w': World, maps: Addr, o: Obj) {
    && SameSpace(w, w') && HeapOk(w', maps)
    && K.Served(w.b, w.m, w.model, w'.b, w'.m, w'.model, maps, o.c, o.pn, o.i)
  }

  /** kfree takes object o back. */
  ghost predicate TakesBack(w: World, w': World, maps: Addr, o: Obj) {
    && SameSpace(w, w') && HeapOk(w', maps)
    && K.Freed(w.b, w.m, w.model, w'.b, w'.m, w'.model, maps, o.c, o.pn, o.i)
  }

  /** A client writes in its object o; the fields of an area stay as they are. */
  ghost predicate Writes(w: World, w': World, o: Obj) {
    && Live(w.model, o) && w' == w.(m := w'.m) && |w'.m| == |w.m|
    && (forall x :: 0 <= x < |w.m| && !(At(o) <= x < At(o) + S.ObjWords(o.c)) ==> w'.m[x] == w.m[x])
    && (o in w.holders ==> SameFields(w.m, w'.m, o))
  }

  /** The states between the statements of one vmap, what vm_map was answered and
      returned, and the area with its record. */
  datatype Call = Call(w1: World, w2: World, w3: World, log: T.Log<Buddy>, r: Paging.Outcome, a: Area, o: Obj)

  /** vmap: kmalloc, the stores to the record, vm_map, and the list or kfree. */
  ghost predicate Vmaps(w: World, w': World, maps: Addr, root: nat, call: Call) {
    && Gives(w, call.w1, maps, call.o) && Writes(call.w1, call.w2, call.o) && Holds(call.w2.m, call.o, call.a)
    && Mapping(call.w2, call.w3, maps, root, call.log, call.r, call.a)
    && if call.r == Ret(0) then w' == call.w3.(holders := [call.o] + w.holders)
       else TakesBack(call.w3, w', maps, call.o)
  }

  /** Another client's palloc. */
  ghost predicate PallocBy(w: World, w': World, maps: Addr, order: int, zero: bool) {
    && |w.b.lists| == BUDDY_MAX_ORDER + 1
    && w' == w.(b := Alloc(w.b, order).0, m := PallocMem(w.b, w.m, maps, order, zero))
  }

  /** Another client's pfree, of a block that is no frame's and holds no table. */
  ghost predicate PfreeBy(w: World, w': World, maps: Addr, p: nat) {
    && |w.b.lists| == BUDDY_MAX_ORDER + 1
    && (forall c: S.Class, j: nat :: IsFrame(w.model, c, j) ==> w.model[c][j].pn != p)
    && (forall t, k: Order :: t in w.tables && IsLive(w.b, p, k) ==> !Within(t, p, k))
    && w' == w.(b := Release(w.b, p), m := w'.m)
    && InMemory(w'.b, w'.m, maps) && SparesOthers(w'.b, w.m, w'.m, maps)
  }

  /** What may happen: a heap call or a store by any client, buddy calls by others, a vmap. */
  datatype Op =
    | Kmalloc(o: Obj)
    | Kfree(o: Obj)
    | Store(o: Obj)
    | Palloc(order: int, zero: bool)
    | Pfree(p: nat)
    | Vmap(call: Call)

  ghost predicate Step(w: World, op: Op, w': World, maps: Addr, root: nat) {
    match op
    case Kmalloc(o) => Gives(w, w', maps, o)
    case Kfree(o) => o !in w.holders && TakesBack(w, w', maps, o)
    case Store(o) => Writes(w, w', o)
    case Palloc(order, zero) => PallocBy(w, w', maps, order, zero)
    case Pfree(p) => PfreeBy(w, w', maps, p)
    case Vmap(call) => Vmaps(w, w', maps, root, call)
  }

  lemma GivesKeeps(w: World, w': World, maps: Addr, root: nat, o: Obj)
    requires Ok(w, maps, root) && Gives(w, w', maps, o)
    ensures Ok(w', maps, root) && SameView(w.m, w'.m, root) && Live(w'.model, o) && o !in w.holders
  {
    hide InOrder, K.Steady, SparesRest, SameBlocks, SameView, SameWords, IsObj, S.ObjAddr, S.ObjWords, Holds, Recorded;
    HeapCallKeepsSpace(w, w', maps, root);
    forall x | x in w.holders
      ensures Live(w.model, x) && Live(w'.model, x) && SameWords(w.m, w'.m, At(x), S.ObjWords(x.c))
    {
      HoldersLive(w.model, w.m, w.holders, w.areas, x);
    }
    ObjectsKept(w.model, w.m, w'.model, w'.m, w.holders, w.areas);
  }

  lemma TakesBackKeeps(w: World, w': World, maps: Addr, root: nat, o: Obj)
    requires InOrder(w, maps, root) && Recorded(w.model, w.m, w.holders, w.areas)
    requires TakesBack(w, w', maps, o) && o !in w.holders
    ensures Ok(w', maps, root) && SameView(w.m, w'.m, root)
  {
    hide InOrder, K.Steady, SparesRest, SameBlocks, SameView, SameWords, IsObj, S.ObjAddr, S.ObjWords, Holds, Recorded,
         K.OnlyObject, Release;
    HeapCallKeepsSpace(w, w', maps, root);
    forall x | x in w.holders
      ensures Live(w'.model, x) && SameWords(w.m, w'.m, At(x), S.ObjWords(x.c))
    {
      HoldersLive(w.model, w.m, w.holders, w.areas, x);
    }
    ObjectsKept(w.model, w.m, w'.model, w'.m, w.holders, w.areas);
  }

  lemma WritesKeep(w: World, w': World, maps: Addr, root: nat, o: Obj)
    requires Ok(w, maps, root) && Writes(w, w', o)
    ensures Ok(w', maps, root) && SameView(w.m, w'.m, root)
  {
    hide K.Steady, SparesRest, SameBlocks, SameView, IsObj, S.ObjAddr, S.ObjWords, Holds, Recorded, WellFormed,
         Outside, Foreign, AreasDisjoint, AreasMapped, AreasGood, IsLive, OnlyBlock;
    K.StoreSteady(w.b, w.m, w'.m, maps, w.recs, w.model, w.counts, o.c, o.pn, o.i);
    NoBlockChanges(w.b, w.model);
    HeapCallKeepsSpace(w, w', maps, root);
    forall x | x in w.holders
      ensures Live(w'.model, x) && SameFields(w.m, w'.m, x)
    {
      HoldersLive(w.model, w.m, w.holders, w.areas, x);
      if x != o {
        OtherObject(w, w', maps, o, x);
      }
    }
    RecordsKept(w.model, w.m, w'.model, w'.m, w.holders, w.areas);
  }

  lemma NoBlockChanges(b: Buddy, model: Model)
    ensures SameBlocks(b, model, b, model)
  {
  }

  /** A write in one object is not one in another. */
  lemma OtherObject(w: World, w': World, maps: Addr, o: Obj, x: Obj)
    requires HeapOk(w, maps) && Writes(w, w', o) && Live(w.model, x) && x != o
    ensures SameFields(w.m, w'.m, x)
  {
    hide InMemory, HeapIn, IsObj, S.ObjAddr;
    K.SteadyMeans(w.b, w.m, maps, w.recs, w.model, w.counts);
    ObjectsApart(w.m, w.b, w.recs, w.model, o.c, o.pn, o.i, x.c, x.pn, x.i);
    assert S.ObjWords(x.c) >= 4;
  }

  lemma PallocByKeeps(w: World, w': World, maps: Addr, root: nat, order: int, zero: bool)
    requires Ok(w, maps, root) && PallocBy(w, w', maps, order, zero)
    ensures Ok(w', maps, root) && SameView(w.m, w'.m, root)
  {
    PallocTables(w, w', maps, root, order, zero);
    hide HeapIn, Valid, InMemory, SameView, IsObj, S.ObjAddr, S.ObjWords, Holds, Recorded, WellFormed, Outside,
         SameWords, Foreign, AreasDisjoint, AreasMapped, AreasGood, Alloc, PallocMem, AgreeOn;
    PallocBeside(w.b, w.m, maps, w.recs, w.model, order, zero);
    SpaceKept(w, w', maps, root);
    forall x | x in w.holders
      ensures Live(w'.model, x) && SameWords(w.m, w'.m, At(x), S.ObjWords(x.c))
    {
      HoldersLive(w.model, w.m, w.holders, w.areas, x);
    }
    ObjectsKept(w.model, w.m, w'.model, w'.m, w.holders, w.areas);
  }

  lemma PallocTables(w: World, w': World, maps: Addr, root: nat, order: int, zero: bool)
    requires InOrder(w, maps, root) && PallocBy(w, w', maps, order, zero)
    ensures AgreeOn(w.m, w'.m, w.tables) && forall t :: t in w.tables ==> Outside(w'.b, w'.model, t)
  {
    K.SteadyMeans(w.b, w.m, maps, w.recs, w.model, w.counts);
    hide Valid, Layout, ListsIn, HeapIn, IsLive, FreePage, HeapPage, Foreign, WellFormed, Alloc, PallocMem, FreeTotal,
         AreasDisjoint, AreasMapped, AreasGood, Coalesced, Within;
    PallocKeeps(w.b, order);
    PallocMemory(w.b, w.m, maps, order, zero);
  }

  lemma PfreeByKeeps(w: World, w': World, maps: Addr, root: nat, p: nat)
    requires Ok(w, maps, root) && PfreeBy(w, w', maps, p)
    ensures Ok(w', maps, root) && SameView(w.m, w'.m, root)
  {
    PfreeTables(w, w', maps, root, p);
    hide HeapIn, Valid, InMemory, SameView, IsObj, S.ObjAddr, S.ObjWords, Holds, Recorded, WellFormed, Outside,
         SameWords, Foreign, AreasDisjoint, AreasMapped, AreasGood, Release, SparesOthers, AgreeOn, IsLive, Within,
         IsFrame;
    PfreeBeside(w.b, w.m, w'.m, maps, w.recs, w.model, p);
    SpaceKept(w, w', maps, root);
    forall x | x in w.holders
      ensures Live(w'.model, x) && SameWords(w.m, w'.m, At(x), S.ObjWords(x.c))
    {
      HoldersLive(w.model, w.m, w.holders, w.areas, x);
    }
    ObjectsKept(w.model, w.m, w'.model, w'.m, w.holders, w.areas);
  }

  lemma PfreeTables(w: World, w': World, maps: Addr, root: nat, p: nat)
    requires InOrder(w, maps, root) && PfreeBy(w, w', maps, p)
    ensures w'.b.n == w.b.n && AgreeOn(w.m, w'.m, w.tables) && forall t :: t in w.tables ==> Outside(w'.b, w'.model, t)
  {
    K.SteadyMeans(w.b, w.m, maps, w.recs, w.model, w.counts);
    hide Valid, Layout, ListsIn, HeapIn, IsLive, FreePage, HeapPage, Foreign, WellFormed, Release, FreeTotal,
         AreasDisjoint, AreasMapped, AreasGood, Coalesced, Within;
    PfreeKeeps(w.b, p);
    if k: Order :| IsLive(w.b, p, k) {
      assert forall t :: t in w.tables ==> !Within(t, p, k);
    }
  }

  // --------------------------------------------------------------------- vmap

  /** vmap over the heap, with any arguments and any answers: from the world before to the
      world after, heap and space are in order, every area is mapped and has its fields in its
      record, a failed call changes no translation, and the new area is in front if it
      succeeds. */
  lemma VmapOverHeap(w: World, w': World, maps: Addr, root: nat, call: Call)
    requires Ok(w, maps, root) && Vmaps(w, w', maps, root, call)
    ensures Ok(w', maps, root) && w'.areas == if call.r == Ret(0) then [call.a] + w.areas else w.areas
    ensures call.r != Ret(0) ==> SameView(w.m, w'.m, root)
  {
    hide InOrder, SameView, SameWords, SameObjects, Live, At, Holds, Recorded, K.Served, K.Freed, K.Steady, SameFields,
         Done, Serves, HeapFrames, TurnedDown;
    var w1, w2, w3 := call.w1, call.w2, call.w3;
    GivesKeeps(w, w1, maps, root, call.o);
    WritesKeep(w1, w2, maps, root, call.o);
    VmMapKeepsHeap(w2, w3, maps, root, call.log, call.r, call.a);
    SameViewTrans(w.m, w1.m, w2.m, root);
    MappingHolders(w2, w3, maps, root, call.log, call.r, call.a);
    if call.r == Ret(0) {
      RecordAdded(w2.model, w2.m, w3.m, w.holders, w.areas, call.o, call.a);
      SameExceptHolders(w3, w', maps, root);
    } else {
      RecordsThrough(w2.model, w2.m, w3.m, w.holders, w.areas);
      TakesBackKeeps(w3, w', maps, root, call.o);
      SameViewTrans(w.m, w2.m, w3.m, root);
      SameViewTrans(w.m, w3.m, w'.m, root);
    }
  }

  lemma MappingHolders(w: World, w': World, maps: Addr, root: nat, log: T.Log<Buddy>, r: Paging.Outcome, a: Area)
    requires Mapping(w, w', maps, root, log, r, a)
    ensures w'.holders == w.holders && w'.areas == if r == Ret(0) then [a] + w.areas else w.areas
  {
    hide Done, Serves, HeapFrames, TurnedDown;
  }

  lemma SameExceptHolders(w: World, w': World, maps: Addr, root: nat)
    requires InOrder(w, maps, root) && w' == w.(holders := w'.holders)
    ensures InOrder(w', maps, root)
  {
    hide K.Steady, WellFormed, Outside, Foreign, AreasDisjoint, AreasMapped, AreasGood;
  }

  /** vm_map leaves the records alone. */
  lemma RecordsThrough(model: Model, m: Mem, m': Mem, holders: seq<Obj>, areas: seq<Area>)
    requires Recorded(model, m, holders, areas) && SameObjects(model, m, m')
    ensures Recorded(model, m', holders, areas)
  {
    hide Recorded, IsObj, SameWords, S.ObjAddr, S.ObjWords;
    forall x | x in holders
      ensures Live(model, x) && SameWords(m, m', At(x), S.ObjWords(x.c))
    {
      HoldersLive(model, m, holders, areas, x);
    }
    ObjectsKept(model, m, model, m', holders, areas);
  }

  lemma RecordAdded(model: Model, m: Mem, m': Mem, holders: seq<Obj>, areas: seq<Area>, o: Obj, a: Area)
    requires Recorded(model, m, holders, areas) && SameObjects(model, m, m')
    requires Live(model, o) && Holds(m, o, a) && o !in holders
    ensures Recorded(model, m', [o] + holders, [a] + areas)
  {
    RecordsThrough(model, m, m', holders, areas);
    assert Recorded(model, m, [o], [a]);
    RecordsThrough(model, m, m', [o], [a]);
    hide Live, Holds, SameObjects;
    assert Live(model, [o][0]) && Holds(m', [o][0], [a][0]);
    var os, all := [o] + holders, [a] + areas;
    forall k | 0 <= k < |all|
      ensures Live(model, os[k]) && Holds(m', os[k], all[k])
    {
      assert k > 0 ==> os[k] == holders[k - 1] && all[k] == areas[k - 1];
    }
  }

  lemma SameViewTrans(m: Mem, m1: Mem, m2: Mem, root: nat)
    requires SameView(m, m1, root) && SameView(m1, m2, root)
    ensures SameView(m, m2, root)
  {
    hide Translate, Verdict;
  }

  lemma StepKeeps(w: World, op: Op, w': World, maps: Addr, root: nat)
    requires Ok(w, maps, root) && Step(w, op, w', maps, root)
    ensures Ok(w', maps, root)
  {
    hide Ok, Gives, TakesBack, Writes, PallocBy, PfreeBy, Vmaps;
    match op
    case Kmalloc(o) => GivesKeeps(w, w', maps, root, o);
    case Kfree(o) => OkParts(w, maps, root); TakesBackKeeps(w, w', maps, root, o);
    case Store(o) => WritesKeep(w, w', maps, root, o);
    case Palloc(order, zero) => PallocByKeeps(w, w', maps, root, order, zero);
    case Pfree(p) => PfreeByKeeps(w, w', maps, root, p);
    case Vmap(call) => VmapOverHeap(w, w', maps, root, call);
  }

  lemma OkParts(w: World, maps: Addr, root: nat)
    requires Ok(w, maps, root)
    ensures InOrder(w, maps, root) && Recorded(w.model, w.m, w.holders, w.areas)
  {
  }

  /** Over any run of heap calls, client writes, buddy calls and vmaps, every area on the list
      stays mapped, apart from the others, and described by its own record in the heap. */
  lemma {:induction false} RunKeeps(ws: seq<World>, ops: seq<Op>, maps: Addr, root: nat)
    requires |ws| == |ops| + 1 && Ok(ws[0], maps, root)
    requires forall k :: 0 <= k < |ops| ==> Step(ws[k], ops[k], ws[k + 1], maps, root)
    ensures Ok(ws[|ops|], maps, root)
  {
    hide Ok, Step;
    if |ops| > 0 {
      var n := |ops| - 1;
      RunKeeps(ws[..n + 1], ops[..n], maps, root);
      StepKeeps(ws[n], ops[n], ws[n + 1], maps, root);
    }
  }
}
