/** kmalloc.c: seven slab allocators on top of the buddy allocator. */
module Kmalloc {
  import opened Bits
  import opened PageTables
  import opened Lists
  import opened BuddyModel
  import opened Sequences
  import opened BuddyLaws
  import opened BuddyMemory
  import opened Palloc
  import opened SlabModel
  import opened HeapModel
  import opened HeapSteps

  const PAL_KERNEL: Word := 0

  /** A pointer (0 for NULL), or no return: the allocator panicked, or its NULL was
      handed to memset. */
  datatype Outcome = Ptr(p: Word) | Halted

  /** The index in slabs[] kmalloc picks for a size of at most 2048. */
  function ClassFor(size: nat): (c: Class)
    requires size <= 2048
    ensures size <= ObjSize(c) && forall d: Class :: d < c ==> size > ObjSize(d)
    ensures if size <= 32 then ObjSize(c) == 32 else ObjSize(c) < 2 * size
  {
    if size <= 32 then 0 else if size <= 64 then 1 else if size <= 128 then 2 else if size <= 256 then 3
    else if size <= 512 then 4 else if size <= 1024 then 5 else 6
  }

  /** Some frame of class c has a free object. */
  ghost predicate HasRoom(model: Model, c: Class) {
    exists j: nat :: IsFrame(model, c, j) && |model[c][j].free| > 0
  }

  /** There is no free block of order 3 or 4, from which palloc could make a frame. */
  predicate NoFrameBlock(b: Buddy)
    requires |b.lists| == BUDDY_MAX_ORDER + 1
  {
    b.lists[SLAB_FRAME_ORDER] == [] && b.lists[SLAB_FRAME_ORDER + 1] == []
  }

  lemma FrameBlockServed(b: Buddy)
    requires Valid(b)
    ensures |b.lists| == BUDDY_MAX_ORDER + 1 && (Alloc(b, SLAB_FRAME_ORDER).1.Got? <==> !NoFrameBlock(b))
  {
    hide Valid, Alloc;
    ValidBlocks(b);
    PallocOutcome(b, SLAB_FRAME_ORDER);
  }

  /** p points to a live object. */
  ghost predicate LivePtr(model: Model, p: Word) {
    exists c: Class, pn: nat, i: nat :: IsObj(model, c, pn, i) && p == ObjPtr(pn, c, i)
  }

  ghost predicate InNoFrame(recs: Records, p: Word)
    requires |recs| == CLASSES
  {
    forall c: Class, j :: 0 <= j < |recs[c]| ==> !Contains(recs[c][j], p)
  }

  /** The state between two statements: Busy(model) may be broken. */
  ghost predicate Steady(b: Buddy, m: Mem, maps: Addr, recs: Records, model: Model, counts: seq<int>) {
    && InMemory(b, m, maps) && b.n < 0x800_0000 && HeapIn(m, b, recs, model) && Chains(recs, model)
    && |counts| == CLASSES && forall c: Class :: counts[c] == |recs[c]|
  }

  lemma SteadyMeans(b: Buddy, m: Mem, maps: Addr, recs: Records, model: Model, counts: seq<int>)
    requires Steady(b, m, maps, recs, model, counts)
    ensures InMemory(b, m, maps) && Valid(b) && |b.lists| == BUDDY_MAX_ORDER + 1 && b.n < 0x800_0000
    ensures HeapIn(m, b, recs, model) && Shape(recs, model) && FramesLive(b, model) && |counts| == CLASSES
    ensures Chains(recs, model)
    ensures forall c: Class :: counts[c] == |recs[c]| == |model[c]|
    ensures |m| <= DIRECT_WORDS
  {
  }

  lemma SoundInMemory(b: Buddy, m: Mem, maps: Addr, pages: seq<Page>, counts: seq<int>, freePages: int)
    requires Sound(b, m, maps, pages, counts, freePages)
    ensures InMemory(b, m, maps) && b.n == |pages|
  {
  }

  // ----------------------------------------------------- what the calls promise

  /** A frame was appended to class c, on the block palloc(3) handed out. */
  ghost predicate Grew(b: Buddy, m: Mem, model: Model, b': Buddy, m': Mem, model': Model, maps: Addr, c: Class)
    requires |b.lists| == BUDDY_MAX_ORDER + 1
  {
    && |model| == CLASSES && Alloc(b, SLAB_FRAME_ORDER).1.Got? && b' == Alloc(b, SLAB_FRAME_ORDER).0
    && model' == AddFrame(model, c, SlabFrame(Alloc(b, SLAB_FRAME_ORDER).1.p, UpTo(ObjCount(c))))
    && SameObjects(model, m, m') && SparesRest(b, model, m, m', maps) && SameBlocks(b, model, b', model')
  }

  /** One more object, of class c, poisoned; every live object keeps its contents, and
      nothing but free pages, list heads and the heap's own pages was written. */
  ghost predicate Served(b: Buddy, m: Mem, model: Model, b': Buddy, m': Mem, model': Model, maps: Addr,
                         c: Class, pn: nat, i: nat) {
    && OneMore(model, model', c, pn, i) && Poisoned(m', ObjAddr(pn, c, i), ObjWords(c))
    && SameObjects(model, m, m') && SparesRest(b, model, m, m', maps) && SameBlocks(b, model, b', model')
  }

  /** Object i is the only live one of the frame at pn. */
  ghost predicate OnlyObject(model: Model, c: Class, pn: nat, i: nat) {
    forall x: nat :: IsObj(model, c, pn, x) ==> x == i
  }

  /** One object less; the frame went back to the buddy allocator exactly if it was its last. */
  ghost predicate Freed(b: Buddy, m: Mem, model: Model, b': Buddy, m': Mem, model': Model, maps: Addr,
                        c: Class, pn: nat, i: nat) {
    && OneMore(model', model, c, pn, i)
    && SameObjects(model', m, m') && SparesRest(b, model, m, m', maps) && SameBlocks(b, model, b', model')
    && |b.lists| == BUDDY_MAX_ORDER + 1 && b' == if OnlyObject(model, c, pn, i) then Release(b, pn) else b
  }

  // ------------------------------------------------------------- step by step

  lemma NewBlockFits(b: Buddy, m: Mem, maps: Addr, recs: Records, model: Model, counts: seq<int>, pn: nat)
    requires Steady(b, m, maps, recs, model, counts) && |b.lists| == BUDDY_MAX_ORDER + 1
    requires Alloc(b, SLAB_FRAME_ORDER).1 == Got(pn)
    ensures pn % FRAME_PAGES == 0 && 512 * pn + FRAME_WORDS <= |m| && 512 * pn + FRAME_WORDS < DIRECT_WORDS
    ensures IsLive(Alloc(b, SLAB_FRAME_ORDER).0, pn, SLAB_FRAME_ORDER) && Alloc(b, SLAB_FRAME_ORDER).0.n == b.n
  {
    hide *;
    SteadyMeans(b, m, maps, recs, model, counts);
    NewBlock(b, m, maps, recs, model, pn);
    ghost var m1 := PallocMem(b, m, maps, SLAB_FRAME_ORDER, false);
    LiveBlock(Alloc(b, SLAB_FRAME_ORDER).0, m1, maps, pn);
    SparesLength(b, m, m1, maps);
  }

  lemma SparesLength(b: Buddy, m: Mem, m': Mem, maps: Addr)
    requires SparesOthers(b, m, m', maps)
    ensures |m'| == |m|
  {
  }

  /** A frame's block is written and not yet in its chain. */
  lemma Built(b: Buddy, m: Mem, m2: Mem, maps: Addr, recs: Records, model: Model, counts: seq<int>, pn: nat, c: Class)
    requires Steady(b, m, maps, recs, model, counts) && |b.lists| == BUDDY_MAX_ORDER + 1
    requires Alloc(b, SLAB_FRAME_ORDER).1 == Got(pn) && InMemory(Alloc(b, SLAB_FRAME_ORDER).0, m2, maps)
    requires OnlyBlock(PallocMem(b, m, maps, SLAB_FRAME_ORDER, false), m2, pn)
    ensures |model| == CLASSES && Steady(Alloc(b, SLAB_FRAME_ORDER).0, m2, maps, recs, model, counts)
    ensures Grew(b, m, model, Alloc(b, SLAB_FRAME_ORDER).0, m2, AddFrame(model, c, SlabFrame(pn, UpTo(ObjCount(c)))),
                 maps, c)
    ensures IsLive(Alloc(b, SLAB_FRAME_ORDER).0, pn, SLAB_FRAME_ORDER) && NoFrameAt(model, pn)
  {
    hide Alloc, PallocMem, InMemory, FrameIn, OnlyBlock, Valid, SameObjects, SparesRest, SameBlocks, FramesLive,
         FramesIn, IsLive, SparesOthers, FreePage, ObjCount, Chains;
    SteadyMeans(b, m, maps, recs, model, counts);
    var b1, m1, f := Alloc(b, SLAB_FRAME_ORDER).0, PallocMem(b, m, maps, SLAB_FRAME_ORDER, false),
      SlabFrame(pn, UpTo(ObjCount(c)));
    NewBlock(b, m, maps, recs, model, pn);
    InMemoryLists(b1, m2, maps);
    KeepHeap(m1, m2, b1, recs, model, pn);
    OutsideObjects(m1, m2, b1, recs, model, pn);
    SameObjectsTrans(model, m, m1, m2);
    NewSparesRest(b, model, m, m1, m2, maps, pn);
    assert Within(pn, pn, SLAB_FRAME_ORDER);
    FreeHeadNotLive(b, pn);
    NewBlocks(b, b1, model, c, f);
  }

  ghost predicate NoFrameAt(model: Model, pn: nat) {
    forall d: Class, k: nat :: IsFrame(model, d, k) ==> model[d][k].pn != pn
  }

  /** The last frame of class c, if any, is linked to p. */
  lemma LinkedLast(b: Buddy, m: Mem, maps: Addr, recs: Records, model: Model, counts: seq<int>, c: Class, p: Word,
                   b0: Buddy)
    requires Steady(b, m, maps, recs, model, counts)
    ensures |recs| == |model| == CLASSES && |recs[c]| == |model[c]|
    ensures |model[c]| > 0 ==> 512 * model[c][|model[c]| - 1].pn + FRAME_WORDS <= |m|
    ensures var m' := LinkLast(m, model, c, p);
      && HeapIn(m', b, Appended(recs, c, p), model) && InMemory(b, m', maps)
      && SameObjects(model, m, m') && SparesRest(b0, model, m, m', maps)
    ensures
      if |model[c]| == 0 then LinkLast(m, model, c, p) == m
      else
        var pn := model[c][|model[c]| - 1].pn;
        OnlyBlock(m, LinkLast(m, model, c, p), pn) && IsLive(b, pn, SLAB_FRAME_ORDER)
  {
    hide InMemory, FrameIn, Valid, IsLive, ObjAddr, ObjWords, ObjCount, Foreign, FreePage, OnlyBlock, OnlyHeader,
         SetRec, Chains;
    SteadyMeans(b, m, maps, recs, model, counts);
    var last := |model[c]| - 1;
    if last >= 0 {
      assert IsFrame(model, c, last);
      RelinkHeap(m, b, recs, model, c, last, p);
      var m' := LinkLast(m, model, c, p);
      HeaderSpares(m, m', b, recs, model, maps, c, last, b0);
      BlockWrite(b, m, m', maps, model[c][last].pn);
    }
  }

  /** The frame joins its chain. */
  lemma Grow(b: Buddy, m: Mem, b1: Buddy, m2: Mem, maps: Addr, recs: Records, model: Model, counts: seq<int>,
             c: Class, r: FrameRec, f: SlabFrame)
    requires Steady(b1, m2, maps, recs, model, counts) && |b.lists| == BUDDY_MAX_ORDER + 1
    requires |recs| == |model| == |counts| == CLASSES
    requires |model[c]| > 0 ==> 512 * model[c][|model[c]| - 1].pn + FRAME_WORDS <= |m2|
    requires Grew(b, m, model, b1, m2, AddFrame(model, c, f), maps, c)
    requires IsLive(b1, f.pn, SLAB_FRAME_ORDER) && NoFrameAt(model, f.pn) && FrameIn(m2, c, r, f) && r.next == 0
    ensures var m3, p := LinkLast(m2, model, c, BlockPtr(f.pn)), BlockPtr(f.pn);
      && Steady(b1, m3, maps, AddRec(Appended(recs, c, p), c, r), AddFrame(model, c, f), counts[c := counts[c] + 1])
      && Grew(b, m, model, b1, m3, AddFrame(model, c, f), maps, c)
  {
    hide Alloc, PallocMem, InMemory, FrameIn, OnlyBlock, Valid, SameObjects, SparesRest, SameBlocks, FramesLive,
         FramesIn, IsLive, SparesOthers, FreePage, ObjCount, Chains, LinkLast, Appended, BlockPtr;
    SteadyMeans(b1, m2, maps, recs, model, counts);
    var m3, p := LinkLast(m2, model, c, BlockPtr(f.pn)), BlockPtr(f.pn);
    LinkedLast(b1, m2, maps, recs, model, counts, c, p, b);
    NewFrameStays(b1, m2, m3, model, c, r, f);
    SameBlock(m3, f.pn);
    AddHeap(m3, m3, b1, Appended(recs, c, p), model, c, r, f);
    AddChains(recs, model, c, r, f);
    SameObjectsTrans(model, m, m2, m3);
    SparesRestTrans(b, model, m, m2, m3, maps);
  }

  lemma NewFrameStays(b: Buddy, m: Mem, m': Mem, model: Model, c: Class, r: FrameRec, f: SlabFrame)
    requires FramesLive(b, model) && Valid(b) && IsLive(b, f.pn, SLAB_FRAME_ORDER) && NoFrameAt(model, f.pn)
    requires |model[c]| > 0 ==> OnlyBlock(m, m', model[c][|model[c]| - 1].pn)
    requires |model[c]| == 0 ==> m' == m
    requires FrameIn(m, c, r, f)
    ensures FrameIn(m', c, r, f)
  {
    hide Valid, IsLive, FrameIn;
    FrameFits(m, c, r, f);
    if |model[c]| > 0 {
      assert IsFrame(model, c, |model[c]| - 1);
      TwoLiveBlocks(b, model[c][|model[c]| - 1].pn, f.pn);
      FrameFrame(m, m', c, r, f);
    }
  }

  /** Where the chain of class c leads: the header of frame j, or its end. */
  lemma ChainAt(b: Buddy, m: Mem, maps: Addr, recs: Records, model: Model, counts: seq<int>, c: Class, j: nat)
    requires Steady(b, m, maps, recs, model, counts)
    ensures |recs| == |model| == CLASSES && |recs[c]| == |model[c]| && |m| <= DIRECT_WORDS
    ensures j < |model[c]| <==> ChainPtr(model, c, j) != 0
    ensures j < |model[c]| ==>
      var p, r, a := ChainPtr(model, c, j), recs[c][j], 512 * model[c][j].pn;
      && IsFrame(model, c, j) && a + 6 < a + FRAME_WORDS <= |m| && a < DIRECT_WORDS && p == ToPtr(a) && FromPtr(p) == a
      && m[a] == ChainPtr(model, c, j + 1) && HeaderIn(m, r) && r.pn == model[c][j].pn
      && r.objCount == ObjCount(c) && r.freeCount == |model[c][j].free| && r.next == m[a]
  {
    hide InMemory, FreeObject, FreeIndices, ObjAddr, ObjCount, ObjPtr, FreePtr, ObjSize;
    SteadyMeans(b, m, maps, recs, model, counts);
    if j < |model[c]| {
      assert IsFrame(model, c, j);
      assert FrameIn(m, c, recs[c][j], model[c][j]);
      PtrRoundTrip(512 * model[c][j].pn);
    }
  }

  /** The frames of a chain are distinct. */
  lemma ChainDistinct(b: Buddy, m: Mem, maps: Addr, recs: Records, model: Model, counts: seq<int>, c: Class, i: nat,
                      j: nat)
    requires Steady(b, m, maps, recs, model, counts) && IsFrame(model, c, j) && i < j
    ensures ChainPtr(model, c, i) != ChainPtr(model, c, j)
  {
    hide InMemory, FrameIn, IsLive, ChainPtr;
    SteadyMeans(b, m, maps, recs, model, counts);
    ChainAt(b, m, maps, recs, model, counts, c, i);
    ChainAt(b, m, maps, recs, model, counts, c, j);
    assert IsFrame(model, c, i);
  }

  /** The first free object of frame j is taken: the two header words that say so are written. */
  lemma Pop(b: Buddy, m: Mem, maps: Addr, recs: Records, model: Model, counts: seq<int>, c: Class, j: nat)
    requires Steady(b, m, maps, recs, model, counts) && IsFrame(model, c, j)
    requires |recs| == CLASSES && j < |recs[c]|
    ensures recs[c][j].freeList == 0 <==> |model[c][j].free| == 0
    ensures |model[c][j].free| > 0 ==>
      var f, r := model[c][j], recs[c][j];
      var g, i, a := f.(free := f.free[1..]), f.free[0], FromPtr(r.freeList);
      && i < ObjCount(c) && a == ObjAddr(f.pn, c, i) && r.freeList == ObjPtr(f.pn, c, i) && Poisoned(m, a, ObjWords(c))
      && 512 * f.pn + FRAME_WORDS <= |m| && 512 * f.pn + HEADER_WORDS <= a && 0 < r.freeCount < W64
      && var m' := SetFree(m, f.pn, m[a], r.freeCount - 1);
      && Steady(b, m', maps, SetRec(recs, c, j, r.(freeList := m[a], freeCount := r.freeCount - 1)),
        SetFrame(model, c, j, g), counts)
      && OneMore(model, SetFrame(model, c, j, g), c, f.pn, i) && SameBlocks(b, model, b, SetFrame(model, c, j, g))
      && SameObjects(model, m, m') && SparesRest(b, model, m, m', maps)
      && OnlyBlock(m, m', f.pn) && IsLive(b, f.pn, SLAB_FRAME_ORDER)
  {
    hide InMemory, FrameIn, Valid, SameBlocks, OneMore, FramesLive, IsLive, ObjCount, ObjPtr, ObjAddr, ObjWords,
         Poisoned, SetRec, SetFrame, SetFree, OnlyHeader, OnlyBlock, SameObjects, SparesRest, Chains, ChainPtr;
    SteadyMeans(b, m, maps, recs, model, counts);
    var f, r := model[c][j], recs[c][j];
    assert FrameIn(m, c, r, f);
    FrameFreeList(m, c, r, f);
    if |f.free| > 0 {
      var g, i := f.(free := f.free[1..]), f.free[0];
      ObjPtrIs(f.pn, c, i);
      ObjInFrame(f.pn, c, i);
      PopObject(m, c, r, f);
      var a := ObjAddr(f.pn, c, i);
      var r', m' := r.(freeList := m[a], freeCount := r.freeCount - 1), SetFree(m, f.pn, m[a], r.freeCount - 1);
      HeaderSpares(m, m', b, recs, model, maps, c, j, b);
      FrameLives(b, model, c, j);
      BlockWrite(b, m, m', maps, f.pn);
      SetHeap(m, m', b, recs, model, c, j, r', g);
      SetChains(recs, model, c, j, r', g);
      Head(f.free);
      SetMore(b, model, c, j, g, i);
      SetBlocks(b, model, c, j, g);
    }
  }

  lemma FrameLives(b: Buddy, model: Model, c: Class, j: nat)
    requires FramesLive(b, model) && IsFrame(model, c, j)
    ensures IsLive(b, model[c][j].pn, SLAB_FRAME_ORDER)
  {
    hide IsLive;
  }

  lemma FrameFreeList(m: Mem, c: Class, r: FrameRec, f: SlabFrame)
    requires FrameIn(m, c, r, f)
    ensures 512 * f.pn + FRAME_WORDS <= |m| && 512 * f.pn + FRAME_WORDS < DIRECT_WORDS
    ensures NoDup(f.free) && forall k :: 0 <= k < |f.free| ==> f.free[k] < ObjCount(c)
    ensures r.freeCount == |f.free| && r.objCount == ObjCount(c) && r.pn == f.pn
    ensures r.freeList == 0 <==> |f.free| == 0
  {
    if |f.free| > 0 {
      ObjPtrIs(f.pn, c, f.free[0]);
    }
  }

  lemma SameBlock(m: Mem, pn: nat)
    ensures OnlyBlock(m, m, pn)
  {
  }

  lemma Head(s: seq<nat>)
    requires NoDup(s) && |s| > 0
    ensures s[0] !in s[1..] && forall x: nat :: x in s <==> x in s[1..] || x == s[0]
  {
    assert forall k :: 0 <= k < |s| - 1 ==> s[1..][k] == s[k + 1];
  }

  /** Object i is poisoned and linked in m1, and then the header of frame j leads to it. */
  lemma Push(b: Buddy, m: Mem, m1: Mem, maps: Addr, recs: Records, model: Model, counts: seq<int>, c: Class, j: nat,
             i: nat)
    requires Steady(b, m, maps, recs, model, counts) && |recs| == |model| == CLASSES && j < |recs[c]|
    requires IsFrame(model, c, j)
    requires IsObj(model, c, model[c][j].pn, i) && |m1| == |m|
    requires var a := ObjAddr(model[c][j].pn, c, i);
      && Poisoned(m1, a, ObjWords(c)) && m1[a] == recs[c][j].freeList
      && (forall x :: 0 <= x < |m| && !(a <= x < a + ObjWords(c)) ==> m1[x] == m[x])
    ensures var f, r := model[c][j], recs[c][j];
      var g, r' := f.(free := [i] + f.free), r.(freeList := ObjPtr(f.pn, c, i), freeCount := r.freeCount + 1);
      && 512 * f.pn + FRAME_WORDS <= |m1| && 0 <= r.freeCount && r.freeCount + 1 < W64
      && var m2 := SetFree(m1, f.pn, ObjPtr(f.pn, c, i), r.freeCount + 1);
      && Steady(b, m2, maps, SetRec(recs, c, j, r'), SetFrame(model, c, j, g), counts)
      && OneMore(SetFrame(model, c, j, g), model, c, f.pn, i) && SameBlocks(b, model, b, SetFrame(model, c, j, g))
      && SameObjects(SetFrame(model, c, j, g), m, m2) && SparesRest(b, model, m, m2, maps)
      && OnlyBlock(m, m1, f.pn) && OnlyBlock(m1, m2, f.pn) && IsLive(b, f.pn, SLAB_FRAME_ORDER)
  {
    hide InMemory, FrameIn, Valid, SameBlocks, FramesLive, IsLive, ObjCount, ObjPtr, ObjAddr, ObjWords, Poisoned,
         SetRec, SetFrame, SameObjects, SparesRest, OnlyBlock, IsObj, SetFree, OnlyHeader, Chains, ChainPtr;
    SteadyMeans(b, m, maps, recs, model, counts);
    var f, r := model[c][j], recs[c][j];
    assert FrameIn(m, c, r, f);
    FrameObjs(b, model, c, j, i);
    FrameFreeList(m, c, r, f);
    var g, r' := f.(free := [i] + f.free), r.(freeList := ObjPtr(f.pn, c, i), freeCount := r.freeCount + 1);
    ObjectWrite(m, m1, b, recs, model, maps, c, j, i);
    LiveWrite(m, m1, c, r, f, i);
    SetHeap(m, m1, b, recs, model, c, j, r, f);
    SetSame(recs, model, c, j);
    PushObject(m1, c, r, f, i);
    var m2 := SetFree(m1, f.pn, ObjPtr(f.pn, c, i), r.freeCount + 1);
    HeaderSpares(m1, m2, b, recs, model, maps, c, j, b);
    SetHeap(m1, m2, b, recs, model, c, j, r', g);
    FrameLives(b, model, c, j);
    BlockWrite(b, m, m1, maps, f.pn);
    BlockWrite(b, m1, m2, maps, f.pn);
    SetChains(recs, model, c, j, r', g);
    SetFewer(b, model, c, j, g, i);
    SetBlocks(b, model, c, j, g);
    FewerObjects(model, SetFrame(model, c, j, g), c, f.pn, i, m, m1, m2);
    SparesRestTrans(b, model, m, m1, m2, maps);
  }

  lemma FewerObjects(model: Model, model': Model, c: Class, pn: nat, i: nat, m: Mem, m1: Mem, m2: Mem)
    requires OneMore(model', model, c, pn, i)
    requires OthersOnly(model, model', c, pn, i) ==> SameObjects(model', m, m1)
    requires SameObjects(model, m1, m2)
    ensures SameObjects(model', m, m2)
  {
    hide IsObj, ObjAddr, ObjWords, SameWords;
    assert SameObjects(model', m, m1);
    forall d: Class, q: nat, x: nat | IsObj(model', d, q, x)
      ensures SameWords(m, m2, ObjAddr(q, d, x), ObjWords(d))
    {
      assert IsObj(model, d, q, x);
      SameWordsTrans(m, m1, m2, ObjAddr(q, d, x), ObjWords(d));
    }
  }

  /** The frame is full again exactly when the freed object was its last. */
  lemma LastCount(m: Mem, b: Buddy, recs: Records, model: Model, c: Class, j: nat, i: nat)
    requires HeapIn(m, b, recs, model) && IsFrame(model, c, j) && IsObj(model, c, model[c][j].pn, i)
    ensures |model[c][j].free| + 1 == ObjCount(c) <==> OnlyObject(model, c, model[c][j].pn, i)
    ensures |model[c][j].free| + 1 <= ObjCount(c)
  {
    hide IsLive, ObjCount, IsObj;
    var f := model[c][j];
    assert FrameIn(m, c, recs[c][j], f);
    CountLive(f.free, ObjCount(c));
    var rest := Missing(f.free, ObjCount(c));
    forall x: nat
      ensures x in rest <==> IsObj(model, c, f.pn, x)
    {
      FrameObjs(b, model, c, j, x);
    }
    AtMostOne(rest - {i});
    SetMinus(rest, {i});
    if OnlyObject(model, c, f.pn, i) {
      assert rest - {i} == {};
    }
  }

  /** The frame before frame j of class c, or the head of the chain, leads past it. */
  lemma Bypass(b: Buddy, m: Mem, maps: Addr, recs: Records, model: Model, counts: seq<int>, c: Class, j: nat)
    requires Steady(b, m, maps, recs, model, counts) && IsFrame(model, c, j)
    ensures |recs| == |model| == CLASSES && j < |recs[c]| && Shape(recs, model)
    ensures j > 0 ==> 512 * model[c][j - 1].pn + FRAME_WORDS <= |m|
    ensures var m' := LinkBefore(m, model, c, j, recs[c][j].next);
      && HeapIn(m', b, Bypassed(recs, c, j), model) && InMemory(b, m', maps)
      && SameObjects(model, m, m') && SparesRest(b, model, m, m', maps)
    ensures j > 0 ==>
      var pn := model[c][j - 1].pn;
      OnlyBlock(m, LinkBefore(m, model, c, j, recs[c][j].next), pn) && IsLive(b, pn, SLAB_FRAME_ORDER)
    ensures Shape(DropRec(Bypassed(recs, c, j), c, j), DropFrame(model, c, j))
    ensures Chains(DropRec(Bypassed(recs, c, j), c, j), DropFrame(model, c, j))
  {
    hide InMemory, FrameIn, Valid, IsLive, ObjAddr, ObjWords, ObjCount, Foreign, FreePage, OnlyBlock, OnlyHeader,
         SetRec, Chains;
    SteadyMeans(b, m, maps, recs, model, counts);
    DropChains(recs, model, c, j);
    var next := recs[c][j].next;
    if j > 0 {
      assert IsFrame(model, c, j - 1);
      RelinkHeap(m, b, recs, model, c, j - 1, next);
      var m' := LinkBefore(m, model, c, j, next);
      HeaderSpares(m, m', b, recs, model, maps, c, j - 1, b);
      BlockWrite(b, m, m', maps, model[c][j - 1].pn);
    }
  }

  /** vpfree of frame j's block, m1 being the memory in which the chain passes it by. */
  lemma Shrink(b: Buddy, m: Mem, m1: Mem, m2: Mem, maps: Addr, recs: Records, recs1: Records, model: Model,
               counts: seq<int>, c: Class, j: nat)
    requires Steady(b, m, maps, recs, model, counts) && |recs| == |recs1| == |model| == |counts| == CLASSES
    requires IsFrame(model, c, j) && j < |recs1[c]| && |b.lists| == BUDDY_MAX_ORDER + 1
    requires HeapIn(m1, b, recs1, model) && InMemory(b, m1, maps)
    requires SameObjects(model, m, m1) && SparesRest(b, model, m, m1, maps)
    requires Shape(DropRec(recs1, c, j), DropFrame(model, c, j)) && Chains(DropRec(recs1, c, j), DropFrame(model, c, j))
    requires var b' := Release(b, model[c][j].pn); InMemory(b', m2, maps) && SparesOthers(b', m1, m2, maps)
    ensures var b' := Release(b, model[c][j].pn);
      && Steady(b', m2, maps, DropRec(recs1, c, j), DropFrame(model, c, j), counts[c := counts[c] - 1])
      && SameObjects(DropFrame(model, c, j), m, m2) && SparesRest(b, model, m, m2, maps)
      && SameBlocks(b, model, b', DropFrame(model, c, j))
  {
    hide InMemory, FrameIn, Valid, SameBlocks, FramesLive, FramesIn, IsLive, SameObjects, SparesRest, Release,
         SparesOthers, Chains;
    SteadyMeans(b, m, maps, recs, model, counts);
    ReleasedHeap(b, m1, m2, maps, recs1, model, c, j);
    PfreeKeeps(b, model[c][j].pn);
    DroppedObjects(b, model, c, j, m, m1);
    SameObjectsTrans(DropFrame(model, c, j), m, m1, m2);
    SparesRestTrans(b, model, m, m1, m2, maps);
  }

  lemma DroppedObjects(b: Buddy, model: Model, c: Class, j: nat, m: Mem, m': Mem)
    requires FramesLive(b, model) && IsFrame(model, c, j) && SameObjects(model, m, m')
    ensures SameObjects(DropFrame(model, c, j), m, m')
  {
    hide FramesLive, IsObj, ObjAddr, ObjWords, SameWords;
    forall d: Class, q: nat, x: nat | IsObj(DropFrame(model, c, j), d, q, x)
      ensures SameWords(m, m', ObjAddr(q, d, x), ObjWords(d))
    {
      DropObjects(b, model, c, j, d, q, x);
    }
  }

  /** Freeing the last object and then its frame. */
  lemma FreedLast(b: Buddy, m: Mem, m1: Mem, m2: Mem, maps: Addr, recs: Records, model: Model, c: Class, j: nat,
                  i: nat, g: SlabFrame,
                  b': Buddy)
    requires HeapIn(m, b, recs, model) && IsFrame(model, c, j) && IsObj(model, c, model[c][j].pn, i)
    requires g.pn == model[c][j].pn
    requires |model[c][j].free| + 1 == ObjCount(c) && |b.lists| == BUDDY_MAX_ORDER + 1 && b' == Release(b, g.pn)
    requires SameObjects(SetFrame(model, c, j, g), m, m1) && SparesRest(b, model, m, m1, maps)
    requires SameBlocks(b, model, b, SetFrame(model, c, j, g))
    requires var model1 := SetFrame(model, c, j, g);
      && SameObjects(DropFrame(model1, c, j), m1, m2) && SparesRest(b, model1, m1, m2, maps)
      && SameBlocks(b, model1, b', DropFrame(model1, c, j)) && OneMore(model1, model, c, g.pn, i)
    ensures DropFrame(SetFrame(model, c, j, g), c, j) == DropFrame(model, c, j)
    ensures Freed(b, m, model, b', m2, DropFrame(model, c, j), maps, c, g.pn, i)
  {
    hide FrameIn, FramesLive, IsLive, Release, ObjCount, IsObj, FramesIn, FreePage, Foreign, ObjAddr, ObjWords,
         SameWords, FrameBlock, SameBlocks;
    var model1 := SetFrame(model, c, j, g);
    assert DropFrame(model1, c, j)[c] == DropFrame(model, c, j)[c];
    assert DropFrame(model1, c, j) == DropFrame(model, c, j);
    LastObject(m, b, recs, model, c, j, i);
    LastCount(m, b, recs, model, c, j, i);
    var model2 := DropFrame(model, c, j);
    forall d: Class, q: nat, x: nat | IsObj(model2, d, q, x)
      ensures SameWords(m, m2, ObjAddr(q, d, x), ObjWords(d))
    {
      assert IsObj(model1, d, q, x);
      SameWordsTrans(m, m1, m2, ObjAddr(q, d, x), ObjWords(d));
    }
    SameHeapPages(model, c, j, g);
    SameBlocksTrans(b, model, b, model1, b', model2);
  }

  lemma SameWordsTrans(m0: Mem, m1: Mem, m2: Mem, a: nat, n: nat)
    requires SameWords(m0, m1, a, n) && SameWords(m1, m2, a, n)
    ensures SameWords(m0, m2, a, n)
  {
  }

  /** An address inside a frame that is a live object's is one of that frame. */
  lemma ObjectFound(m: Mem, b: Buddy, recs: Records, model: Model, p: Word, c: Class, j: nat) returns (i: nat)
    requires HeapIn(m, b, recs, model) && Valid(b) && LivePtr(model, p) && IsFrame(model, c, j)
    requires Contains(recs[c][j], p)
    ensures IsObj(model, c, model[c][j].pn, i) && p == ObjPtr(model[c][j].pn, c, i)
  {
    hide FrameIn, Valid, IsLive, ObjPtr, ObjCount;
    var d: Class, qn: nat, x: nat :| IsObj(model, d, qn, x) && p == ObjPtr(qn, d, x);
    var k: nat :| IsFrame(model, d, k) && model[d][k].pn == qn;
    FrameRange(m, d, recs[d][k], model[d][k]);
    OneFrame(m, b, recs, model, p, c, j, d, k);
    i := x;
  }

  /** A live object's address lies in some frame. */
  lemma ObjectInFrame(m: Mem, b: Buddy, recs: Records, model: Model, p: Word)
    requires HeapIn(m, b, recs, model) && LivePtr(model, p)
    ensures !InNoFrame(recs, p)
  {
    hide FrameIn, IsLive, ObjPtr, ObjCount, Contains, FramesLive;
    var d: Class, qn: nat, x: nat :| IsObj(model, d, qn, x) && p == ObjPtr(qn, d, x);
    var k: nat :| IsFrame(model, d, k) && model[d][k].pn == qn && x < ObjCount(d);
    FrameRange(m, d, recs[d][k], model[d][k]);
    assert Contains(recs[d][k], p);
  }

  /** An address is the start of one live object at most. */
  lemma SamePtr(m: Mem, b: Buddy, recs: Records, model: Model, c: Class, pn: nat, i: nat, d: Class, qn: nat, x: nat)
    requires HeapIn(m, b, recs, model) && Valid(b) && IsObj(model, c, pn, i) && IsObj(model, d, qn, x)
    requires ObjPtr(pn, c, i) == ObjPtr(qn, d, x)
    ensures (c, pn, i) == (d, qn, x)
  {
    hide HeapIn, Valid, IsObj, ObjPtr, ObjAddr, ObjWords;
    ObjectsApart(m, b, recs, model, c, pn, i, d, qn, x);
    ObjectsApart(m, b, recs, model, d, qn, x, c, pn, i);
    ObjWordsPositive(c);
    ObjWordsPositive(d);
  }

  lemma ObjWordsPositive(c: Class)
    ensures ObjWords(c) > 0
  {
  }

  /** Each alloc->head leads to the first frame of its chain. */
  ghost predicate HeadsIn(heads: seq<Word>, model: Model) {
    |heads| == |model| == CLASSES && forall c: Class :: heads[c] == ChainPtr(model, c, 0)
  }

  lemma HeadsAre(heads: seq<Word>, model: Model)
    requires |heads| == |model| == CLASSES && forall c: Class :: heads[c] == ChainPtr(model, c, 0)
    ensures HeadsIn(heads, model)
  {
  }

  lemma SetHeads(heads: seq<Word>, model: Model, c: Class, j: nat, f: SlabFrame)
    requires HeadsIn(heads, model) && IsFrame(model, c, j) && f.pn == model[c][j].pn
    ensures HeadsIn(heads, SetFrame(model, c, j, f)) && |model| == CLASSES
    ensures forall d: Class, k: nat :: ChainPtr(SetFrame(model, c, j, f), d, k) == ChainPtr(model, d, k)
  {
    hide BlockPtr;
  }

  lemma AddHeads(model: Model, c: Class, f: SlabFrame)
    requires |model| == CLASSES
    ensures forall d: Class :: d != c || |model[c]| > 0 ==>
      ChainPtr(AddFrame(model, c, f), d, 0) == ChainPtr(model, d, 0)
    ensures ChainPtr(AddFrame(model, c, f), c, |model[c]|) == BlockPtr(f.pn)
  {
    hide BlockPtr;
  }

  lemma LinkLastIs(m: Mem, model: Model, c: Class, p: Word)
    requires |model| == CLASSES && (|model[c]| > 0 ==> 512 * model[c][|model[c]| - 1].pn < |m|)
    ensures LinkLast(m, model, c, p) == if |model[c]| == 0 then m else m[512 * model[c][|model[c]| - 1].pn := p]
  {
  }

  lemma LinkBeforeIs(m: Mem, model: Model, c: Class, j: nat, p: Word)
    requires IsFrame(model, c, j) && (j > 0 ==> 512 * model[c][j - 1].pn < |m|)
    ensures |model| == CLASSES && j < |model[c]|
    ensures LinkBefore(m, model, c, j, p) == if j == 0 then m else m[512 * model[c][j - 1].pn := p]
  {
  }

  lemma NullIsWord()
    ensures 0 < W64
  {
  }

  lemma NewFramePtr(pn: nat, c: Class)
    requires pn % FRAME_PAGES == 0 && 512 * pn + FRAME_WORDS < DIRECT_WORDS
    ensures 512 * pn < DIRECT_WORDS && BlockPtr(pn) == ToPtr(512 * pn) != 0 && NewRec(pn, c).next == 0
  {
  }

  lemma HeaderMeans(m: Mem, r: FrameRec)
    requires 512 * r.pn + FRAME_WORDS <= |m| && HeaderIn(m, r)
    ensures var a := 512 * r.pn;
      && m[a] == r.next && m[a + 1] == r.start && m[a + 2] == r.end && m[a + 3] == r.objCount
      && m[a + 4] == r.freeList && m[a + 5] == r.freeCount
  {
  }

  lemma SetFreeIs(m: Mem, pn: nat, freeList: Word, freeCount: Word)
    requires 512 * pn + FRAME_WORDS <= |m|
    ensures SetFree(m, pn, freeList, freeCount) == m[512 * pn + 4 := freeList][512 * pn + 5 := freeCount]
  {
  }

  lemma PoisonedStill(m: Mem, m': Mem, pn: nat, a: nat, n: nat)
    requires Poisoned(m, a, n) && OnlyHeader(m, m', pn) && 512 * pn + HEADER_WORDS <= a
    ensures Poisoned(m', a, n)
  {
  }

  lemma EmptyHeap(b: Buddy, m: Mem, maps: Addr, heads: seq<Word>, recs: Records, model: Model, counts: seq<int>)
    requires InMemory(b, m, maps) && b.n < 0x800_0000
    requires heads == [0, 0, 0, 0, 0, 0, 0] && counts == [0, 0, 0, 0, 0, 0, 0]
    requires recs == [[], [], [], [], [], [], []] && model == [[], [], [], [], [], [], []]
    ensures Steady(b, m, maps, recs, model, counts) && HeadsIn(heads, model) && Busy(model)
    ensures forall c: Class, pn: nat, i: nat :: !IsObj(model, c, pn, i)
  {
    hide InMemory, FrameIn, BlockPtr, IsLive, ObjCount;
  }

  class KernelHeap {
    const alloc: BuddyAllocator
    var heads: seq<Word>         // alloc->head
    var frameCount: seq<int>     // alloc->frame_count
    ghost var frames: Records    // the headers of each chain, head first
    ghost var model: Model

    ghost predicate Sane()
      reads this, alloc, alloc.ram, alloc.pages, alloc.freeCount
    {
      && alloc.Ok() && Steady(alloc.blocks, alloc.ram[..], alloc.maps, frames, model, frameCount)
      && HeadsIn(heads, model)
    }

    ghost predicate Ok()
      reads this, alloc, alloc.ram, alloc.pages, alloc.freeCount
    {
      Sane() && Busy(model)
    }

    /** The static slabs[]: no frame yet. */
    constructor (alloc: BuddyAllocator)
      requires alloc.Ok()
      ensures Ok() && this.alloc == alloc && (forall c: Class, pn: nat, i: nat :: !IsObj(model, c, pn, i))
    {
      this.alloc := alloc;
      heads := [0, 0, 0, 0, 0, 0, 0];
      frames := [[], [], [], [], [], [], []];
      frameCount := [0, 0, 0, 0, 0, 0, 0];
      model := [[], [], [], [], [], [], []];
      new;
      hide *;
      alloc.OkIsSound();
      SoundInMemory(alloc.blocks, alloc.ram[..], alloc.maps, alloc.pages[..], alloc.freeCount[..], alloc.freePages);
      EmptyHeap(alloc.blocks, alloc.ram[..], alloc.maps, heads, frames, model, frameCount);
      SaneFrom(alloc.blocks, alloc.ram[..], frames, model, frameCount);
      OkFrom();
    }

    /** The loop that fills an object with SLAB_POISON. */
    method PoisonObject(a: Addr, n: nat)
      requires n > 0 && a + n <= alloc.ram.Length
      modifies alloc.ram
      ensures Poisoned(alloc.ram[..], a, n) && alloc.ram[a] == POISON
      ensures forall x :: 0 <= x < alloc.ram.Length && !(a <= x < a + n) ==> alloc.ram[x] == old(alloc.ram[x])
    {
      for i := 0 to n
        invariant forall x :: a <= x < a + i ==> alloc.ram[x] == POISON
        invariant forall x :: 0 <= x < alloc.ram.Length && !(a <= x < a + n) ==> alloc.ram[x] == old(alloc.ram[x])
      {
        alloc.ram[a + i] := POISON;
      }
    }

    /** One round of the loop of slab_alloc_new_frame: object i is poisoned and linked at curr, which
        is the header's free_list or the link of object i - 1. */
    method LinkObject(ghost m: Mem, c: Class, pn: nat, i: nat, start: Word, curr: Addr) returns (obj: Addr)
      requires 512 * pn + FRAME_WORDS <= alloc.ram.Length && 512 * pn + FRAME_WORDS < DIRECT_WORDS
      requires i < ObjCount(c) && start == ObjPtr(pn, c, 0)
      requires curr == if i == 0 then 512 * pn + 4 else ObjAddr(pn, c, i - 1)
      requires OnlyBlock(m, alloc.ram[..], pn) && Chained(alloc.ram[..], pn, c, i)
      requires pn % FRAME_PAGES == 0
      requires HeaderIn(alloc.ram[..], NewRec(pn, c).(freeList := if i == 0 then 0 else ObjPtr(pn, c, 0)))
      modifies alloc.ram
      ensures obj == ObjAddr(pn, c, i) && ObjPtr(pn, c, i) == ToPtr(obj)
      ensures OnlyBlock(m, alloc.ram[..], pn) && Chained(alloc.ram[..], pn, c, i + 1)
      ensures HeaderIn(alloc.ram[..], NewRec(pn, c))
    {
      hide ObjAddr, ObjPtr, ObjWords, ObjSize, ObjCount, Poisoned, Times, Chained, HeaderIn, NewRec;
      ghost var m0 := alloc.ram[..];
      ObjAt(pn, c, i);
      ObjInFrame(pn, c, i);
      PtrRoundTrip(ObjAddr(pn, c, i));
      obj := FromPtr(start + i * ObjSize(c));
      PoisonObject(obj, ObjWords(c));
      ghost var m1 := alloc.ram[..];
      if i > 0 {
        ObjInFrame(pn, c, i - 1);
        ObjsApart(pn, c, i - 1, i);
      }
      alloc.ram[curr] := ToPtr(obj);
      alloc.ram[obj] := 0;
      StillPoisoned(m1, alloc.ram[..], obj, ObjWords(c));
      ChainStep(m0, alloc.ram[..], pn, c, i);
      HeaderLinked(m0, alloc.ram[..], pn, c, i);
    }

    /** The header of a block that was zeroed, as slab_alloc_new_frame starts it. */
    method StartHeader(c: Class, pn: nat)
      requires pn % FRAME_PAGES == 0 && 512 * pn + FRAME_WORDS <= alloc.ram.Length
      requires 512 * pn + FRAME_WORDS < DIRECT_WORDS && alloc.ram[512 * pn] == alloc.ram[512 * pn + 4] == 0
      modifies alloc.ram
      ensures OnlyHeader(old(alloc.ram[..]), alloc.ram[..], pn)
      ensures HeaderIn(alloc.ram[..], NewRec(pn, c).(freeList := 0))
    {
      hide ObjAddr, ObjPtr, ObjWords, ObjSize, ObjCount, AlignUp, Times;
      Geometry(pn, c);
      ObjPtrIs(pn, c, 0);
      Few(c);
      var a: Addr := 512 * pn;
      alloc.ram[a + 1] := AlignUp(ToPtr(a) + HEADER_BYTES, ObjSize(c));
      alloc.ram[a + 3] := ObjCount(c);
      alloc.ram[a + 2] := alloc.ram[a + 1] + alloc.ram[a + 3] * ObjSize(c);
      alloc.ram[a + 5] := alloc.ram[a + 3];
    }

    /** The part of slab_alloc_new_frame that writes the block. */
    method BuildFrame(c: Class, pn: nat)
      requires pn % FRAME_PAGES == 0 && 512 * pn + FRAME_WORDS <= alloc.ram.Length
      requires 512 * pn + FRAME_WORDS < DIRECT_WORDS
      modifies alloc.ram
      ensures OnlyBlock(old(alloc.ram[..]), alloc.ram[..], pn)
      ensures FrameIn(alloc.ram[..], c, NewRec(pn, c), SlabFrame(pn, UpTo(ObjCount(c))))
    {
      hide ObjAddr, ObjPtr, ObjWords, ObjSize, ObjCount, FrameIn, Chained, HeaderIn, ZeroRun, OnlyBlock, OnlyHeader;
      ghost var m := alloc.ram[..];
      alloc.ZeroPages(pn, SLAB_FRAME_ORDER);
      ZeroedBlock(m, pn);
      ghost var m0 := alloc.ram[..];
      StartHeader(c, pn);
      InBlock(m, m0, alloc.ram[..], pn);
      ChainStart(alloc.ram[..], pn, c);
      HeaderStarts(alloc.ram[..], pn, c, 0);
      var a: Addr := 512 * pn;
      var curr: Addr := a + 4;
      var count: nat := alloc.ram[a + 3];
      for i := 0 to count
        invariant OnlyBlock(m, alloc.ram[..], pn) && Chained(alloc.ram[..], pn, c, i)
        invariant curr == if i == 0 then a + 4 else ObjAddr(pn, c, i - 1)
        invariant HeaderIn(alloc.ram[..], NewRec(pn, c).(freeList := if i == 0 then 0 else ObjPtr(pn, c, 0)))
      {
        HeaderStarts(alloc.ram[..], pn, c, if i == 0 then 0 else ObjPtr(pn, c, 0));
        curr := LinkObject(m, c, pn, i, alloc.ram[a + 1], curr);
      }
      HeaderStarts(alloc.ram[..], pn, c, ObjPtr(pn, c, 0));
      ChainMeans(alloc.ram[..], pn, c);
      NewFrame(alloc.ram[..], c, pn);
    }

    /** The end of slab_alloc_new_frame: the new frame goes to the end of the chain. */
    method AppendFrame(c: Class, frame: Word)
      requires Sane()
      modifies this`heads, alloc.ram
      ensures |model| == CLASSES && |old(heads)| == CLASSES
      ensures heads == if |model[c]| == 0 then old(heads)[c := frame] else old(heads)
      ensures |model[c]| > 0 ==> 512 * model[c][|model[c]| - 1].pn < |old(alloc.ram[..])|
      ensures alloc.ram[..] == LinkLast(old(alloc.ram[..]), model, c, frame)
    {
      hide *;
      ghost var b, m, recs, mod, counts := alloc.blocks, alloc.ram[..], frames, model, frameCount;
      SaneMeans();
      ChainAt(b, m, alloc.maps, recs, mod, counts, c, 0);
      if |mod[c]| > 0 {
        ChainAt(b, m, alloc.maps, recs, mod, counts, c, |mod[c]| - 1);
      }
      LinkLastIs(m, mod, c, frame);
      var curr := heads[c];
      if curr == 0 {
        heads := heads[c := frame];
        return;
      }
      ghost var k := 0;
      ChainAt(b, m, alloc.maps, recs, mod, counts, c, 1);
      while alloc.ram[FromPtr(curr)] != 0
        invariant b == alloc.blocks && m == alloc.ram[..] && heads == old(heads) && 0 <= k < |mod[c]|
        invariant FromPtr(curr) == 512 * mod[c][k].pn < |m| && m[512 * mod[c][k].pn] == ChainPtr(mod, c, k + 1)
        decreases |mod[c]| - k
      {
        ChainAt(b, m, alloc.maps, recs, mod, counts, c, k + 1);
        curr, k := alloc.ram[FromPtr(curr)], k + 1;
      }
      ChainAt(b, m, alloc.maps, recs, mod, counts, c, k + 1);
      alloc.ram[FromPtr(curr)] := frame;
      assert alloc.ram[..] == m[512 * mod[c][k].pn := frame];
    }

    /** slab_alloc_new_frame: the caller never checks for NULL, so no block means no return. */
    method AllocNewFrame(c: Class) returns (halted: bool, frame: Word)
      requires Sane()
      modifies this, alloc`freePages, alloc`blocks, alloc.ram, alloc.pages, alloc.freeCount
      ensures |old(alloc.blocks).lists| == BUDDY_MAX_ORDER + 1
      ensures halted <==> NoFrameBlock(old(alloc.blocks))
      ensures !halted ==> Sane() && |model| == |old(model)| == CLASSES && frame == ChainPtr(model, c, |old(model)[c]|)
      ensures !halted ==>
        Grew(old(alloc.blocks), old(alloc.ram[..]), old(model), alloc.blocks, alloc.ram[..], model, alloc.maps, c)
    {
      hide *;
      ghost var b, m, recs, mod, counts := alloc.blocks, alloc.ram[..], frames, model, frameCount;
      SaneMeans();
      SteadyMeans(b, m, alloc.maps, recs, mod, counts);
      FrameBlockServed(b);
      var r := alloc.Palloc(SLAB_FRAME_ORDER, false);
      if !r.Got? {
        NullIsWord();
        return true, 0;
      }
      var pn := r.p;
      ghost var b1, m1, ps, cs, f := alloc.blocks, alloc.ram[..], alloc.pages[..], alloc.freeCount[..], alloc.freePages;
      alloc.OkIsSound();
      SoundInMemory(b1, m1, alloc.maps, ps, cs, f);
      NewBlockFits(b, m, alloc.maps, recs, mod, counts, pn);
      BuildFrame(c, pn);
      ghost var m2, sf := alloc.ram[..], SlabFrame(pn, UpTo(ObjCount(c)));
      SoundWrite(b1, m1, m2, alloc.maps, ps, cs, f, pn);
      alloc.SoundIsOk(b1, m2, ps, cs, f);
      SoundInMemory(b1, m2, alloc.maps, ps, cs, f);
      Built(b, m, m2, alloc.maps, recs, mod, counts, pn, c);
      SaneFrom(b1, m2, recs, mod, counts);
      NewFramePtr(pn, c);
      frame := ToPtr(512 * pn);
      AppendFrame(c, frame);
      ghost var m3 := alloc.ram[..];
      LinkedLast(b1, m2, alloc.maps, recs, mod, counts, c, frame, b);
      if |mod[c]| > 0 {
        SoundWrite(b1, m2, m3, alloc.maps, ps, cs, f, mod[c][|mod[c]| - 1].pn);
      } else {
        LinkLastIs(m2, mod, c, frame);
      }
      alloc.SoundIsOk(b1, m3, ps, cs, f);
      Grow(b, m, b1, m2, alloc.maps, recs, mod, counts, c, NewRec(pn, c), sf);
      AddHeads(mod, c, sf);
      HeadsAre(heads, AddFrame(mod, c, sf));
      frames := AddRec(Appended(recs, c, frame), c, NewRec(pn, c));
      frameCount := frameCount[c := frameCount[c] + 1];
      model := AddFrame(model, c, sf);
      SaneFrom(b1, m3, AddRec(Appended(recs, c, frame), c, NewRec(pn, c)), AddFrame(mod, c, sf),
        counts[c := counts[c] + 1]);
      return false, frame;
    }

    /** slab_alloc_obj.  The poison of a free object is intact, so no object is skipped. */
    method AllocObj(c: Class, frame: Word, ghost j: nat) returns (p: Word)
      requires Sane() && IsFrame(model, c, j) && frame == ChainPtr(model, c, j)
      modifies this`frames, this`model, alloc.ram
      ensures Sane() && |old(model)| == CLASSES && j < |old(model)[c]|
      ensures p == 0 <==> |old(model)[c][j].free| == 0
      ensures p == 0 ==> model == old(model) && alloc.ram[..] == old(alloc.ram[..])
      ensures p != 0 ==>
        var f := old(model)[c][j];
        && p == ObjPtr(f.pn, c, f.free[0]) && model == SetFrame(old(model), c, j, f.(free := f.free[1..]))
        && OneMore(old(model), model, c, f.pn, f.free[0])
        && Poisoned(alloc.ram[..], ObjAddr(f.pn, c, f.free[0]), ObjWords(c))
        && SameBlocks(alloc.blocks, old(model), alloc.blocks, model)
        && SameObjects(old(model), old(alloc.ram[..]), alloc.ram[..])
        && OnlyHeader(old(alloc.ram[..]), alloc.ram[..], f.pn)
        && SparesRest(alloc.blocks, old(model), old(alloc.ram[..]), alloc.ram[..], alloc.maps)
    {
      hide *;
      ghost var b, m, recs, mod, counts := alloc.blocks, alloc.ram[..], frames, model, frameCount;
      ghost var ps, cs, f := alloc.pages[..], alloc.freeCount[..], alloc.freePages;
      SaneMeans();
      alloc.OkIsSound();
      ChainAt(b, m, alloc.maps, recs, mod, counts, c, j);
      FrameThere(mod, c, j);
      ghost var pn, r := mod[c][j].pn, recs[c][j];
      HeaderMeans(m, r);
      Pop(b, m, alloc.maps, recs, mod, counts, c, j);
      var at := FromPtr(frame);
      p := alloc.ram[at + 4];
      if p == 0 {
        return;
      }
      var a := FromPtr(p);
      PoisonMeans(m, a, ObjWords(c));
      var n := ObjWords(c);
      for i := 1 to n {
        var word := alloc.ram[a + i];
        assert word == m[a + i];
        if word != POISON {
          assert false;
        }
      }
      alloc.ram[at + 4] := alloc.ram[FromPtr(alloc.ram[at + 4])];
      alloc.ram[at + 5] := alloc.ram[at + 5] - 1;
      SetFreeIs(m, pn, m[a], r.freeCount - 1);
      ghost var m1 := alloc.ram[..];
      assert m1 == SetFree(m, pn, m[a], r.freeCount - 1);
      SoundWrite(b, m, m1, alloc.maps, ps, cs, f, pn);
      alloc.SoundIsOk(b, m1, ps, cs, f);
      PoisonedStill(m, m1, pn, a, ObjWords(c));
      ghost var r' := r.(freeList := m[a], freeCount := r.freeCount - 1);
      frames := SetRec(frames, c, j, r');
      ghost var g := mod[c][j].(free := mod[c][j].free[1..]);
      model := SetFrame(model, c, j, g);
      SetHeads(heads, mod, c, j, g);
      SaneFrom(b, m1, SetRec(recs, c, j, r'), SetFrame(mod, c, j, g), counts);
    }

    /** slab_free_frame: find the frame in its chain, unlink it, give its block back. */
    method FreeFrame(c: Class, frame: Word, ghost j: nat)
      requires Sane() && IsFrame(model, c, j) && frame == ChainPtr(model, c, j)
      modifies this, alloc`freePages, alloc`blocks, alloc.ram, alloc.pages, alloc.freeCount
      ensures Sane() && |old(alloc.blocks).lists| == BUDDY_MAX_ORDER + 1 && |old(model)| == CLASSES
      ensures j < |old(model)[c]|
      ensures alloc.blocks == Release(old(alloc.blocks), old(model)[c][j].pn) && model == DropFrame(old(model), c, j)
      ensures SameObjects(model, old(alloc.ram[..]), alloc.ram[..])
      ensures SparesRest(old(alloc.blocks), old(model), old(alloc.ram[..]), alloc.ram[..], alloc.maps)
      ensures SameBlocks(old(alloc.blocks), old(model), alloc.blocks, model)
    {
      hide *;
      ghost var b, m, recs, mod, counts := alloc.blocks, alloc.ram[..], frames, model, frameCount;
      ghost var ps, cs, f := alloc.pages[..], alloc.freeCount[..], alloc.freePages;
      SaneMeans();
      alloc.OkIsSound();
      SteadyMeans(b, m, alloc.maps, recs, mod, counts);
      FrameThere(mod, c, j);
      ghost var pn := mod[c][j].pn;
      UnlinkFrame(c, frame, j);
      ghost var m1 := alloc.ram[..];
      Bypass(b, m, alloc.maps, recs, mod, counts, c, j);
      if j > 0 {
        SoundWrite(b, m, m1, alloc.maps, ps, cs, f, mod[c][j - 1].pn);
      } else {
        LinkBeforeIs(m, mod, c, j, recs[c][j].next);
      }
      alloc.SoundIsOk(b, m1, ps, cs, f);
      frameCount := frameCount[c := frameCount[c] - 1];
      ChainAt(b, m, alloc.maps, recs, mod, counts, c, j);
      PtrOfPage(pn);
      FramePages(b, m, alloc.maps, recs, mod, counts, c, j);
      SoundInMemory(b, m1, alloc.maps, ps, cs, f);
      var panicked := alloc.Vpfree(frame);
      assert !panicked;
      alloc.OkIsSound();
      SoundInMemory(alloc.blocks, alloc.ram[..], alloc.maps, alloc.pages[..], alloc.freeCount[..], alloc.freePages);
      Shrink(b, m, m1, alloc.ram[..], alloc.maps, recs, Bypassed(recs, c, j), mod, counts, c, j);
      frames := DropRec(Bypassed(recs, c, j), c, j);
      model := DropFrame(model, c, j);
      SaneFrom(alloc.blocks, alloc.ram[..], DropRec(Bypassed(recs, c, j), c, j), DropFrame(mod, c, j),
        counts[c := counts[c] - 1]);
    }

    /** The walk of slab_free_frame, which leaves the frame out of its chain. */
    method UnlinkFrame(c: Class, frame: Word, ghost j: nat)
      requires Sane() && IsFrame(model, c, j) && frame == ChainPtr(model, c, j)
      modifies this`heads, alloc.ram
      ensures |frames| == |model| == CLASSES && j < |frames[c]| && HeadsIn(heads, DropFrame(model, c, j))
      ensures j > 0 ==> 512 * model[c][j - 1].pn < |old(alloc.ram[..])|
      ensures alloc.ram[..] == LinkBefore(old(alloc.ram[..]), model, c, j, frames[c][j].next)
    {
      hide *;
      ghost var b, m, recs, mod, counts := alloc.blocks, alloc.ram[..], frames, model, frameCount;
      SaneMeans();
      SteadyMeans(b, m, alloc.maps, recs, mod, counts);
      FrameThere(mod, c, j);
      DropChains(recs, mod, c, j);
      ChainAt(b, m, alloc.maps, recs, mod, counts, c, j);
      if j > 0 {
        ChainAt(b, m, alloc.maps, recs, mod, counts, c, j - 1);
      }
      LinkBeforeIs(m, mod, c, j, recs[c][j].next);
      var i: nat, prev: Word, curr := 0, 0, heads[c];
      while curr != frame && i < frameCount[c]
        invariant b == alloc.blocks && m == alloc.ram[..] && heads == old(heads)
        invariant i <= j && curr == ChainPtr(mod, c, i)
        invariant prev == if i == 0 then 0 else ChainPtr(mod, c, i - 1)
        decreases j - i
      {
        ChainAt(b, m, alloc.maps, recs, mod, counts, c, i);
        i, prev, curr := i + 1, curr, alloc.ram[FromPtr(curr)];
      }
      if i != j {
        ChainDistinct(b, m, alloc.maps, recs, mod, counts, c, i, j);
      }
      var next := alloc.ram[FromPtr(frame)];
      if prev == 0 {
        heads := heads[c := next];
      } else {
        alloc.ram[FromPtr(prev)] := next;
        assert alloc.ram[..] == m[512 * mod[c][j - 1].pn := next];
      }
      HeadsAre(heads, DropFrame(mod, c, j));
    }

    /** slab_free_obj: poison the object, put it back, and give up a frame that is all free. */
    method FreeObj(c: Class, frame: Word, p: Word, ghost j: nat, ghost i: nat)
      requires Ok() && IsFrame(model, c, j) && frame == ChainPtr(model, c, j)
      requires IsObj(model, c, model[c][j].pn, i) && p == ObjPtr(model[c][j].pn, c, i)
      modifies this, alloc`freePages, alloc`blocks, alloc.ram, alloc.pages, alloc.freeCount
      ensures Ok() && |old(model)| == CLASSES && j < |old(model)[c]|
      ensures Freed(old(alloc.blocks), old(alloc.ram[..]), old(model), alloc.blocks, alloc.ram[..], model, alloc.maps,
                    c, old(model)[c][j].pn, i)
    {
      hide *;
      ghost var b, m, recs, mod, counts := alloc.blocks, alloc.ram[..], frames, model, frameCount;
      ghost var ps, cs, f := alloc.pages[..], alloc.freeCount[..], alloc.freePages;
      OkMeans();
      SaneMeans();
      SteadyMeans(b, m, alloc.maps, recs, mod, counts);
      alloc.OkIsSound();
      ChainAt(b, m, alloc.maps, recs, mod, counts, c, j);
      FrameThere(mod, c, j);
      ghost var fr, r := mod[c][j], recs[c][j];
      HeaderMeans(m, r);
      ObjectRoom(b, m, alloc.maps, recs, mod, counts, c, j, i);
      LastCount(m, b, recs, mod, c, j, i);
      var at, a := FromPtr(frame), FromPtr(p);
      PoisonObject(a, ObjWords(c));
      ghost var m0 := alloc.ram[..];
      alloc.ram[a] := alloc.ram[at + 4];
      ghost var m1 := alloc.ram[..];
      StillPoisoned(m0, m1, a, ObjWords(c));
      Push(b, m, m1, alloc.maps, recs, mod, counts, c, j, i);
      alloc.ram[at + 4] := p;
      alloc.ram[at + 5] := alloc.ram[at + 5] + 1;
      ghost var m2 := alloc.ram[..];
      SetFreeIs(m1, fr.pn, p, r.freeCount + 1);
      assert m2 == SetFree(m1, fr.pn, p, r.freeCount + 1);
      SoundWrite(b, m, m1, alloc.maps, ps, cs, f, fr.pn);
      SoundWrite(b, m1, m2, alloc.maps, ps, cs, f, fr.pn);
      alloc.SoundIsOk(b, m2, ps, cs, f);
      ghost var r', g := r.(freeList := p, freeCount := r.freeCount + 1), fr.(free := [i] + fr.free);
      frames := SetRec(frames, c, j, r');
      model := SetFrame(model, c, j, g);
      SetHeads(heads, mod, c, j, g);
      SaneFrom(b, m2, SetRec(recs, c, j, r'), SetFrame(mod, c, j, g), counts);
      if alloc.ram[at + 5] == alloc.ram[at + 3] {
        StillFrame(mod, c, j, g);
        FreeFrame(c, frame, j);
        FreedLast(b, m, m2, alloc.ram[..], alloc.maps, recs, mod, c, j, i, g, alloc.blocks);
        DropHeap(m, b, recs, mod, c, j);
      } else {
        FreedOne(b, m, m2, mod, SetFrame(mod, c, j, g), alloc.maps, c, fr.pn, i);
        BusySet(mod, c, j, g);
      }
      OkFrom();
    }

    /** slab_has_addr */
    method HasAddr(c: Class, p: Word) returns (found: bool)
      requires Sane()
      ensures |frames| == CLASSES && (found <==> exists j :: 0 <= j < |frames[c]| && Contains(frames[c][j], p))
    {
      hide *;
      ghost var b, m, recs, mod, counts := alloc.blocks, alloc.ram[..], frames, model, frameCount;
      SaneMeans();
      ChainAt(b, m, alloc.maps, recs, mod, counts, c, 0);
      var frame := heads[c];
      ghost var j := 0;
      while frame != 0
        invariant 0 <= j <= |mod[c]| && frame == ChainPtr(mod, c, j)
        invariant forall k :: 0 <= k < j ==> !Contains(recs[c][k], p)
        decreases |mod[c]| - j
      {
        ChainAt(b, m, alloc.maps, recs, mod, counts, c, j);
        HeaderMeans(m, recs[c][j]);
        ContainsIs(recs[c][j], p);
        var a := FromPtr(frame);
        if p >= alloc.ram[a + 1] && p < alloc.ram[a + 2] {
          return true;
        }
        frame, j := alloc.ram[a], j + 1;
      }
      ChainAt(b, m, alloc.maps, recs, mod, counts, c, j);
      return false;
    }

    /** slab_free */
    method SlabFree(c: Class, p: Word)
      requires Ok() && LivePtr(model, p)
      requires |frames| == CLASSES && exists j :: 0 <= j < |frames[c]| && Contains(frames[c][j], p)
      modifies this, alloc`freePages, alloc`blocks, alloc.ram, alloc.pages, alloc.freeCount
      ensures Ok()
      ensures forall d: Class, pn: nat, i: nat :: IsObj(old(model), d, pn, i) && p == ObjPtr(pn, d, i) ==>
        Freed(old(alloc.blocks), old(alloc.ram[..]), old(model), alloc.blocks, alloc.ram[..], model,
              alloc.maps, d, pn, i)
    {
      hide *;
      ghost var b, m, recs, mod, counts := alloc.blocks, alloc.ram[..], frames, model, frameCount;
      OkMeans();
      SaneMeans();
      SteadyMeans(b, m, alloc.maps, recs, mod, counts);
      ChainAt(b, m, alloc.maps, recs, mod, counts, c, 0);
      var frame := heads[c];
      ghost var j := 0;
      while frame != 0
        invariant b == alloc.blocks && m == alloc.ram[..] && recs == frames && mod == model && Ok()
        invariant 0 <= j <= |mod[c]| && frame == ChainPtr(mod, c, j)
        invariant forall k :: 0 <= k < j ==> !Contains(recs[c][k], p)
        decreases |mod[c]| - j
      {
        ChainAt(b, m, alloc.maps, recs, mod, counts, c, j);
        HeaderMeans(m, recs[c][j]);
        ContainsIs(recs[c][j], p);
        var a := FromPtr(frame);
        if p >= alloc.ram[a + 1] && p < alloc.ram[a + 2] {
          ghost var i := ObjectFound(m, b, recs, mod, p, c, j);
          FreeObj(c, frame, p, j, i);
          forall d: Class, pn: nat, x: nat | IsObj(mod, d, pn, x) && p == ObjPtr(pn, d, x)
            ensures (d, pn, x) == (c, mod[c][j].pn, i)
          {
            SamePtr(m, b, recs, mod, d, pn, x, c, mod[c][j].pn, i);
          }
          return;
        }
        frame, j := alloc.ram[a], j + 1;
      }
      ChainAt(b, m, alloc.maps, recs, mod, counts, c, j);
    }

    /** kfree */
    method Kfree(p: Word)
      requires Ok() && |frames| == CLASSES && (LivePtr(model, p) || InNoFrame(frames, p))
      modifies this, alloc`freePages, alloc`blocks, alloc.ram, alloc.pages, alloc.freeCount
      ensures Ok() && |old(frames)| == CLASSES
      // A pointer into no frame, such as NULL, is ignored.
      ensures InNoFrame(old(frames), p) ==>
        frames == old(frames) && model == old(model) && alloc.blocks == old(alloc.blocks)
          && alloc.ram[..] == old(alloc.ram[..])
      // The object that starts at p is freed, in the class it was allocated from.
      ensures forall d: Class, pn: nat, i: nat :: IsObj(old(model), d, pn, i) && p == ObjPtr(pn, d, i) ==>
        Freed(old(alloc.blocks), old(alloc.ram[..]), old(model), alloc.blocks, alloc.ram[..], model,
              alloc.maps, d, pn, i)
    {
      hide *;
      ghost var b, m, recs, mod, counts := alloc.blocks, alloc.ram[..], frames, model, frameCount;
      OkMeans();
      SaneMeans();
      SteadyMeans(b, m, alloc.maps, recs, mod, counts);
      NotBoth(m, b, recs, mod, p);
      for c := 0 to CLASSES
        invariant b == alloc.blocks && m == alloc.ram[..] && recs == frames && mod == model && Ok()
        invariant forall d: Class, j :: d < c && 0 <= j < |recs[d]| ==> !Contains(recs[d][j], p)
      {
        OkMeans();
        var found := HasAddr(c, p);
        if found {
          FoundMeans(recs, c, p);
          SlabFree(c, p);
          return;
        }
      }
      NoFrameIs(recs, p);
      NotLivePtr(mod, p);
    }

    /** slab_malloc: the first frame with a free object serves, else a new frame. */
    method SlabMalloc(c: Class) returns (r: Outcome, ghost pn: nat, ghost i: nat)
      requires Ok()
      modifies this, alloc`freePages, alloc`blocks, alloc.ram, alloc.pages, alloc.freeCount
      ensures |old(alloc.blocks).lists| == BUDDY_MAX_ORDER + 1
      ensures r.Halted? <==> !HasRoom(old(model), c) && NoFrameBlock(old(alloc.blocks))
      ensures r.Ptr? ==> Ok() && r.p == ObjPtr(pn, c, i) != 0
      ensures r.Ptr? ==>
        Served(old(alloc.blocks), old(alloc.ram[..]), old(model), alloc.blocks, alloc.ram[..], model,
               alloc.maps, c, pn, i)
      ensures HasRoom(old(model), c) ==>
        alloc.blocks == old(alloc.blocks) && OnlyHeader(old(alloc.ram[..]), alloc.ram[..], pn)
    {
      hide *;
      ghost var b, m, recs, mod, counts := alloc.blocks, alloc.ram[..], frames, model, frameCount;
      OkMeans();
      SaneMeans();
      SteadyMeans(b, m, alloc.maps, recs, mod, counts);
      ChainAt(b, m, alloc.maps, recs, mod, counts, c, 0);
      var frame := heads[c];
      ghost var j := 0;
      while frame != 0
        invariant b == alloc.blocks && m == alloc.ram[..] && recs == frames && mod == model && Ok()
        invariant 0 <= j <= |mod[c]| && frame == ChainPtr(mod, c, j)
        invariant forall k :: 0 <= k < j ==> |mod[c][k].free| == 0
        decreases |mod[c]| - j
      {
        ChainAt(b, m, alloc.maps, recs, mod, counts, c, j);
        HeaderMeans(m, recs[c][j]);
        var a := FromPtr(frame);
        if alloc.ram[a + 5] > 0 {
          OkMeans();
          var p := AllocObj(c, frame, j);
          pn, i := mod[c][j].pn, mod[c][j].free[0];
          RoomServed(b, m, alloc.ram[..], mod, model, alloc.maps, c, j, pn, i);
          OkFrom();
          return Ptr(p), pn, i;
        }
        frame, j := alloc.ram[a], j + 1;
      }
      ChainAt(b, m, alloc.maps, recs, mod, counts, c, j);
      NoRoom(mod, c);
      OkMeans();
      var halted, newFrame := AllocNewFrame(c);
      if halted {
        return Halted, 0, 0;
      }
      ghost var b1, m1, mod1 := alloc.blocks, alloc.ram[..], model;
      GrewMeans(b, m, mod, b1, m1, mod1, alloc.maps, c);
      ghost var k := |mod[c]|;
      var p := AllocObj(c, newFrame, k);
      pn, i := mod1[c][k].pn, mod1[c][k].free[0];
      GrownServed(b, m, mod, b1, m1, mod1, alloc.ram[..], model, alloc.maps, c, pn, i);
      OkFrom();
      return Ptr(p), pn, i;
    }

    /** kmalloc */
    method Kmalloc(size: Word, flags: Word) returns (r: Outcome, ghost pn: nat, ghost i: nat)
      requires Ok()
      modifies this, alloc`freePages, alloc`blocks, alloc.ram, alloc.pages, alloc.freeCount
      ensures |old(alloc.blocks).lists| == BUDDY_MAX_ORDER + 1
      // Other flags and larger sizes give NULL and change nothing.
      ensures flags != PAL_KERNEL || size > 2048 ==>
        r == Ptr(0) && Ok() && model == old(model) && alloc.blocks == old(alloc.blocks)
          && alloc.ram[..] == old(alloc.ram[..])
      // Otherwise the call returns unless a new frame is needed and not to be had, and then
      // the result is a new object of the smallest class that fits.
      ensures flags == PAL_KERNEL && size <= 2048 ==>
        && (r.Halted? <==>
              !HasRoom(old(model), ClassFor(size)) && NoFrameBlock(old(alloc.blocks)))
        && (r.Ptr? ==>
              && Ok() && r.p == ObjPtr(pn, ClassFor(size), i) != 0
              && Served(old(alloc.blocks), old(alloc.ram[..]), old(model), alloc.blocks, alloc.ram[..], model,
                        alloc.maps, ClassFor(size), pn, i))
      // The words at the pointer are enough for size bytes and fewer than twice as many, or the 32
      // bytes of the smallest class; they lie in memory and share none with an object that was
      // live, and every such object keeps its contents.
      ensures r.Ptr? && r.p != 0 ==>
        var c, a := ClassFor(size), (r.p - 0xFFFF_FF80_0000_0000) / 8;
        && r.p == 0xFFFF_FF80_0000_0000 + 8 * a && 0 <= a && a + ObjWords(c) <= alloc.ram.Length
        && size <= 8 * ObjWords(c) && (if size <= 32 then ObjWords(c) == 4 else 8 * ObjWords(c) < 2 * size)
        && forall d: Class, q: nat, j: nat :: IsObj(old(model), d, q, j) ==>
             var e := ObjAddr(q, d, j);
             && (a + ObjWords(c) <= e || e + ObjWords(d) <= a)
             && forall x :: e <= x < e + ObjWords(d) && x < alloc.ram.Length ==> alloc.ram[x] == old(alloc.ram[x])
    {
      hide *;
      ghost var b, m, recs, mod, counts := alloc.blocks, alloc.ram[..], frames, model, frameCount;
      OkMeans();
      SaneMeans();
      SteadyMeans(b, m, alloc.maps, recs, mod, counts);
      pn, i := 0, 0;
      if flags != PAL_KERNEL {
        return Ptr(0), 0, 0;
      }
      for c := 0 to CLASSES
        invariant b == alloc.blocks && m == alloc.ram[..] && mod == model && Ok()
        invariant forall d: Class :: d < c ==> size > ObjSize(d)
      {
        if size <= ObjSize(c) {
          Smallest(size, c);
          r, pn, i := SlabMalloc(c);
          if r.Ptr? {
            OkMeans();
            SaneMeans();
            ServedMeans(b, m, mod, alloc.blocks, alloc.ram[..], alloc.maps, frames, model, frameCount, c, pn, i);
          }
          return;
        }
      }
      Largest(size);
      return Ptr(0), 0, 0;
    }

    /** A client writes word off of its object. */
    method Store(c: Class, pn: nat, i: nat, off: nat, w: Word)
      requires Ok() && IsObj(model, c, pn, i) && off < ObjWords(c) && ObjAddr(pn, c, i) + off < alloc.ram.Length
      modifies alloc.ram
      ensures Ok() && alloc.ram[..] == old(alloc.ram[..])[ObjAddr(pn, c, i) + off := w]
    {
      hide *;
      ghost var b, m, recs, mod, counts := alloc.blocks, alloc.ram[..], frames, model, frameCount;
      ghost var ps, cs, f := alloc.pages[..], alloc.freeCount[..], alloc.freePages;
      OkMeans();
      SaneMeans();
      alloc.OkIsSound();
      alloc.ram[ObjAddr(pn, c, i) + off] := w;
      StoreKeeps(b, m, alloc.ram[..], alloc.maps, recs, mod, counts, ps, cs, f, c, pn, i);
      alloc.SoundIsOk(b, alloc.ram[..], ps, cs, f);
      SaneFrom(b, alloc.ram[..], recs, mod, counts);
      OkFrom();
    }

    lemma OkMeans()
      requires Ok()
      ensures Sane() && Busy(model)
    {
    }

    lemma OkFrom()
      requires Sane() && Busy(model)
      ensures Ok()
    {
    }

    lemma SaneMeans()
      requires Sane()
      ensures alloc.Ok() && Steady(alloc.blocks, alloc.ram[..], alloc.maps, frames, model, frameCount)
      ensures HeadsIn(heads, model)
      ensures |heads| == |model| == CLASSES && forall c: Class :: heads[c] == ChainPtr(model, c, 0)
    {
    }

    lemma SaneFrom(b: Buddy, m: Mem, recs: Records, mod: Model, counts: seq<int>)
      requires alloc.Ok() && Steady(b, m, alloc.maps, recs, mod, counts) && HeadsIn(heads, mod)
      requires alloc.blocks == b && alloc.ram[..] == m && frames == recs && model == mod && frameCount == counts
      ensures Sane()
    {
    }
  }

  lemma FrameThere(model: Model, c: Class, j: nat)
    requires IsFrame(model, c, j)
    ensures |model| == CLASSES && j < |model[c]|
  {
  }

  /** Where object i of frame j lies, and what the frame's record says. */
  lemma ObjectRoom(b: Buddy, m: Mem, maps: Addr, recs: Records, model: Model, counts: seq<int>, c: Class, j: nat,
                   i: nat)
    requires Steady(b, m, maps, recs, model, counts) && IsFrame(model, c, j) && IsObj(model, c, model[c][j].pn, i)
    requires |recs| == CLASSES && j < |recs[c]|
    ensures var pn, r, a := model[c][j].pn, recs[c][j], ObjAddr(model[c][j].pn, c, i);
      && FromPtr(ObjPtr(pn, c, i)) == a && 512 * pn + 6 <= a && a + ObjWords(c) <= |m| && ObjWords(c) > 0
      && i < ObjCount(c) && a < DIRECT_WORDS
      && IsLive(b, pn, SLAB_FRAME_ORDER) && r.pn == pn && r.objCount == ObjCount(c) && r.freeCount == |model[c][j].free|
  {
    hide InMemory, FrameIn, ObjCount, ObjAddr, ObjPtr, IsLive;
    SteadyMeans(b, m, maps, recs, model, counts);
    FrameFreeList(m, c, recs[c][j], model[c][j]);
    ObjPtrIs(model[c][j].pn, c, i);
    ObjInFrame(model[c][j].pn, c, i);
  }

  lemma StillFrame(model: Model, c: Class, j: nat, g: SlabFrame)
    requires IsFrame(model, c, j)
    ensures IsFrame(SetFrame(model, c, j, g), c, j) && SetFrame(model, c, j, g)[c][j] == g
  {
  }

  lemma FreedOne(b: Buddy, m: Mem, m': Mem, model: Model, model': Model, maps: Addr, c: Class, pn: nat, i: nat)
    requires OneMore(model', model, c, pn, i) && SameObjects(model', m, m') && SparesRest(b, model, m, m', maps)
    requires SameBlocks(b, model, b, model') && |b.lists| == BUDDY_MAX_ORDER + 1 && !OnlyObject(model, c, pn, i)
    ensures Freed(b, m, model, b, m', model', maps, c, pn, i)
  {
    hide OneMore, SameObjects, SparesRest, SameBlocks, OnlyObject, Release;
  }

  lemma BusySet(model: Model, c: Class, j: nat, g: SlabFrame)
    requires Busy(model) && IsFrame(model, c, j) && |g.free| < ObjCount(c)
    ensures Busy(SetFrame(model, c, j, g))
  {
    hide ObjCount;
    var model' := SetFrame(model, c, j, g);
    forall d: Class, k: nat | IsFrame(model', d, k)
      ensures |model'[d][k].free| < ObjCount(d)
    {
      assert IsFrame(model, d, k);
    }
  }

  lemma ContainsIs(r: FrameRec, p: Word)
    ensures Contains(r, p) <==> p >= r.start && p < r.end
  {
  }

  lemma NotBoth(m: Mem, b: Buddy, recs: Records, model: Model, p: Word)
    requires HeapIn(m, b, recs, model) && |recs| == CLASSES
    ensures LivePtr(model, p) ==> !InNoFrame(recs, p)
  {
    hide HeapIn, LivePtr, InNoFrame;
    if LivePtr(model, p) {
      ObjectInFrame(m, b, recs, model, p);
    }
  }

  lemma FoundMeans(recs: Records, c: Class, p: Word)
    requires |recs| == CLASSES && exists j :: 0 <= j < |recs[c]| && Contains(recs[c][j], p)
    ensures !InNoFrame(recs, p)
  {
    hide Contains;
  }

  lemma NoFrameIs(recs: Records, p: Word)
    requires |recs| == CLASSES && forall d: Class, j :: 0 <= j < |recs[d]| ==> !Contains(recs[d][j], p)
    ensures InNoFrame(recs, p)
  {
    hide Contains;
  }

  lemma NotLivePtr(model: Model, p: Word)
    requires !LivePtr(model, p)
    ensures forall d: Class, pn: nat, i: nat :: IsObj(model, d, pn, i) ==> p != ObjPtr(pn, d, i)
  {
    hide IsObj, ObjPtr;
  }

  /** The result of taking an object of a frame that was there. */
  lemma RoomServed(b: Buddy, m: Mem, m': Mem, model: Model, model': Model, maps: Addr, c: Class, j: nat, pn: nat,
                   i: nat)
    requires Busy(model) && IsFrame(model, c, j) && |model[c][j].free| > 0
    requires model' == SetFrame(model, c, j, model[c][j].(free := model[c][j].free[1..]))
    requires OneMore(model, model', c, pn, i) && Poisoned(m', ObjAddr(pn, c, i), ObjWords(c))
    requires SameObjects(model, m, m') && SparesRest(b, model, m, m', maps) && SameBlocks(b, model, b, model')
    ensures Served(b, m, model, b, m', model', maps, c, pn, i) && Busy(model') && HasRoom(model, c)
  {
    hide OneMore, SameBlocks, SameObjects, SparesRest, ObjAddr, ObjWords, ObjCount, Poisoned;
    BusySet(model, c, j, model[c][j].(free := model[c][j].free[1..]));
  }

  lemma NoRoom(model: Model, c: Class)
    requires |model| == CLASSES && forall k :: 0 <= k < |model[c]| ==> |model[c][k].free| == 0
    ensures !HasRoom(model, c)
  {
  }

  lemma GrewMeans(b: Buddy, m: Mem, model: Model, b1: Buddy, m1: Mem, model1: Model, maps: Addr, c: Class)
    requires |b.lists| == BUDDY_MAX_ORDER + 1 && Grew(b, m, model, b1, m1, model1, maps, c)
    ensures |model| == |model1| == CLASSES && |model1[c]| == |model[c]| + 1 && IsFrame(model1, c, |model[c]|)
    ensures |model1[c][|model[c]|].free| > 0
  {
    hide Alloc, SameObjects, SparesRest, SameBlocks;
  }

  /** The result of taking the first object of a new frame. */
  lemma GrownServed(b: Buddy, m: Mem, model: Model, b1: Buddy, m1: Mem, model1: Model, m2: Mem, model2: Model,
                    maps: Addr, c: Class, pn: nat, i: nat)
    requires |b.lists| == BUDDY_MAX_ORDER + 1 && Grew(b, m, model, b1, m1, model1, maps, c) && Busy(model)
    requires |model1| == CLASSES && |model[c]| < |model1[c]|
    requires var f := model1[c][|model[c]|];
      |f.free| > 0 && model2 == SetFrame(model1, c, |model[c]|, f.(free := f.free[1..]))
    requires OneMore(model1, model2, c, pn, i) && Poisoned(m2, ObjAddr(pn, c, i), ObjWords(c))
    requires SameBlocks(b1, model1, b1, model2) && IsFrame(model1, c, |model[c]|)
    requires SameObjects(model1, m1, m2) && SparesRest(b1, model1, m1, m2, maps)
    ensures Served(b, m, model, b1, m2, model2, maps, c, pn, i) && Busy(model2)
  {
    hide Alloc, SameObjects, SparesRest, IsObj, ObjAddr, ObjWords, ObjCount, Poisoned, IsLive, FrameBlock, SameBlocks;
    SameBlocksTrans(b, model, b1, model1, b1, model2);
    SparesRestGrown(b, model, b1, model1, m, m1, m2, maps);
    var f := model1[c][|model[c]|];
    forall d: Class, q: nat, x: nat
      ensures IsObj(model1, d, q, x) <==> IsObj(model, d, q, x)
    {
      UpToHas(ObjCount(c));
      AddObjects(model, c, SlabFrame(Alloc(b, SLAB_FRAME_ORDER).1.p, UpTo(ObjCount(c))), d, q, x);
    }
    SameObjectsGrown(model, model1, m, m1, m2);
    forall d: Class, k: nat | IsFrame(model2, d, k)
      ensures |model2[d][k].free| < ObjCount(d)
    {
      if d != c || k != |model[c]| {
        assert IsFrame(model, d, k) && model2[d][k] == model[d][k];
      }
    }
  }

  lemma SparesRestGrown(b: Buddy, model: Model, b1: Buddy, model1: Model, m: Mem, m1: Mem, m2: Mem, maps: Addr)
    requires SparesRest(b, model, m, m1, maps) && SparesRest(b1, model1, m1, m2, maps)
    requires SameBlocks(b, model, b1, model1)
    ensures SparesRest(b, model, m, m2, maps)
  {
    hide FreePage, Foreign, HeapPage, IsLive, FrameBlock;
    forall t: nat, i: Index | !FreePage(b, t) && Foreign(maps, t) && !HeapPage(model, t)
      ensures Entry(m2, t, i) == Entry(m, t, i)
    {
      assert Outside(b, model, t);
    }
  }

  lemma SameObjectsGrown(model: Model, model1: Model, m: Mem, m1: Mem, m2: Mem)
    requires SameObjects(model, m, m1) && SameObjects(model1, m1, m2)
    requires forall d: Class, q: nat, x: nat :: IsObj(model1, d, q, x) <==> IsObj(model, d, q, x)
    ensures SameObjects(model, m, m2)
  {
    hide IsObj, ObjAddr, ObjWords;
    assert SameObjects(model, m1, m2);
    SameObjectsTrans(model, m, m1, m2);
  }

  /** What a new object means for the client that gets it, and for the others. */
  lemma ServedMeans(b: Buddy, m: Mem, model: Model, b': Buddy, m': Mem, maps: Addr, recs': Records, model': Model,
                    counts': seq<int>, c: Class, pn: nat, i: nat)
    requires Served(b, m, model, b', m', model', maps, c, pn, i) && Steady(b', m', maps, recs', model', counts')
    ensures var a := ObjAddr(pn, c, i);
      && |m'| == |m| && a + ObjWords(c) <= |m'| && a < DIRECT_WORDS && 8 * ObjWords(c) == ObjSize(c)
      && ObjPtr(pn, c, i) == 0xFFFF_FF80_0000_0000 + 8 * a
      && forall d: Class, q: nat, j: nat :: IsObj(model, d, q, j) ==>
           var e := ObjAddr(q, d, j);
           && (a + ObjWords(c) <= e || e + ObjWords(d) <= a)
           && forall x :: e <= x < e + ObjWords(d) && x < |m| ==> m'[x] == m[x]
  {
    hide IsObj, ObjAddr, HeapIn, InMemory, Valid, IsLive, FreePage, Foreign, HeapPage, Poisoned, ObjPtr, ObjCount,
         SameBlocks, SparesRest, Chains;
    SteadyMeans(b', m', maps, recs', model', counts');
    assert IsObj(model', c, pn, i);
    ObjectsApart(m', b', recs', model', c, pn, i, c, pn, i);
    LiveInDirect(m', b', recs', model', c, pn, i);
    forall d: Class, q: nat, j: nat | IsObj(model, d, q, j)
      ensures var a, e := ObjAddr(pn, c, i), ObjAddr(q, d, j);
        && (a + ObjWords(c) <= e || e + ObjWords(d) <= a)
        && forall x :: e <= x < e + ObjWords(d) && x < |m| ==> m'[x] == m[x]
    {
      assert IsObj(model', d, q, j);
      ObjectsApart(m', b', recs', model', c, pn, i, d, q, j);
      assert SameWords(m, m', ObjAddr(q, d, j), ObjWords(d));
    }
  }

  lemma LiveInDirect(m: Mem, b: Buddy, recs: Records, model: Model, c: Class, pn: nat, i: nat)
    requires HeapIn(m, b, recs, model) && IsObj(model, c, pn, i)
    ensures ObjAddr(pn, c, i) < DIRECT_WORDS && ObjPtr(pn, c, i) == ToPtr(ObjAddr(pn, c, i))
  {
    hide ObjAddr, ObjPtr, ObjCount, ObjWords, FreeObject, FreeIndices, FreePtr, HeaderIn, FramesLive;
    var j: nat :| IsFrame(model, c, j) && model[c][j].pn == pn && i < ObjCount(c) && i !in model[c][j].free;
    assert FrameIn(m, c, recs[c][j], model[c][j]);
    ObjPtrIs(pn, c, i);
  }

  /** kfree of what kmalloc returned leaves the live objects there were before both calls, with
      their contents. */
  lemma MallocThenFree(b: Buddy, m: Mem, model: Model, b1: Buddy, m1: Mem, model1: Model,
                       b2: Buddy, m2: Mem, model2: Model, maps: Addr, c: Class, pn: nat, i: nat)
    requires Served(b, m, model, b1, m1, model1, maps, c, pn, i)
    requires Freed(b1, m1, model1, b2, m2, model2, maps, c, pn, i)
    ensures forall d: Class, q: nat, j: nat :: IsObj(model2, d, q, j) <==> IsObj(model, d, q, j)
    ensures SameObjects(model, m, m2)
    ensures SameBlocks(b, model, b2, model2)
  {
    hide IsObj, ObjAddr, ObjWords, SameWords, SameBlocks, SparesRest, Poisoned, Release;
    forall d: Class, q: nat, j: nat | IsObj(model, d, q, j)
      ensures SameWords(m, m2, ObjAddr(q, d, j), ObjWords(d))
    {
      assert IsObj(model1, d, q, j) && IsObj(model2, d, q, j);
      SameWordsTrans(m, m1, m2, ObjAddr(q, d, j), ObjWords(d));
    }
    SameBlocksTrans(b, model, b1, model1, b2, model2);
  }

  lemma UpToHas(n: nat)
    ensures forall x: nat :: x < n ==> x in UpTo(n)
  {
    forall x: nat | x < n
      ensures x in UpTo(n)
    {
      assert UpTo(n)[x] == x;
    }
  }

  lemma Smallest(size: nat, c: Class)
    requires size <= ObjSize(c) && forall d: Class :: d < c ==> size > ObjSize(d)
    ensures size <= 2048 && ClassFor(size) == c
  {
  }

  lemma Largest(size: nat)
    requires forall d: Class :: d < CLASSES ==> size > ObjSize(d)
    ensures size > 2048
  {
    assert ObjSize(6) == 2048;
  }

  /** Clients writing only inside live objects keep the heap .. */
  lemma StoreSteady(b: Buddy, m: Mem, m': Mem, maps: Addr, recs: Records, model: Model, counts: seq<int>,
                    c: Class, pn: nat, i: nat)
    requires Steady(b, m, maps, recs, model, counts) && IsObj(model, c, pn, i) && |m'| == |m|
    requires forall x :: 0 <= x < |m| && !(ObjAddr(pn, c, i) <= x < ObjAddr(pn, c, i) + ObjWords(c)) ==> m'[x] == m[x]
    ensures Steady(b, m', maps, recs, model, counts) && OnlyBlock(m, m', pn) && SparesRest(b, model, m, m', maps)
    ensures IsLive(b, pn, SLAB_FRAME_ORDER)
  {
    hide InMemory, FrameIn, Valid, IsLive, ObjCount, ObjAddr, ObjWords, OnlyBlock, SparesRest, SameObjects, OthersOnly;
    SteadyMeans(b, m, maps, recs, model, counts);
    var j: nat :| IsFrame(model, c, j) && model[c][j].pn == pn && i < ObjCount(c) && i !in model[c][j].free;
    ObjectWrite(m, m', b, recs, model, maps, c, j, i);
    BlockWrite(b, m, m', maps, pn);
    LiveWrite(m, m', c, recs[c][j], model[c][j], i);
    SetHeap(m, m', b, recs, model, c, j, recs[c][j], model[c][j]);
    SetSame(recs, model, c, j);
  }

  /** .. and the allocator below it. */
  lemma StoreKeeps(b: Buddy, m: Mem, m': Mem, maps: Addr, recs: Records, model: Model, counts: seq<int>,
                   pages: seq<Page>, freeCounts: seq<int>, freePages: int, c: Class, pn: nat, i: nat)
    requires Steady(b, m, maps, recs, model, counts) && Sound(b, m, maps, pages, freeCounts, freePages)
    requires IsObj(model, c, pn, i) && |m'| == |m|
    requires forall x :: 0 <= x < |m| && !(ObjAddr(pn, c, i) <= x < ObjAddr(pn, c, i) + ObjWords(c)) ==> m'[x] == m[x]
    ensures Steady(b, m', maps, recs, model, counts) && Sound(b, m', maps, pages, freeCounts, freePages)
  {
    hide InMemory, IsLive, IsObj, ObjAddr, ObjWords, OnlyBlock, SparesRest, Sound, HeapIn;
    StoreSteady(b, m, m', maps, recs, model, counts, c, pn, i);
    SoundWrite(b, m, m', maps, pages, freeCounts, freePages, pn);
  }

  lemma PoisonMeans(m: Mem, a: nat, n: nat)
    requires Poisoned(m, a, n)
    ensures 0 < n && a + n <= |m| && forall x :: a < x < a + n ==> m[x] == POISON
  {
  }

  /** Frame j's block is inside the managed pages. */
  lemma FramePages(b: Buddy, m: Mem, maps: Addr, recs: Records, model: Model, counts: seq<int>, c: Class, j: nat)
    requires Steady(b, m, maps, recs, model, counts) && IsFrame(model, c, j)
    ensures |model| == CLASSES && j < |model[c]| && model[c][j].pn < b.n && 512 * model[c][j].pn < DIRECT_WORDS
  {
    hide InMemory, FrameIn, ObjCount;
    SteadyMeans(b, m, maps, recs, model, counts);
    LiveInBounds(b, m, maps, model[c][j].pn);
    LiveBlock(b, m, maps, model[c][j].pn);
  }

  lemma PtrOfPage(pn: nat)
    requires 512 * pn < DIRECT_WORDS
    ensures ToPtr(512 * pn) == VASL_VIRTUAL_BASE + 4096 * pn && ToPtr(512 * pn) % 4096 == 0
    ensures (ToPtr(512 * pn) - VASL_VIRTUAL_BASE) / 4096 == pn
  {
  }

  lemma StillPoisoned(m: Mem, m': Mem, a: nat, n: nat)
    requires Poisoned(m, a, n) && |m'| == |m| && forall x :: a < x < a + n && x < |m| ==> m'[x] == m[x]
    ensures Poisoned(m', a, n)
  {
  }

  lemma ChainStart(m: Mem, pn: nat, c: Class)
    ensures Chained(m, pn, c, 0)
  {
  }

  lemma ChainMeans(m: Mem, pn: nat, c: Class)
    requires Chained(m, pn, c, ObjCount(c))
    ensures forall i :: 0 <= i < ObjCount(c) ==>
      && Poisoned(m, ObjAddr(pn, c, i), ObjWords(c))
      && m[ObjAddr(pn, c, i)] == (if i + 1 < ObjCount(c) then ObjPtr(pn, c, i + 1) else 0)
  {
    hide ObjAddr, ObjPtr, ObjWords, ObjCount;
  }

  /** The header of a frame under construction but for its free list. */
  lemma HeaderStarts(m: Mem, pn: nat, c: Class, freeList: Word)
    requires pn % FRAME_PAGES == 0 && 512 * pn + FRAME_WORDS < DIRECT_WORDS && 512 * pn + FRAME_WORDS <= |m|
    requires HeaderIn(m, NewRec(pn, c).(freeList := freeList))
    ensures m[512 * pn + 1] == ObjPtr(pn, c, 0) && m[512 * pn + 3] == ObjCount(c) > 1
    ensures freeList == ObjPtr(pn, c, 0) ==> HeaderIn(m, NewRec(pn, c))
  {
    hide ObjPtr, ObjCount, ObjSize, ObjAddr;
    LastObj(pn, c);
  }

  /** The first object linked, the header is complete, and the others leave it alone. */
  lemma HeaderLinked(m: Mem, m': Mem, pn: nat, c: Class, i: nat)
    requires pn % FRAME_PAGES == 0 && 512 * pn + FRAME_WORDS < DIRECT_WORDS && 512 * pn + FRAME_WORDS <= |m| == |m'|
    requires HeaderIn(m, NewRec(pn, c).(freeList := if i == 0 then 0 else ObjPtr(pn, c, 0)))
    requires forall x :: 512 * pn <= x < 512 * pn + HEADER_WORDS && x != 512 * pn + 4 ==> m'[x] == m[x]
    requires m'[512 * pn + 4] == if i == 0 then ObjPtr(pn, c, 0) else m[512 * pn + 4]
    ensures HeaderIn(m', NewRec(pn, c))
  {
    hide ObjPtr, ObjCount, ObjSize, ObjAddr;
  }

  lemma InBlock(m: Mem, m1: Mem, m2: Mem, pn: nat)
    requires OnlyBlock(m, m1, pn) && OnlyHeader(m1, m2, pn)
    ensures OnlyBlock(m, m2, pn)
  {
  }

  lemma ZeroedBlock(m: Mem, pn: nat)
    requires 512 * pn + FRAME_WORDS <= |m|
    ensures OnlyBlock(m, ZeroRun(m, pn, SLAB_FRAME_ORDER), pn)
    ensures ZeroRun(m, pn, SLAB_FRAME_ORDER)[512 * pn] == ZeroRun(m, pn, SLAB_FRAME_ORDER)[512 * pn + 4] == 0
  {
    assert Size(SLAB_FRAME_ORDER) == 8;
    forall a | 0 <= a < |m| && !(512 * pn <= a < 512 * pn + FRAME_WORDS)
      ensures ZeroRun(m, pn, SLAB_FRAME_ORDER)[a] == m[a]
    {
      assert Entry(ZeroRun(m, pn, SLAB_FRAME_ORDER), a / 512, a % 512) == Entry(m, a / 512, a % 512);
    }
  }
}
