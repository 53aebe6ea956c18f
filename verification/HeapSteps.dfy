/** What the steps of kmalloc and kfree do to the heap: a frame built, an object taken or
    given back, a frame returned. */
module HeapSteps {
  import opened PageTables
  import opened Lists
  import opened BuddyModel
  import opened BuddyLaws
  import opened BuddyMemory
  import opened Palloc
  import opened SlabModel
  import opened HeapModel

  /** Block q of order k carries a frame. */
  ghost predicate FrameBlock(model: Model, q: nat, k: Order) {
    k == SLAB_FRAME_ORDER && exists c: Class, j: nat :: IsFrame(model, c, j) && model[c][j].pn == q
  }

  /** Page t is neither free nor part of the heap. */
  ghost predicate Outside(b: Buddy, model: Model, t: nat) {
    !FreePage(b, t) && !HeapPage(model, t)
  }

  /** The live blocks that carry no frame are the same in both states, and what was
      neither free nor the heap's still is neither. */
  ghost predicate SameBlocks(b: Buddy, model: Model, b': Buddy, model': Model) {
    && (forall q: nat, k: Order ::
          IsLive(b, q, k) && !FrameBlock(model, q, k) <==> IsLive(b', q, k) && !FrameBlock(model', q, k))
    && (forall t: nat :: Outside(b, model, t) ==> Outside(b', model', t))
  }

  lemma SameBlocksTrans(b: Buddy, model: Model, b1: Buddy, model1: Model, b2: Buddy, model2: Model)
    requires SameBlocks(b, model, b1, model1) && SameBlocks(b1, model1, b2, model2)
    ensures SameBlocks(b, model, b2, model2)
  {
    hide IsLive, FrameBlock, Outside;
  }

  /** model' has the objects of model and one more. */
  ghost predicate OneMore(model: Model, model': Model, c: Class, pn: nat, i: nat) {
    && !IsObj(model, c, pn, i)
    && forall d: Class, q: nat, j: nat :: IsObj(model', d, q, j) <==>
      IsObj(model, d, q, j) || (d == c && q == pn && j == i)
  }

  // ------------------------------------------ other clients of the buddy allocator

  /** A palloc by any client, of any order and with any outcome, leaves the heap as it was. */
  lemma PallocBeside(b: Buddy, m: Mem, maps: Addr, recs: Records, model: Model, order: int, zero: bool)
    requires InMemory(b, m, maps) && b.n < 0x800_0000 && HeapIn(m, b, recs, model) && |b.lists| == BUDDY_MAX_ORDER + 1
    ensures var b1, m1 := Alloc(b, order).0, PallocMem(b, m, maps, order, zero);
      && InMemory(b1, m1, maps) && b1.n == b.n && HeapIn(m1, b1, recs, model) && SameObjects(model, m, m1)
  {
    hide Alloc, PallocMem, Valid, Layout, ListsIn, SparesOthers, SameObjects, FrameIn, FreePage, IsLive, LivePage;
    PallocKeeps(b, order);
    PallocMemory(b, m, maps, order, zero);
    SparedHeap(b, m, PallocMem(b, m, maps, order, zero), maps, recs, model);
    SameFramesLive(b, Alloc(b, order).0, model);
  }

  /** So does a pfree by any client of anything but the block of a frame. */
  lemma PfreeBeside(b: Buddy, m: Mem, m': Mem, maps: Addr, recs: Records, model: Model, p: nat)
    requires InMemory(b, m, maps) && b.n < 0x800_0000 && HeapIn(m, b, recs, model) && |b.lists| == BUDDY_MAX_ORDER + 1
    requires forall c: Class, j: nat :: IsFrame(model, c, j) ==> model[c][j].pn != p
    requires var b' := Release(b, p); InMemory(b', m', maps) && SparesOthers(b', m, m', maps)
    ensures HeapIn(m', Release(b, p), recs, model) && SameObjects(model, m, m')
  {
    hide Release, Valid, Layout, ListsIn, SparesOthers, SameObjects, FrameIn, FreePage, IsLive;
    var b' := Release(b, p);
    PfreeKeeps(b, p);
    forall c: Class, j: nat | IsFrame(model, c, j)
      ensures IsLive(b', model[c][j].pn, SLAB_FRAME_ORDER)
    {
      if k: Order :| IsLive(b, p, k) {
        assert IsLive(b', model[c][j].pn, SLAB_FRAME_ORDER) <==>
          IsLive(b, model[c][j].pn, SLAB_FRAME_ORDER) && model[c][j].pn != p;
      }
    }
    SameFramesLive(b, b', model);
    SparedHeap(b', m, m', maps, recs, model);
  }

  // -------------------------------------------------------------- a new frame

  /** palloc of a frame's block leaves the heap as it was. */
  lemma NewBlock(b: Buddy, m: Mem, maps: Addr, recs: Records, model: Model, pn: nat)
    requires InMemory(b, m, maps) && b.n < 0x800_0000 && HeapIn(m, b, recs, model)
    requires |b.lists| == BUDDY_MAX_ORDER + 1 && Alloc(b, SLAB_FRAME_ORDER).1 == Got(pn)
    ensures var b1, m1 := Alloc(b, SLAB_FRAME_ORDER).0, PallocMem(b, m, maps, SLAB_FRAME_ORDER, false);
      && InMemory(b1, m1, maps) && b1.n == b.n && HeapIn(m1, b1, recs, model) && SameObjects(model, m, m1)
      && IsLive(b1, pn, SLAB_FRAME_ORDER) && SparesOthers(b, m, m1, maps)
      && (forall q: nat, k: Order :: IsLive(b1, q, k) <==> IsLive(b, q, k) || (q == pn && k == SLAB_FRAME_ORDER))
    ensures forall t: nat :: Within(t, pn, SLAB_FRAME_ORDER) ==> FreePage(b, t)
    ensures forall t: nat :: FreePage(Alloc(b, SLAB_FRAME_ORDER).0, t) ==> FreePage(b, t)
    ensures forall d: Class, k: nat :: IsFrame(model, d, k) ==> model[d][k].pn != pn
  {
    hide Alloc, PallocMem, Valid, Layout, ListsIn, SparesOthers, SameObjects, FrameIn, FreePage, IsLive, LivePage;
    PallocKeeps(b, SLAB_FRAME_ORDER);
    PallocMemory(b, m, maps, SLAB_FRAME_ORDER, false);
    PallocBeside(b, m, maps, recs, model, SLAB_FRAME_ORDER, false);
    FreeNotLive(b, pn);
    assert Within(pn, pn, SLAB_FRAME_ORDER);
    forall d: Class, k: nat | IsFrame(model, d, k)
      ensures model[d][k].pn != pn
    {
      HeadIsLive(b, model[d][k].pn, SLAB_FRAME_ORDER);
    }
  }

  lemma HeadIsLive(b: Buddy, p: nat, k: Order)
    requires IsLive(b, p, k)
    ensures LivePage(b, p)
  {
    assert Within(p, p, k);
  }

  /** Writing a block that carries no frame leaves every object alone. */
  lemma OutsideObjects(m: Mem, m': Mem, b: Buddy, recs: Records, model: Model, pn: nat)
    requires HeapIn(m, b, recs, model) && Valid(b) && IsLive(b, pn, SLAB_FRAME_ORDER) && OnlyBlock(m, m', pn)
    requires forall d: Class, k: nat :: IsFrame(model, d, k) ==> model[d][k].pn != pn
    ensures SameObjects(model, m, m')
  {
    hide FrameIn, Valid, IsLive, ObjAddr, ObjCount, ObjWords;
    forall d: Class, qn: nat, i: nat | IsObj(model, d, qn, i)
      ensures SameWords(m, m', ObjAddr(qn, d, i), ObjWords(d))
    {
      TwoLiveBlocks(b, qn, pn);
      ObjInFrame(qn, d, i);
    }
  }

  lemma SameObjectsTrans(model: Model, m0: Mem, m1: Mem, m2: Mem)
    requires SameObjects(model, m0, m1) && SameObjects(model, m1, m2)
    ensures SameObjects(model, m0, m2)
  {
    hide IsObj, ObjAddr, ObjWords;
    forall c: Class, pn: nat, i: nat | IsObj(model, c, pn, i)
      ensures SameWords(m0, m2, ObjAddr(pn, c, i), ObjWords(c))
    {
      assert SameWords(m0, m1, ObjAddr(pn, c, i), ObjWords(c)) && SameWords(m1, m2, ObjAddr(pn, c, i), ObjWords(c));
    }
  }

  /** palloc wrote free pages and list heads, and the frame was built in pages that were free. */
  lemma NewSparesRest(b: Buddy, model: Model, m: Mem, m1: Mem, m2: Mem, maps: Addr, pn: nat)
    requires SparesOthers(b, m, m1, maps) && OnlyBlock(m1, m2, pn)
    requires forall t: nat :: Within(t, pn, SLAB_FRAME_ORDER) ==> FreePage(b, t)
    ensures SparesRest(b, model, m, m2, maps)
  {
    hide FreePage, Foreign, HeapPage;
    forall t: nat, i: Index | !FreePage(b, t) && Foreign(maps, t) && !HeapPage(model, t)
      ensures Entry(m2, t, i) == Entry(m, t, i)
    {
      assert !Within(t, pn, SLAB_FRAME_ORDER);
      assert Entry(m1, t, i) == Entry(m, t, i);
    }
  }

  lemma NewBlocks(b: Buddy, b1: Buddy, model: Model, c: Class, f: SlabFrame)
    requires |model| == CLASSES && (forall k: Order :: !IsLive(b, f.pn, k))
    requires forall q: nat, k: Order :: IsLive(b1, q, k) <==> IsLive(b, q, k) || (q == f.pn && k == SLAB_FRAME_ORDER)
    requires forall t: nat :: FreePage(b1, t) || Within(t, f.pn, SLAB_FRAME_ORDER) ==> FreePage(b, t)
    ensures SameBlocks(b, model, b1, AddFrame(model, c, f))
  {
    hide IsLive, FreePage;
    AddPages(model, c, f);
    var model' := AddFrame(model, c, f);
    assert IsFrame(model', c, |model[c]|) && model'[c][|model[c]|] == f;
    forall q: nat, k: Order
      ensures FrameBlock(model', q, k) <==> FrameBlock(model, q, k) || (q == f.pn && k == SLAB_FRAME_ORDER)
    {
      if FrameBlock(model, q, k) {
        var d: Class, j: nat :| IsFrame(model, d, j) && model[d][j].pn == q;
        assert IsFrame(model', d, j) && model'[d][j] == model[d][j];
      }
      if FrameBlock(model', q, k) {
        var d: Class, j: nat :| IsFrame(model', d, j) && model'[d][j].pn == q;
        assert d != c || j != |model[c]| ==> IsFrame(model, d, j) && model'[d][j] == model[d][j];
      }
    }
  }

  lemma AddPages(model: Model, c: Class, f: SlabFrame)
    requires |model| == CLASSES
    ensures forall t: nat :: HeapPage(AddFrame(model, c, f), t) ==>
      HeapPage(model, t) || Within(t, f.pn, SLAB_FRAME_ORDER)
  {
    hide Within;
    var model' := AddFrame(model, c, f);
    forall t: nat | HeapPage(model', t) && !Within(t, f.pn, SLAB_FRAME_ORDER)
      ensures HeapPage(model, t)
    {
      var d: Class, k: nat :| IsFrame(model', d, k) && Within(t, model'[d][k].pn, SLAB_FRAME_ORDER);
      assert IsFrame(model, d, k) && model'[d][k] == model[d][k];
    }
  }

  /** A frame's block was free, so no block was live at its head. */
  lemma FreeHeadNotLive(b: Buddy, pn: nat)
    requires Valid(b) && FreePage(b, pn)
    ensures forall k: Order :: !IsLive(b, pn, k)
  {
    FreeNotLive(b, pn);
    forall k: Order
      ensures !IsLive(b, pn, k)
    {
      assert Within(pn, pn, k);
    }
  }

  /** The first i objects of the block are poisoned and linked in order. */
  ghost predicate Chained(m: Mem, pn: nat, c: Class, i: nat) {
    forall k: nat :: k < i ==>
      && Poisoned(m, ObjAddr(pn, c, k), ObjWords(c))
      && m[ObjAddr(pn, c, k)] == if k + 1 < i then ObjPtr(pn, c, k + 1) else 0
  }

  lemma ChainStep(m: Mem, m': Mem, pn: nat, c: Class, i: nat)
    requires Chained(m, pn, c, i) && |m'| == |m|
    requires Poisoned(m', ObjAddr(pn, c, i), ObjWords(c)) && m'[ObjAddr(pn, c, i)] == 0
    requires i < ObjCount(c)
    requires i > 0 ==> ObjAddr(pn, c, i - 1) < |m| && m'[ObjAddr(pn, c, i - 1)] == ObjPtr(pn, c, i)
    requires forall x ::
      512 * pn + HEADER_WORDS <= x < |m| && !(ObjAddr(pn, c, i) <= x < ObjAddr(pn, c, i) + ObjWords(c))
        && !(i > 0 && x == ObjAddr(pn, c, i - 1))
      ==> m'[x] == m[x]
    ensures Chained(m', pn, c, i + 1)
  {
    hide ObjAddr, ObjPtr, ObjWords, ObjCount;
    forall k: nat | k < i
      ensures Poisoned(m', ObjAddr(pn, c, k), ObjWords(c)) && m'[ObjAddr(pn, c, k)] == ObjPtr(pn, c, k + 1)
    {
      ObjInFrame(pn, c, k);
      ObjsApart(pn, c, k, i);
      if k + 1 < i {
        ObjsApart(pn, c, k, i - 1);
      }
    }
  }

  lemma ObjAt(pn: nat, c: Class, i: nat)
    requires i < ObjCount(c) && 512 * pn + FRAME_WORDS < DIRECT_WORDS
    ensures ObjPtr(pn, c, 0) + i * ObjSize(c) == ObjPtr(pn, c, i) == ToPtr(ObjAddr(pn, c, i))
    ensures ObjAddr(pn, c, i) < DIRECT_WORDS
  {
    ObjPtrIs(pn, c, i);
    ObjPtrIs(pn, c, 0);
    assert i * ObjSize(c) == 8 * Times(i, c);
  }

  // ---------------------------------------------------------- client and frame writes

  /** Writes inside a live block keep the allocator's state. */
  lemma SoundWrite(b: Buddy, m: Mem, m': Mem, maps: Addr, pages: seq<Page>, counts: seq<int>, freePages: int, pn: nat)
    requires Sound(b, m, maps, pages, counts, freePages) && b.n < 0x800_0000
    requires IsLive(b, pn, SLAB_FRAME_ORDER) && OnlyBlock(m, m', pn)
    ensures Sound(b, m', maps, pages, counts, freePages)
  {
    hide Describes, BlocksUsable, Valid, ListsIn, Layout, FreePage, IsLive, Foreign, FreeTotal;
    BlockWrite(b, m, m', maps, pn);
  }

  lemma BlockWrite(b: Buddy, m: Mem, m': Mem, maps: Addr, pn: nat)
    requires InMemory(b, m, maps) && b.n < 0x800_0000 && IsLive(b, pn, SLAB_FRAME_ORDER) && OnlyBlock(m, m', pn)
    ensures InMemory(b, m', maps)
  {
    hide Valid, ListsIn, Layout, FreePage, IsLive, Foreign;
    LiveBlock(b, m, maps, pn);
    var live := set t: nat | t < pn + FRAME_PAGES && Within(t, pn, SLAB_FRAME_ORDER);
    ClientsSpareLists(b, m, m', maps, live);
  }

  /** A frame after its free list changed: object i gone from it or back in it. */
  lemma SetMore(b: Buddy, model: Model, c: Class, j: nat, f: SlabFrame, i: nat)
    requires FramesLive(b, model) && IsFrame(model, c, j) && f.pn == model[c][j].pn && i < ObjCount(c)
    requires forall x: nat :: x in model[c][j].free <==> x in f.free || x == i
    requires i !in f.free
    ensures OneMore(model, SetFrame(model, c, j, f), c, f.pn, i)
  {
    hide ObjCount, IsLive, IsObj;
    forall d: Class, q: nat, x: nat
      ensures IsObj(SetFrame(model, c, j, f), d, q, x) <==> IsObj(model, d, q, x) || (d == c && q == f.pn && x == i)
    {
      SetObjects(b, model, c, j, f, d, q, x);
      FrameObjs(b, model, c, j, x);
    }
    FrameObjs(b, model, c, j, i);
  }

  lemma SetFewer(b: Buddy, model: Model, c: Class, j: nat, f: SlabFrame, i: nat)
    requires FramesLive(b, model) && IsFrame(model, c, j) && f.pn == model[c][j].pn && i < ObjCount(c)
    requires forall x: nat :: x in f.free <==> x in model[c][j].free || x == i
    requires i !in model[c][j].free
    ensures OneMore(SetFrame(model, c, j, f), model, c, f.pn, i)
  {
    hide ObjCount, IsLive, IsObj;
    forall d: Class, q: nat, x: nat
      ensures IsObj(model, d, q, x) <==> IsObj(SetFrame(model, c, j, f), d, q, x) || (d == c && q == f.pn && x == i)
    {
      SetObjects(b, model, c, j, f, d, q, x);
      FrameObjs(b, model, c, j, x);
    }
    SetObjects(b, model, c, j, f, c, f.pn, i);
  }

  /** The live objects of one frame. */
  lemma FrameObjs(b: Buddy, model: Model, c: Class, j: nat, i: nat)
    requires FramesLive(b, model) && IsFrame(model, c, j)
    ensures IsObj(model, c, model[c][j].pn, i) <==> i < ObjCount(c) && i !in model[c][j].free
  {
    hide ObjCount, IsLive;
    if IsObj(model, c, model[c][j].pn, i) {
      var k: nat :| IsFrame(model, c, k) && model[c][k].pn == model[c][j].pn && i < ObjCount(c)
        && i !in model[c][k].free;
      assert k == j;
    }
  }

  /** Frames keep their blocks when a free list changes. */
  lemma SetBlocks(b: Buddy, model: Model, c: Class, j: nat, f: SlabFrame)
    requires IsFrame(model, c, j) && f.pn == model[c][j].pn
    ensures SameBlocks(b, model, b, SetFrame(model, c, j, f))
  {
    hide IsLive, FreePage, Within;
    SameHeapPages(model, c, j, f);
    var model' := SetFrame(model, c, j, f);
    forall q: nat, k: Order
      ensures FrameBlock(model', q, k) <==> FrameBlock(model, q, k)
    {
      if FrameBlock(model, q, k) {
        var d: Class, i: nat :| IsFrame(model, d, i) && model[d][i].pn == q;
        assert IsFrame(model', d, i) && model'[d][i].pn == model[d][i].pn;
      }
      if FrameBlock(model', q, k) {
        var d: Class, i: nat :| IsFrame(model', d, i) && model'[d][i].pn == q;
        assert IsFrame(model, d, i) && model'[d][i].pn == model[d][i].pn;
      }
    }
  }

  lemma SameHeapPages(model: Model, c: Class, j: nat, g: SlabFrame)
    requires IsFrame(model, c, j) && g.pn == model[c][j].pn
    ensures forall t: nat :: HeapPage(SetFrame(model, c, j, g), t) ==> HeapPage(model, t)
  {
    var model1 := SetFrame(model, c, j, g);
    forall t: nat | HeapPage(model1, t)
      ensures HeapPage(model, t)
    {
      var d: Class, k: nat :| IsFrame(model1, d, k) && Within(t, model1[d][k].pn, SLAB_FRAME_ORDER);
      assert IsFrame(model, d, k) && Within(t, model[d][k].pn, SLAB_FRAME_ORDER);
    }
  }

  /** Every object of model' is one of model, and not object i of the frame at pn. */
  ghost predicate OthersOnly(model: Model, model': Model, c: Class, pn: nat, i: nat) {
    !IsObj(model', c, pn, i) && forall d: Class, q: nat, x: nat :: IsObj(model', d, q, x) ==> IsObj(model, d, q, x)
  }

  /** Writing one object of a frame spares every page outside the heap, and every other
      live object. */
  lemma ObjectWrite(m: Mem, m': Mem, b: Buddy, recs: Records, model: Model, maps: Addr, c: Class, j: nat, i: nat)
    requires HeapIn(m, b, recs, model) && Valid(b) && IsFrame(model, c, j) && i < ObjCount(c) && |m'| == |m|
    requires var a := ObjAddr(model[c][j].pn, c, i);
      forall x :: 0 <= x < |m| && !(a <= x < a + ObjWords(c)) ==> m'[x] == m[x]
    ensures OnlyBlock(m, m', model[c][j].pn) && SparesRest(b, model, m, m', maps)
    ensures forall model': Model :: OthersOnly(model, model', c, model[c][j].pn, i) ==> SameObjects(model', m, m')
  {
    hide FrameIn, Valid, IsLive, ObjCount, ObjAddr, ObjWords, FreePage, Foreign, IsObj, FramesLive, FramesIn;
    var pn := model[c][j].pn;
    ObjInFrame(pn, c, i);
    forall t: nat, x: Index | !HeapPage(model, t)
      ensures Entry(m', t, x) == Entry(m, t, x)
    {
      assert !Within(t, model[c][j].pn, SLAB_FRAME_ORDER);
    }
    forall d: Class, q: nat, x: nat | IsObj(model, d, q, x) && (d, q, x) != (c, pn, i)
      ensures SameWords(m, m', ObjAddr(q, d, x), ObjWords(d))
    {
      ObjApartFrom(m, b, recs, model, c, j, i, d, q, x);
    }
  }

  /** Writing the header of a frame spares every page outside the heap, and every live object. */
  lemma HeaderSpares(m: Mem, m': Mem, b: Buddy, recs: Records, model: Model, maps: Addr, c: Class, j: nat, b0: Buddy)
    requires HeapIn(m, b, recs, model) && Valid(b) && IsFrame(model, c, j) && OnlyHeader(m, m', model[c][j].pn)
    ensures OnlyBlock(m, m', model[c][j].pn) && SparesRest(b0, model, m, m', maps) && SameObjects(model, m, m')
  {
    hide FrameIn, Valid, IsLive, ObjCount, ObjAddr, ObjWords, FreePage, Foreign, FramesIn;
    var pn := model[c][j].pn;
    forall t: nat, x: Index | !HeapPage(model, t)
      ensures Entry(m', t, x) == Entry(m, t, x)
    {
      assert !Within(t, model[c][j].pn, SLAB_FRAME_ORDER);
    }
    forall d: Class, q: nat, x: nat | IsObj(model, d, q, x)
      ensures SameWords(m, m', ObjAddr(q, d, x), ObjWords(d))
    {
      ObjInFrame(q, d, x);
      if q != pn {
        TwoLiveBlocks(b, pn, q);
      }
    }
  }

  lemma SparesRestTrans(b: Buddy, model: Model, m0: Mem, m1: Mem, m2: Mem, maps: Addr)
    requires SparesRest(b, model, m0, m1, maps) && SparesRest(b, model, m1, m2, maps)
    ensures SparesRest(b, model, m0, m2, maps)
  {
    hide FreePage, Foreign, HeapPage;
  }

  /** Any object of a frame, free or not, is apart from every other live object. */
  lemma ObjApartFrom(m: Mem, b: Buddy, recs: Records, model: Model, c: Class, j: nat, i: nat, d: Class, q: nat, x: nat)
    requires HeapIn(m, b, recs, model) && Valid(b) && IsFrame(model, c, j) && i < ObjCount(c) && IsObj(model, d, q, x)
    requires (d, q, x) != (c, model[c][j].pn, i)
    ensures var a, e := ObjAddr(model[c][j].pn, c, i), ObjAddr(q, d, x); a + ObjWords(c) <= e || e + ObjWords(d) <= a
  {
    hide FrameIn, Valid, IsLive, ObjCount, ObjAddr, ObjWords;
    var pn := model[c][j].pn;
    var k: nat :| IsFrame(model, d, k) && model[d][k].pn == q;
    ObjInFrame(pn, c, i);
    ObjInFrame(q, d, x);
    if q != pn {
      TwoLiveBlocks(b, pn, q);
    } else {
      assert d == c && k == j;
      ObjsApart(pn, c, i, x);
    }
  }

  // ------------------------------------------------------------ returning a frame

  /** vpfree of a frame whose record is gone: the other frames stay. */
  lemma ReleasedHeap(b: Buddy, m: Mem, m': Mem, maps: Addr, recs: Records, model: Model, c: Class, j: nat)
    requires InMemory(b, m, maps) && b.n < 0x800_0000 && HeapIn(m, b, recs, model) && IsFrame(model, c, j)
    requires |b.lists| == BUDDY_MAX_ORDER + 1
    requires var b' := Release(b, model[c][j].pn); InMemory(b', m', maps) && SparesOthers(b', m, m', maps)
    ensures HeapIn(m', Release(b, model[c][j].pn), DropRec(recs, c, j), DropFrame(model, c, j))
    ensures SameObjects(DropFrame(model, c, j), m, m') && SparesRest(b, model, m, m', maps)
    ensures SameBlocks(b, model, Release(b, model[c][j].pn), DropFrame(model, c, j))
  {
    hide Release, Valid, Layout, ListsIn, SparesOthers, SameObjects, FrameIn, FreePage, IsLive, SparesRest, Foreign,
         SameBlocks;
    var pn, b' := model[c][j].pn, Release(b, model[c][j].pn);
    var recs', model' := DropRec(recs, c, j), DropFrame(model, c, j);
    PfreeKeeps(b, pn);
    assert IsLive(b, pn, SLAB_FRAME_ORDER);
    DropHeap(m, b, recs, model, c, j);
    SameFramesLive(b, b', model');
    SparedHeap(b', m, m', maps, recs', model');
    DropSpares(b, b', model, m, m', maps, c, j);
    DropBlocks(b, b', model, c, j);
  }

  lemma DropSpares(b: Buddy, b': Buddy, model: Model, m: Mem, m': Mem, maps: Addr, c: Class, j: nat)
    requires IsFrame(model, c, j) && SparesOthers(b', m, m', maps)
    requires forall i: nat :: FreePage(b', i) <==> FreePage(b, i) || Within(i, model[c][j].pn, SLAB_FRAME_ORDER)
    ensures SparesRest(b, model, m, m', maps)
  {
    hide FreePage, Foreign, Within;
  }

  lemma DropBlocks(b: Buddy, b': Buddy, model: Model, c: Class, j: nat)
    requires FramesLive(b, model) && IsFrame(model, c, j)
    requires forall q: nat, k: Order :: IsLive(b', q, k) <==> IsLive(b, q, k) && q != model[c][j].pn
    requires forall i: nat :: FreePage(b', i) <==> FreePage(b, i) || Within(i, model[c][j].pn, SLAB_FRAME_ORDER)
    ensures SameBlocks(b, model, b', DropFrame(model, c, j))
  {
    hide FreePage;
    DropPages(model, c, j);
    var model', pn := DropFrame(model, c, j), model[c][j].pn;
    assert IsLive(b, pn, SLAB_FRAME_ORDER) && FrameBlock(model, pn, SLAB_FRAME_ORDER);
    assert forall k: Order :: IsLive(b, pn, k) ==> k == SLAB_FRAME_ORDER;
    hide IsLive;
    forall q: nat, k: Order
      ensures FrameBlock(model', q, k) <==> FrameBlock(model, q, k) && q != pn
    {
      if FrameBlock(model, q, k) && q != pn {
        var d: Class, i: nat :| IsFrame(model, d, i) && model[d][i].pn == q;
        var i' := if d == c && i > j then i - 1 else i;
        assert IsFrame(model', d, i') && model'[d][i'] == model[d][i];
      }
      if FrameBlock(model', q, k) {
        var d: Class, i: nat :| IsFrame(model', d, i) && model'[d][i].pn == q;
        assert IsFrame(model, d, Moved(c, j, d, i)) && model'[d][i] == model[d][Moved(c, j, d, i)];
      }
    }
  }

  lemma DropPages(model: Model, c: Class, j: nat)
    requires IsFrame(model, c, j)
    ensures forall t: nat :: HeapPage(DropFrame(model, c, j), t) || Within(t, model[c][j].pn, SLAB_FRAME_ORDER) ==>
      HeapPage(model, t)
  {
    hide Within;
    var model' := DropFrame(model, c, j);
    forall t: nat | HeapPage(model', t)
      ensures HeapPage(model, t)
    {
      var d: Class, i: nat :| IsFrame(model', d, i) && Within(t, model'[d][i].pn, SLAB_FRAME_ORDER);
      assert IsFrame(model, d, Moved(c, j, d, i)) && model'[d][i] == model[d][Moved(c, j, d, i)];
    }
  }

  // ----------------------------------------------------------------- counting

  /** The live objects of the frame at pn. */
  ghost function LiveIn(model: Model, c: Class, pn: nat): set<nat> {
    set i: nat | i < ObjCount(c) && IsObj(model, c, pn, i)
  }

  /** The free count of a frame is its object count less its live objects. */
  lemma FreeCountIsRest(m: Mem, b: Buddy, recs: Records, model: Model, c: Class, j: nat)
    requires HeapIn(m, b, recs, model) && IsFrame(model, c, j)
    ensures recs[c][j].freeCount == recs[c][j].objCount - |LiveIn(model, c, model[c][j].pn)|
  {
    var f := model[c][j];
    assert FrameIn(m, c, recs[c][j], f);
    CountLive(f.free, ObjCount(c));
    forall i: nat
      ensures IsObj(model, c, f.pn, i) <==> i < ObjCount(c) && i !in f.free
    {
      FrameObjs(b, model, c, j, i);
    }
    assert LiveIn(model, c, f.pn) == Missing(f.free, ObjCount(c));
  }

  /** The last live object of a frame is its only one. */
  lemma LastObject(m: Mem, b: Buddy, recs: Records, model: Model, c: Class, j: nat, i: nat)
    requires HeapIn(m, b, recs, model) && IsFrame(model, c, j) && IsObj(model, c, model[c][j].pn, i)
    requires |model[c][j].free| + 1 == ObjCount(c)
    ensures OneMore(DropFrame(model, c, j), model, c, model[c][j].pn, i)
  {
    hide IsLive, ObjCount, IsObj, FrameIn, FramesLive;
    var f := model[c][j];
    FrameObjs(b, model, c, j, i);
    OnlyMissing(m, c, recs[c][j], f, i);
    DropObjects(b, model, c, j, c, f.pn, i);
    forall d: Class, q: nat, x: nat
      ensures IsObj(model, d, q, x) <==> IsObj(DropFrame(model, c, j), d, q, x) || (d == c && q == f.pn && x == i)
    {
      DropObjects(b, model, c, j, d, q, x);
      FrameObjs(b, model, c, j, x);
      if q == f.pn && IsObj(model, d, q, x) {
        SameFrameClass(b, model, c, j, d, x);
      }
    }
  }

  /** A frame with one live object has no other. */
  lemma OnlyMissing(m: Mem, c: Class, r: FrameRec, f: SlabFrame, i: nat)
    requires FrameIn(m, c, r, f) && |f.free| + 1 == ObjCount(c) && i < ObjCount(c) && i !in f.free
    ensures forall x: nat :: x < ObjCount(c) && x !in f.free ==> x == i
  {
    CountLive(f.free, ObjCount(c));
    hide FrameIn, ObjCount;
    forall x: nat | x < ObjCount(c) && x !in f.free
      ensures x == i
    {
      assert x in Missing(f.free, ObjCount(c)) && i in Missing(f.free, ObjCount(c));
    }
  }

  lemma SameFrameClass(b: Buddy, model: Model, c: Class, j: nat, d: Class, x: nat)
    requires FramesLive(b, model) && IsFrame(model, c, j) && IsObj(model, d, model[c][j].pn, x)
    ensures d == c
  {
  }
}
