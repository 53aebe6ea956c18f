/** The kernel heap: seven slab allocators whose frames are live order-3 blocks of the
    buddy allocator. */
module HeapModel {
  import opened Bits
  import opened PageTables
  import opened Lists
  import opened BuddyModel
  import opened BuddyLaws
  import opened BuddyMemory
  import opened SlabModel

  type Model = seq<seq<SlabFrame>>
  type Records = seq<seq<FrameRec>>

  ghost predicate Shape(recs: Records, model: Model) {
    |recs| == |model| == CLASSES && forall c: Class :: |recs[c]| == |model[c]|
  }

  /** The j-th frame of class c. */
  ghost predicate IsFrame(model: Model, c: Class, j: nat) {
    |model| == CLASSES && j < |model[c]|
  }

  function BlockPtr(pn: nat): Word {
    if 512 * pn < DIRECT_WORDS then ToPtr(512 * pn) else 0
  }

  /** The pointer to the k-th frame of class c, NULL behind the last. */
  function ChainPtr(model: Model, c: Class, k: nat): Word
    requires |model| == CLASSES
  {
    if k < |model[c]| then BlockPtr(model[c][k].pn) else 0
  }

  /** The headers chain the frames of each class. */
  ghost predicate Chains(recs: Records, model: Model)
    requires Shape(recs, model)
  {
    forall c: Class, j: nat :: IsFrame(model, c, j) ==> recs[c][j].next == ChainPtr(model, c, j + 1)
  }

  /** Frames are distinct live blocks. */
  ghost predicate FramesLive(b: Buddy, model: Model) {
    && |model| == CLASSES
    && (forall c: Class, j: nat :: IsFrame(model, c, j) ==>
          IsLive(b, model[c][j].pn, SLAB_FRAME_ORDER))
    && (forall c: Class, j: nat, d: Class, k: nat ::
          IsFrame(model, c, j) && IsFrame(model, d, k) && (c != d || j != k) ==>
          model[c][j].pn != model[d][k].pn)
  }

  /** No frame is kept when all its objects are free. */
  ghost predicate Busy(model: Model) {
    forall c: Class, j: nat :: IsFrame(model, c, j) ==> |model[c][j].free| < ObjCount(c)
  }

  ghost predicate FramesIn(m: Mem, recs: Records, model: Model)
    requires Shape(recs, model)
  {
    forall c: Class, j: nat :: IsFrame(model, c, j) ==> FrameIn(m, c, recs[c][j], model[c][j])
  }

  ghost predicate HeapIn(m: Mem, b: Buddy, recs: Records, model: Model) {
    Shape(recs, model) && FramesLive(b, model) && FramesIn(m, recs, model)
  }

  /** Object i of the frame at pn is in a client's hands. */
  ghost predicate IsObj(model: Model, c: Class, pn: nat, i: nat) {
    exists j: nat :: IsFrame(model, c, j) && model[c][j].pn == pn && i < ObjCount(c) && i !in model[c][j].free
  }

  /** Page t belongs to a frame of the heap. */
  ghost predicate HeapPage(model: Model, t: nat) {
    exists c: Class, j: nat :: IsFrame(model, c, j) && Within(t, model[c][j].pn, SLAB_FRAME_ORDER)
  }

  /** m' differs from m at most in free frames, list heads and frames of the heap. */
  ghost predicate SparesRest(b: Buddy, model: Model, m: Mem, m': Mem, maps: Addr) {
    && |m'| == |m|
    && forall t: nat, i: Index :: !FreePage(b, t) && Foreign(maps, t) && !HeapPage(model, t) ==>
      Entry(m', t, i) == Entry(m, t, i)
  }

  /** The words of every object that is live in `model` are the same. */
  ghost predicate SameObjects(model: Model, m: Mem, m': Mem) {
    |m'| == |m| && forall c: Class, pn: nat, i: nat :: IsObj(model, c, pn, i) ==>
      SameWords(m, m', ObjAddr(pn, c, i), ObjWords(c))
  }

  ghost predicate SameWords(m: Mem, m': Mem, a: nat, n: nat) {
    |m'| == |m| && forall x :: a <= x < a + n && x < |m| ==> m'[x] == m[x]
  }

  // ------------------------------------------------------------- live blocks

  /** A live order-3 block is an aligned 32 KiB of memory that is neither free nor a list head. */
  lemma LiveBlock(b: Buddy, m: Mem, maps: Addr, pn: nat)
    requires InMemory(b, m, maps) && IsLive(b, pn, SLAB_FRAME_ORDER) && b.n < 0x800_0000
    ensures pn % FRAME_PAGES == 0 && 512 * pn + FRAME_WORDS <= |m| && 512 * pn + FRAME_WORDS < DIRECT_WORDS
    ensures forall t: nat :: Within(t, pn, SLAB_FRAME_ORDER) ==> !FreePage(b, t) && Foreign(maps, t)
    ensures forall t: nat :: Within(t, pn, SLAB_FRAME_ORDER) <==> pn <= t < pn + FRAME_PAGES
  {
    hide ListsIn, GoodLists;
    forall t: nat | Within(t, pn, SLAB_FRAME_ORDER)
      ensures !FreePage(b, t)
    {
      FreeNotLive(b, t);
      assert LivePage(b, t);
    }
    assert Size(3) == 8;
  }

  lemma TwoLiveBlocks(b: Buddy, p: nat, q: nat)
    requires Valid(b) && IsLive(b, p, SLAB_FRAME_ORDER) && IsLive(b, q, SLAB_FRAME_ORDER) && p != q
    ensures p + FRAME_PAGES <= q || q + FRAME_PAGES <= p
  {
    assert Disjoint(p, 3, q, 3);
  }

  /** Words of a frame's block are entries of its eight pages. */
  lemma BlockWords(m: Mem, m': Mem, pn: nat)
    requires |m'| == |m| && 512 * pn + FRAME_WORDS <= |m|
    requires forall t: nat, i: Index :: pn <= t < pn + FRAME_PAGES ==> Entry(m', t, i) == Entry(m, t, i)
    ensures forall a :: 512 * pn <= a < 512 * pn + FRAME_WORDS ==> m'[a] == m[a]
  {
    forall a | 512 * pn <= a < 512 * pn + FRAME_WORDS
      ensures m'[a] == m[a]
    {
      assert Entry(m', a / 512, a % 512) == Entry(m, a / 512, a % 512);
    }
  }

  /** The heap depends on the words of its own pages only. */
  lemma SameHeapWords(b: Buddy, m: Mem, m': Mem, maps: Addr, recs: Records, model: Model)
    requires InMemory(b, m, maps) || InMemory(b, m', maps)
    requires b.n < 0x800_0000 && HeapIn(m, b, recs, model) && |m'| == |m|
    requires forall t: nat, i: Index :: HeapPage(model, t) ==> Entry(m', t, i) == Entry(m, t, i)
    ensures FramesIn(m', recs, model) && SameObjects(model, m, m')
  {
    hide FrameIn, InMemory, FreePage, Foreign, Entry, ObjAddr, ObjCount, ObjWords;
    forall c: Class, j: nat | IsFrame(model, c, j)
      ensures FrameIn(m', c, recs[c][j], model[c][j])
      ensures forall a :: 512 * model[c][j].pn <= a < 512 * model[c][j].pn + FRAME_WORDS && a < |m| ==> m'[a] == m[a]
    {
      LiveBlock(b, if InMemory(b, m, maps) then m else m', maps, model[c][j].pn);
      forall t: nat, i: Index | model[c][j].pn <= t < model[c][j].pn + FRAME_PAGES
        ensures Entry(m', t, i) == Entry(m, t, i)
      {
        assert Within(t, model[c][j].pn, SLAB_FRAME_ORDER);
        assert HeapPage(model, t);
      }
      BlockWords(m, m', model[c][j].pn);
      FrameFrame(m, m', c, recs[c][j], model[c][j]);
    }
    forall c: Class, pn: nat, i: nat | IsObj(model, c, pn, i)
      ensures SameWords(m, m', ObjAddr(pn, c, i), ObjWords(c))
    {
      ObjInFrame(pn, c, i);
    }
  }

  /** Pages of the heap are neither free nor list heads. */
  lemma HeapPageIsLive(b: Buddy, m: Mem, maps: Addr, model: Model, t: nat)
    requires InMemory(b, m, maps) && b.n < 0x800_0000 && FramesLive(b, model) && HeapPage(model, t)
    ensures t < b.n && !FreePage(b, t) && Foreign(maps, t)
  {
    hide InMemory, FreePage, Foreign;
    var c: Class, j: nat :| IsFrame(model, c, j) && Within(t, model[c][j].pn, SLAB_FRAME_ORDER);
    LiveBlock(b, m, maps, model[c][j].pn);
    LiveInBounds(b, m, maps, model[c][j].pn);
  }

  lemma LiveInBounds(b: Buddy, m: Mem, maps: Addr, p: nat)
    requires InMemory(b, m, maps) && IsLive(b, p, SLAB_FRAME_ORDER)
    ensures p + FRAME_PAGES <= b.n
  {
    hide Layout, ListsIn, GoodLists;
  }

  /** What spares every page that is neither free nor a list head spares the heap. */
  lemma SparedHeap(b: Buddy, m: Mem, m': Mem, maps: Addr, recs: Records, model: Model)
    requires InMemory(b, m, maps) || InMemory(b, m', maps)
    requires b.n < 0x800_0000 && HeapIn(m, b, recs, model) && SparesOthers(b, m, m', maps)
    ensures FramesIn(m', recs, model) && SameObjects(model, m, m')
  {
    hide FramesIn, InMemory, FreePage, Foreign, HeapPage, SameObjects, IsLive;
    forall t: nat, i: Index | HeapPage(model, t)
      ensures Entry(m', t, i) == Entry(m, t, i)
    {
      HeapPageIsLive(b, if InMemory(b, m, maps) then m else m', maps, model, t);
    }
    SameHeapWords(b, m, m', maps, recs, model);
  }

  /** The same live blocks support the same frames. */
  lemma SameFramesLive(b: Buddy, b': Buddy, model: Model)
    requires FramesLive(b, model)
    requires forall c: Class, j: nat :: IsFrame(model, c, j) ==> IsLive(b', model[c][j].pn, SLAB_FRAME_ORDER)
    ensures FramesLive(b', model)
  {
    hide ObjCount;
  }

  // ------------------------------------------------------------ changing frames

  /** Frame j of class c replaced. */
  function SetRec(recs: Records, c: Class, j: nat, r: FrameRec): (recs': Records)
    requires |recs| == CLASSES && j < |recs[c]|
    ensures |recs'| == CLASSES && recs'[c] == recs[c][j := r] && forall d: Class :: d != c ==> recs'[d] == recs[d]
  {
    recs[c := recs[c][j := r]]
  }

  function SetFrame(model: Model, c: Class, j: nat, f: SlabFrame): (model': Model)
    requires |model| == CLASSES && j < |model[c]|
    ensures |model'| == CLASSES && model'[c] == model[c][j := f] && forall d: Class :: d != c ==> model'[d] == model[d]
  {
    model[c := model[c][j := f]]
  }

  function AddFrame(model: Model, c: Class, f: SlabFrame): (model': Model)
    requires |model| == CLASSES
    ensures |model'| == CLASSES && model'[c] == model[c] + [f] && forall d: Class :: d != c ==> model'[d] == model[d]
  {
    model[c := model[c] + [f]]
  }

  function AddRec(recs: Records, c: Class, r: FrameRec): (recs': Records)
    requires |recs| == CLASSES
    ensures |recs'| == CLASSES && recs'[c] == recs[c] + [r] && forall d: Class :: d != c ==> recs'[d] == recs[d]
  {
    recs[c := recs[c] + [r]]
  }

  function DropFrame(model: Model, c: Class, j: nat): (model': Model)
    requires |model| == CLASSES && j < |model[c]|
    ensures |model'| == CLASSES && model'[c] == model[c][..j] + model[c][j + 1..]
    ensures forall d: Class :: d != c ==> model'[d] == model[d]
  {
    model[c := model[c][..j] + model[c][j + 1..]]
  }

  function DropRec(recs: Records, c: Class, j: nat): (recs': Records)
    requires |recs| == CLASSES && j < |recs[c]|
    ensures |recs'| == CLASSES && recs'[c] == recs[c][..j] + recs[c][j + 1..]
    ensures forall d: Class :: d != c ==> recs'[d] == recs[d]
  {
    recs[c := recs[c][..j] + recs[c][j + 1..]]
  }

  lemma FrameFits(m: Mem, c: Class, r: FrameRec, f: SlabFrame)
    requires FrameIn(m, c, r, f)
    ensures 512 * f.pn + FRAME_WORDS <= |m|
  {
  }

  /** m' differs from m at most in the block at pn. */
  ghost predicate OnlyBlock(m: Mem, m': Mem, pn: nat) {
    |m'| == |m| && forall a :: 0 <= a < |m| && !(512 * pn <= a < 512 * pn + FRAME_WORDS) ==> m'[a] == m[a]
  }

  /** Frame k of class d keeps its contents when only another live block is written. */
  lemma OtherFrame(m: Mem, m': Mem, b: Buddy, recs: Records, model: Model, pn: nat, d: Class, k: nat)
    requires HeapIn(m, b, recs, model) && Valid(b) && IsLive(b, pn, SLAB_FRAME_ORDER) && IsFrame(model, d, k)
    requires model[d][k].pn != pn && OnlyBlock(m, m', pn)
    ensures FrameIn(m', d, recs[d][k], model[d][k])
  {
    hide FrameIn, Valid, IsLive;
    TwoLiveBlocks(b, model[d][k].pn, pn);
    FrameFits(m, d, recs[d][k], model[d][k]);
    FrameFrame(m, m', d, recs[d][k], model[d][k]);
  }

  /** Writing a block that carries no frame keeps the heap. */
  lemma KeepHeap(m: Mem, m': Mem, b: Buddy, recs: Records, model: Model, pn: nat)
    requires HeapIn(m, b, recs, model) && Valid(b) && IsLive(b, pn, SLAB_FRAME_ORDER) && OnlyBlock(m, m', pn)
    requires forall d: Class, k: nat :: IsFrame(model, d, k) ==> model[d][k].pn != pn
    ensures HeapIn(m', b, recs, model)
  {
    hide FrameIn, Valid, IsLive, OnlyBlock;
    forall d: Class, k: nat | IsFrame(model, d, k)
      ensures FrameIn(m', d, recs[d][k], model[d][k])
    {
      OtherFrame(m, m', b, recs, model, pn, d, k);
    }
  }

  /** Changing the header or the free list of one frame keeps the others. */
  lemma SetHeap(m: Mem, m': Mem, b: Buddy, recs: Records, model: Model, c: Class, j: nat, r: FrameRec, f: SlabFrame)
    requires HeapIn(m, b, recs, model) && Valid(b) && IsFrame(model, c, j) && f.pn == model[c][j].pn
    requires FrameIn(m', c, r, f) && OnlyBlock(m, m', f.pn)
    ensures HeapIn(m', b, SetRec(recs, c, j, r), SetFrame(model, c, j, f))
  {
    hide FrameIn, Valid, IsLive, OnlyBlock;
    var recs', model' := SetRec(recs, c, j, r), SetFrame(model, c, j, f);
    forall d: Class, k: nat | IsFrame(model', d, k)
      ensures FrameIn(m', d, recs'[d][k], model'[d][k])
      ensures IsLive(b, model'[d][k].pn, SLAB_FRAME_ORDER) && IsFrame(model, d, k) && model'[d][k].pn == model[d][k].pn
    {
      assert IsFrame(model, d, k);
      if d != c || k != j {
        OtherFrame(m, m', b, recs, model, f.pn, d, k);
      }
    }
  }

  /** A new frame on a live block that no frame uses. */
  lemma AddHeap(m: Mem, m': Mem, b: Buddy, recs: Records, model: Model, c: Class, r: FrameRec, f: SlabFrame)
    requires HeapIn(m, b, recs, model) && Valid(b) && IsLive(b, f.pn, SLAB_FRAME_ORDER)
    requires forall d: Class, k: nat :: IsFrame(model, d, k) ==> model[d][k].pn != f.pn
    requires FrameIn(m', c, r, f) && OnlyBlock(m, m', f.pn)
    ensures HeapIn(m', b, AddRec(recs, c, r), AddFrame(model, c, f))
  {
    hide FrameIn, Valid, IsLive, OnlyBlock;
    var recs', model' := AddRec(recs, c, r), AddFrame(model, c, f);
    forall d: Class, k: nat | IsFrame(model', d, k)
      ensures FrameIn(m', d, recs'[d][k], model'[d][k]) && IsLive(b, model'[d][k].pn, SLAB_FRAME_ORDER)
      ensures
        if d == c && k == |model[c]| then model'[d][k] == f
        else IsFrame(model, d, k) && model'[d][k] == model[d][k]
    {
      if d != c || k != |model[c]| {
        assert IsFrame(model, d, k);
        OtherFrame(m, m', b, recs, model, f.pn, d, k);
      }
    }
  }

  lemma SetSame(recs: Records, model: Model, c: Class, j: nat)
    requires |recs| == CLASSES && j < |recs[c]| && IsFrame(model, c, j)
    ensures SetRec(recs, c, j, recs[c][j]) == recs && SetFrame(model, c, j, model[c][j]) == model
  {
    assert recs[c][j := recs[c][j]] == recs[c] && model[c][j := model[c][j]] == model[c];
  }

  /** A frame's chain pointer rewritten. */
  lemma RelinkHeap(m: Mem, b: Buddy, recs: Records, model: Model, c: Class, j: nat, next: Word)
    requires HeapIn(m, b, recs, model) && Valid(b) && IsFrame(model, c, j)
    ensures j < |recs[c]| && 512 * model[c][j].pn + FRAME_WORDS <= |m|
    ensures var m' := m[512 * model[c][j].pn := next];
      && OnlyHeader(m, m', model[c][j].pn) && OnlyBlock(m, m', model[c][j].pn)
      && HeapIn(m', b, SetRec(recs, c, j, recs[c][j].(next := next)), model)
  {
    hide Valid, IsLive, ObjAddr, ObjCount, ObjWords, ObjPtr, ObjSize, FreePtr, FreeIndices, FreeObject;
    Relink(m, c, recs[c][j], model[c][j], next);
    SetHeap(m, m[512 * model[c][j].pn := next], b, recs, model, c, j, recs[c][j].(next := next), model[c][j]);
    SetSame(recs, model, c, j);
  }

  /** The record of the last frame of class c with its chain pointer set to p. */
  function Appended(recs: Records, c: Class, p: Word): (recs': Records)
    requires |recs| == CLASSES
    ensures |recs'| == CLASSES
  {
    var last := |recs[c]| - 1;
    if last < 0 then recs else SetRec(recs, c, last, recs[c][last].(next := p))
  }

  /** The last frame of class c linked to p. */
  function LinkLast(m: Mem, model: Model, c: Class, p: Word): (m': Mem)
    requires |model| == CLASSES && (|model[c]| > 0 ==> 512 * model[c][|model[c]| - 1].pn < |m|)
    ensures |m'| == |m|
  {
    if |model[c]| == 0 then m else m[512 * model[c][|model[c]| - 1].pn := p]
  }

  /** The frame before frame j of class c linked to p. */
  function LinkBefore(m: Mem, model: Model, c: Class, j: nat, p: Word): (m': Mem)
    requires IsFrame(model, c, j) && (j > 0 ==> 512 * model[c][j - 1].pn < |m|)
    ensures |m'| == |m|
  {
    if j == 0 then m else m[512 * model[c][j - 1].pn := p]
  }

  lemma AddChains(recs: Records, model: Model, c: Class, r: FrameRec, f: SlabFrame)
    requires Shape(recs, model) && Chains(recs, model) && r.next == 0
    ensures Shape(AddRec(Appended(recs, c, BlockPtr(f.pn)), c, r), AddFrame(model, c, f))
    ensures Chains(AddRec(Appended(recs, c, BlockPtr(f.pn)), c, r), AddFrame(model, c, f))
  {
    var recs': Records, model' := AddRec(Appended(recs, c, BlockPtr(f.pn)), c, r), AddFrame(model, c, f);
    hide BlockPtr;
    forall d: Class, k: nat | IsFrame(model', d, k)
      ensures recs'[d][k].next == ChainPtr(model', d, k + 1)
    {
      assert d != c || k < |model[c]| ==> IsFrame(model, d, k);
    }
  }

  /** The record of the frame before frame j of class c, if any, with its chain pointer
      set to that of frame j. */
  function Bypassed(recs: Records, c: Class, j: nat): (recs': Records)
    requires |recs| == CLASSES && j < |recs[c]|
    ensures |recs'| == CLASSES && |recs'[c]| == |recs[c]|
  {
    if j == 0 then recs else SetRec(recs, c, j - 1, recs[c][j - 1].(next := recs[c][j].next))
  }

  lemma DropChains(recs: Records, model: Model, c: Class, j: nat)
    requires Shape(recs, model) && Chains(recs, model) && IsFrame(model, c, j)
    ensures Shape(DropRec(Bypassed(recs, c, j), c, j), DropFrame(model, c, j))
    ensures Chains(DropRec(Bypassed(recs, c, j), c, j), DropFrame(model, c, j))
    ensures forall d: Class :: d != c || j > 0 ==> ChainPtr(DropFrame(model, c, j), d, 0) == ChainPtr(model, d, 0)
    ensures j == 0 ==> ChainPtr(DropFrame(model, c, j), c, 0) == recs[c][0].next
  {
    var recs': Records, model' := DropRec(Bypassed(recs, c, j), c, j), DropFrame(model, c, j);
    hide BlockPtr;
    forall d: Class, k: nat | IsFrame(model', d, k)
      ensures recs'[d][k].next == ChainPtr(model', d, k + 1)
    {
      assert IsFrame(model, d, Moved(c, j, d, k)) && IsFrame(model, c, j);
    }
    assert IsFrame(model, c, j);
  }

  lemma SetChains(recs: Records, model: Model, c: Class, j: nat, r: FrameRec, f: SlabFrame)
    requires Shape(recs, model) && Chains(recs, model) && IsFrame(model, c, j)
    requires r.next == recs[c][j].next && f.pn == model[c][j].pn
    ensures Shape(SetRec(recs, c, j, r), SetFrame(model, c, j, f))
    ensures Chains(SetRec(recs, c, j, r), SetFrame(model, c, j, f))
    ensures forall d: Class, k: nat :: ChainPtr(SetFrame(model, c, j, f), d, k) == ChainPtr(model, d, k)
  {
    var recs': Records, model' := SetRec(recs, c, j, r), SetFrame(model, c, j, f);
    hide BlockPtr;
    forall d: Class, k: nat | IsFrame(model', d, k)
      ensures recs'[d][k].next == ChainPtr(model', d, k + 1)
    {
      assert IsFrame(model, d, k);
    }
  }

  /** Frame k of class d after frame j of class c is gone. */
  function Moved(c: Class, j: nat, d: Class, k: nat): nat {
    if d == c && k >= j then k + 1 else k
  }

  lemma DropHeap(m: Mem, b: Buddy, recs: Records, model: Model, c: Class, j: nat)
    requires HeapIn(m, b, recs, model) && IsFrame(model, c, j)
    ensures HeapIn(m, b, DropRec(recs, c, j), DropFrame(model, c, j))
    ensures forall d: Class, k: nat :: IsFrame(DropFrame(model, c, j), d, k) ==>
      DropFrame(model, c, j)[d][k].pn != model[c][j].pn
    ensures Busy(model) ==> Busy(DropFrame(model, c, j))
  {
    hide FrameIn, IsLive, ObjCount;
    var recs', model' := DropRec(recs, c, j), DropFrame(model, c, j);
    forall d: Class, k: nat | IsFrame(model', d, k)
      ensures IsFrame(model, d, Moved(c, j, d, k)) && model'[d][k] == model[d][Moved(c, j, d, k)]
      ensures recs'[d][k] == recs[d][Moved(c, j, d, k)] && (d != c || Moved(c, j, d, k) != j)
    {
      assert IsFrame(model, d, Moved(c, j, d, k));
    }
  }

  // ------------------------------------------------------------------- objects

  /** The objects after one frame's free list changed. */
  lemma SetObjects(b: Buddy, model: Model, c: Class, j: nat, f: SlabFrame, d: Class, pn: nat, i: nat)
    requires FramesLive(b, model) && IsFrame(model, c, j) && f.pn == model[c][j].pn
    ensures IsObj(SetFrame(model, c, j, f), d, pn, i) <==>
            if d == c && pn == f.pn then i < ObjCount(c) && i !in f.free else IsObj(model, d, pn, i)
  {
    hide ObjCount, IsLive;
    var model' := SetFrame(model, c, j, f);
    if IsObj(model', d, pn, i) {
      var k: nat :| IsFrame(model', d, k) && model'[d][k].pn == pn && i < ObjCount(d) && i !in model'[d][k].free;
      assert IsFrame(model, d, k);
    }
    if IsObj(model, d, pn, i) {
      var k: nat :| IsFrame(model, d, k) && model[d][k].pn == pn && i < ObjCount(d) && i !in model[d][k].free;
      assert IsFrame(model', d, k);
    }
    assert IsFrame(model', c, j);
  }

  /** A frame all of whose objects are free adds no object. */
  lemma AddObjects(model: Model, c: Class, f: SlabFrame, d: Class, pn: nat, i: nat)
    requires |model| == CLASSES && forall x: nat :: x < ObjCount(c) ==> x in f.free
    ensures IsObj(AddFrame(model, c, f), d, pn, i) <==> IsObj(model, d, pn, i)
  {
    hide ObjCount;
    var model' := AddFrame(model, c, f);
    if IsObj(model', d, pn, i) {
      var k: nat :| IsFrame(model', d, k) && model'[d][k].pn == pn && i < ObjCount(d) && i !in model'[d][k].free;
      assert IsFrame(model, d, k);
    }
    if IsObj(model, d, pn, i) {
      var k: nat :| IsFrame(model, d, k) && model[d][k].pn == pn && i < ObjCount(d) && i !in model[d][k].free;
      assert IsFrame(model', d, k) && model'[d][k] == model[d][k];
    }
  }

  /** Dropping a frame drops its objects. */
  lemma DropObjects(b: Buddy, model: Model, c: Class, j: nat, d: Class, pn: nat, i: nat)
    requires FramesLive(b, model) && IsFrame(model, c, j)
    ensures IsObj(DropFrame(model, c, j), d, pn, i) <==> IsObj(model, d, pn, i) && pn != model[c][j].pn
  {
    hide ObjCount, IsLive;
    var model' := DropFrame(model, c, j);
    if IsObj(model', d, pn, i) {
      var k: nat :| IsFrame(model', d, k) && model'[d][k].pn == pn && i < ObjCount(d) && i !in model'[d][k].free;
      var k' := Moved(c, j, d, k);
      assert IsFrame(model, d, k') && model[d][k'] == model'[d][k];
    }
    if IsObj(model, d, pn, i) && pn != model[c][j].pn {
      var k: nat :| IsFrame(model, d, k) && model[d][k].pn == pn && i < ObjCount(d) && i !in model[d][k].free;
      var k' := if d == c && k > j then k - 1 else k;
      assert IsFrame(model', d, k') && model'[d][k'] == model[d][k];
    }
  }

  // ---------------------------------------------------------------- addresses

  /** The test of slab_has_addr and slab_free. */
  predicate Contains(r: FrameRec, p: Word) {
    r.start <= p < r.end
  }

  lemma FrameRange(m: Mem, c: Class, r: FrameRec, f: SlabFrame)
    requires FrameIn(m, c, r, f)
    ensures ToPtr(512 * f.pn) + HEADER_BYTES <= r.start && r.end == ToPtr(512 * f.pn) + 8 * FRAME_WORDS
    ensures forall i: nat :: i < ObjCount(c) ==> Contains(r, ObjPtr(f.pn, c, i))
  {
    Geometry(f.pn, c);
    forall i: nat | i < ObjCount(c)
      ensures Contains(r, ObjPtr(f.pn, c, i))
    {
      ObjPtrIs(f.pn, c, i);
      ObjPtrIs(f.pn, c, 0);
      ObjInFrame(f.pn, c, i);
    }
  }

  /** Frames do not overlap: an address lies in one at most. */
  lemma OneFrame(m: Mem, b: Buddy, recs: Records, model: Model, p: Word, c: Class, j: nat, d: Class, k: nat)
    requires HeapIn(m, b, recs, model) && Valid(b) && IsFrame(model, c, j) && IsFrame(model, d, k)
    requires Contains(recs[c][j], p) && Contains(recs[d][k], p)
    ensures c == d && j == k
  {
    hide FrameIn, Valid, IsLive, ObjCount, ObjPtr;
    FrameRange(m, c, recs[c][j], model[c][j]);
    FrameRange(m, d, recs[d][k], model[d][k]);
    if c != d || j != k {
      TwoLiveBlocks(b, model[c][j].pn, model[d][k].pn);
    }
  }

  /** Live objects are disjoint, lie behind the header of their frame, and their frame is
      a live block of the buddy allocator. */
  lemma ObjectsApart(m: Mem, b: Buddy, recs: Records, model: Model, c: Class, pn: nat, i: nat, d: Class, qn: nat,
                     j: nat)
    requires HeapIn(m, b, recs, model) && Valid(b) && IsObj(model, c, pn, i) && IsObj(model, d, qn, j)
    ensures IsLive(b, pn, SLAB_FRAME_ORDER) && pn % FRAME_PAGES == 0
    ensures 512 * pn + 6 <= ObjAddr(pn, c, i) && ObjAddr(pn, c, i) + ObjWords(c) <= 512 * pn + FRAME_WORDS <= |m|
    ensures ObjPtr(pn, c, i) == ToPtr(ObjAddr(pn, c, i))
    ensures (c, pn, i) != (d, qn, j) ==>
      ObjAddr(pn, c, i) + ObjWords(c) <= ObjAddr(qn, d, j) || ObjAddr(qn, d, j) + ObjWords(d) <= ObjAddr(pn, c, i)
  {
    hide Valid, IsLive, ObjCount, ObjAddr, ObjWords, ObjPtr;
    var x: nat :| IsFrame(model, c, x) && model[c][x].pn == pn;
    var y: nat :| IsFrame(model, d, y) && model[d][y].pn == qn;
    ObjInFrame(pn, c, i);
    ObjInFrame(qn, d, j);
    assert FrameIn(m, c, recs[c][x], model[c][x]);
    ObjPtrIs(pn, c, i);
    if c != d || x != y {
      TwoLiveBlocks(b, pn, qn);
    } else if i != j {
      ObjsApart(pn, c, i, j);
    }
  }
}
