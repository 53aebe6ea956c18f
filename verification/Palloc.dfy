/** palloc.c: the buddy allocator over its page descriptors, its nine list heads and the
    free pages themselves. */
module Palloc {
  import opened Bits
  import opened Option
  import opened PageTables
  import opened Lists
  import opened BuddyModel
  import opened BuddyMemory
  import opened BuddyLaws

  /** struct page; `free` and `invalid` are the flag bits PG_FREE and PG_INVALID. */
  datatype Page = Page(count: int, order: int, free: bool, invalid: bool, pfn: nat)

  // ------------------------------------------------------- descriptors and blocks

  /** Descriptor d of page i tells the truth about the blocks of b: heads carry order,
      flag and reference count, every other page has order -1. */
  predicate Describes(b: Buddy, i: nat, d: Page) {
    && d.pfn == i
    && if i in b.blocks
       then d.order == b.blocks[i].order && d.free == b.blocks[i].free && d.count == (if d.free then 0 else 1)
       else d.order == -1 && !d.free && d.count == 0
  }

  ghost predicate Counts(b: Buddy, counts: seq<int>, freePages: int, missing: int)
    requires |b.lists| == BUDDY_MAX_ORDER + 1
  {
    && |counts| == BUDDY_MAX_ORDER + 1 && freePages == FreeTotal(b.lists) + missing
    && forall k: Order :: counts[k] == |b.lists[k]|
  }

  /** No page of a block is marked invalid. */
  ghost predicate BlocksUsable(b: Buddy, pages: seq<Page>) {
    forall p: nat, i: nat :: p in b.blocks && 0 <= b.blocks[p].order <= BUDDY_MAX_ORDER
      && Within(i, p, b.blocks[p].order) && i < |pages|
      ==> !pages[i].invalid
  }

  /** The whole state: blocks, memory, descriptors and counters agree. */
  ghost predicate Sound(b: Buddy, m: Mem, maps: Addr, pages: seq<Page>, counts: seq<int>, freePages: int) {
    && InMemory(b, m, maps) && |pages| == b.n && Counts(b, counts, freePages, 0) && BlocksUsable(b, pages)
    && forall i: nat :: i < |pages| ==> Describes(b, i, pages[i])
  }

  /** What the fields say in the invariant: PG_FREE marks exactly the heads of listed
      blocks, a count of 1 exactly the heads of live ones, pages inside a block have order
      -1, and free_pages is the sum of free_count[k] * 2^k. */
  lemma FieldsTell(b: Buddy, m: Mem, maps: Addr, pages: seq<Page>, counts: seq<int>, freePages: int)
    requires Sound(b, m, maps, pages, counts, freePages)
    ensures |b.lists| == |counts| == BUDDY_MAX_ORDER + 1
    ensures forall i: nat :: i < |pages| ==> (pages[i].free <==> exists k: Order :: i in b.lists[k])
    ensures forall i: nat :: i < |pages| ==> (pages[i].count == 1 <==> exists k: Order :: IsLive(b, i, k))
    ensures forall p: nat, k: Order, i: nat ::
      (IsFree(b, p, k) || IsLive(b, p, k)) && Within(i, p, k) && i != p && i < |pages| ==>
      pages[i].order == -1 && !pages[i].free && pages[i].count == 0
    ensures freePages == counts[0] + 2 * counts[1] + 4 * counts[2] + 8 * counts[3] + 16 * counts[4]
                         + 32 * counts[5] + 64 * counts[6] + 128 * counts[7] + 256 * counts[8]
  {
    hide InMemory, Rem, BlocksUsable;
    InMemoryLists(b, m, maps);
    FieldsOfHeads(b, pages);
    forall p: nat, k: Order, i: nat | (IsFree(b, p, k) || IsLive(b, p, k)) && Within(i, p, k) && i != p && i < |pages|
      ensures pages[i].order == -1 && !pages[i].free && pages[i].count == 0
    {
      assert Describes(b, i, pages[i]);
      InsideNoHead(b, p, k, i);
    }
  }

  lemma FieldsOfHeads(b: Buddy, pages: seq<Page>)
    requires Valid(b) && |pages| == b.n && forall i: nat :: i < |pages| ==> Describes(b, i, pages[i])
    ensures forall i: nat :: i < |pages| ==> (pages[i].free <==> exists k: Order :: i in b.lists[k])
    ensures forall i: nat :: i < |pages| ==> (pages[i].count == 1 <==> exists k: Order :: IsLive(b, i, k))
  {
    hide Size, Rem;
    forall i: nat | i < |pages|
      ensures pages[i].free <==> exists k: Order :: i in b.lists[k]
      ensures pages[i].count == 1 <==> exists k: Order :: IsLive(b, i, k)
    {
      assert Describes(b, i, pages[i]);
      if i in b.blocks {
        var k: Order := b.blocks[i].order;
        assert b.blocks[i].free ==> i in b.lists[k];
        assert !b.blocks[i].free ==> IsLive(b, i, k);
      }
    }
  }

  /** No block starts inside another. */
  lemma InsideNoHead(b: Buddy, p: nat, k: Order, i: nat)
    requires GoodBlocks(b) && (IsFree(b, p, k) || IsLive(b, p, k)) && Within(i, p, k) && i != p
    ensures i !in b.blocks
  {
    hide Rem;
  }

  /** The same while the block at p of order k is in neither list nor block map. */
  ghost predicate Floating(b: Buddy, m: Mem, maps: Addr, pages: seq<Page>, counts: seq<int>, freePages: int,
                           missing: int,
                           p: nat, k: Order) {
    && InMemory(b, m, maps) && |pages| == b.n && Counts(b, counts, freePages, missing) && BlocksUsable(b, pages)
    && Loose(b, p, k) && HeadsAvoid(maps, p, k)
    && (forall i: nat :: Within(i, p, k) && i < |pages| ==> !pages[i].invalid)
    && (forall i: nat :: i < |pages| && i != p ==> Describes(b, i, pages[i]))
    && pages[p].pfn == p && !pages[p].free && pages[p].count == 0
  }

  /** The four tests of the merge loop find exactly a free buddy of the same order. */
  lemma MergeTest(b: Buddy, m: Mem, maps: Addr, pages: seq<Page>, counts: seq<int>, freePages: int, missing: int,
                  p: nat, k: Order)
    requires Floating(b, m, maps, pages, counts, freePages, missing, p, k) && k < BUDDY_MAX_ORDER
    ensures var q := BuddyOf(p, k);
      q != p && (q < |pages| && pages[q].order == k && !pages[q].invalid && pages[q].free <==> Merges(b, p, k))
  {
    Halves(p, k);
    var q := BuddyOf(p, k);
    hide Size, Rem, BuddyOf, Lower;
    if Merges(b, p, k) {
      assert Within(q, q, k) && q < |pages|;
      assert Describes(b, q, pages[q]);
    }
    if q < |pages| {
      assert Describes(b, q, pages[q]);
    }
  }

  /** The descriptor updates of a merge. */
  function Absorb(pages: seq<Page>, q: nat, up: nat): (r: seq<Page>)
    requires q < |pages| && up < |pages|
    ensures |r| == |pages|
  {
    var pages1 := pages[q := pages[q].(free := false)];
    pages1[up := pages1[up].(order := -1)]
  }

  lemma AbsorbIs(pages: seq<Page>, q: nat, up: nat)
    requires q < |pages| && up < |pages|
    ensures var pages1 := pages[q := pages[q].(free := false)];
      Absorb(pages, q, up) == pages1[up := pages1[up].(order := -1)]
  {
  }

  /** Absorbing the buddy: its node is unlinked, and the upper half becomes an interior page. */
  lemma MergeStep(b: Buddy, m: Mem, maps: Addr, pages: seq<Page>, counts: seq<int>, freePages: int, missing: int,
                  p: nat, k: Order, j: nat)
    requires Floating(b, m, maps, pages, counts, freePages, missing, p, k) && Merges(b, p, k)
    requires j < |b.lists[k]| && b.lists[k][j] == BuddyOf(p, k)
    ensures BuddyOf(p, k) < |pages| && Lower(p, k) + Size(k) < |pages| && Room(m, Node(BuddyOf(p, k)))
    ensures Floating(Unlist(b, BuddyOf(p, k), k), Del(m, Node(BuddyOf(p, k))), maps,
                     Absorb(pages, BuddyOf(p, k), Lower(p, k) + Size(k)),
                     counts[k := counts[k] - 1], freePages, missing + Size(k), Lower(p, k), k + 1)
    ensures SparesOthers(b, m, Del(m, Node(BuddyOf(p, k))), maps)
    ensures Free(Unlist(b, BuddyOf(p, k), k), Lower(p, k), k + 1) == Free(b, p, k)
  {
    hide Size, Rem, BuddyOf, Lower, GoodBlocks, GoodLists, IsList, Layout, ListsIn, Absorb, FreeTotal, SparesOthers,
         Del, Node, Describes, BlocksUsable, HeadsAvoid, Loose;
    LooseAligned(b, p, k);
    var q, low := BuddyOf(p, k), Lower(p, k);
    UnlistMemory(b, m, maps, q, k, j);
    MergeLoose(b, p, k);
    UnlistValid(b, q, k);
    Halves(p, k);
    LowerIsLow(p, k);
    MergeAvoids(b, |m|, maps, p, k);
    MergePages(b, pages, p, k);
  }

  lemma MergeAvoids(b: Buddy, words: nat, maps: Addr, p: nat, k: Order)
    requires Layout(b, words, maps) && Merges(b, p, k) && HeadsAvoid(maps, p, k) && Rem(p, k) == 0
    ensures HeadsAvoid(maps, Lower(p, k), k + 1)
  {
    forall i: nat | Within(i, Lower(p, k), k + 1)
      ensures Foreign(maps, i)
    {
      HalvesCover(p, k, i);
    }
  }

  lemma MergePages(b: Buddy, pages: seq<Page>, p: nat, k: Order)
    requires GoodBlocks(b) && |b.lists| == BUDDY_MAX_ORDER + 1 && |pages| == b.n && Loose(b, p, k) && Merges(b, p, k)
    requires BlocksUsable(b, pages) && (forall i: nat :: Within(i, p, k) && i < |pages| ==> !pages[i].invalid)
    requires forall i: nat :: i < |pages| && i != p ==> Describes(b, i, pages[i])
    requires pages[p].pfn == p && !pages[p].free && pages[p].count == 0
    ensures var q, low := BuddyOf(p, k), Lower(p, k);
      var up := low + Size(k);
      && q < |pages| && up < |pages| && low < |pages|
      && var pages2, c := Absorb(pages, q, up), Unlist(b, q, k);
      && (forall i: nat :: i < |pages| && i != low ==> Describes(c, i, pages2[i]))
      && pages2[low].pfn == low && !pages2[low].free && pages2[low].count == 0
      && (forall i: nat :: Within(i, low, k + 1) && i < |pages| ==> !pages2[i].invalid)
      && BlocksUsable(c, pages2)
  {
    hide *;
    MergeHalves(b, p, k);
    MergeDescribed(b, pages, p, k);
    MergeUsable(b, pages, p, k);
  }

  /** Where the two halves of a merge are. */
  lemma MergeHalves(b: Buddy, p: nat, k: Order)
    requires GoodBlocks(b) && Loose(b, p, k) && Merges(b, p, k)
    ensures k < BUDDY_MAX_ORDER && Rem(p, k) == 0 && p !in b.blocks && IsFree(b, BuddyOf(p, k), k)
    ensures var q, low := BuddyOf(p, k), Lower(p, k);
      && q < b.n && p < b.n && low + Size(k) < b.n && Size(k) > 0 && q + Size(k) <= b.n
      && ((low == p && low + Size(k) == q) || (low == q && low + Size(k) == p))
  {
    Halves(p, k);
    LooseIsNew(b, p, k);
  }

  lemma MergeDescribed(b: Buddy, pages: seq<Page>, p: nat, k: Order)
    requires GoodBlocks(b) && |b.lists| == BUDDY_MAX_ORDER + 1 && |pages| == b.n && Loose(b, p, k) && Merges(b, p, k)
    requires forall i: nat :: i < |pages| && i != p ==> Describes(b, i, pages[i])
    requires pages[p].pfn == p && !pages[p].free && pages[p].count == 0
    ensures var q, low := BuddyOf(p, k), Lower(p, k);
      var up := low + Size(k);
      && q < |pages| && up < |pages| && low < |pages|
      && var pages2, c := Absorb(pages, q, up), Unlist(b, q, k);
      && (forall i: nat :: i < |pages| && i != low ==> Describes(c, i, pages2[i]))
      && pages2[low].pfn == low && !pages2[low].free && pages2[low].count == 0
  {
    hide Size, Rem, BuddyOf, Lower, GoodBlocks, Loose, Merges;
    MergeHalves(b, p, k);
    assert Describes(b, BuddyOf(p, k), pages[BuddyOf(p, k)]);
  }

  lemma MergeUsable(b: Buddy, pages: seq<Page>, p: nat, k: Order)
    requires GoodBlocks(b) && |b.lists| == BUDDY_MAX_ORDER + 1 && |pages| == b.n && Loose(b, p, k) && Merges(b, p, k)
    requires BlocksUsable(b, pages) && (forall i: nat :: Within(i, p, k) && i < |pages| ==> !pages[i].invalid)
    ensures var q, low := BuddyOf(p, k), Lower(p, k);
      var up := low + Size(k);
      && q < |pages| && up < |pages|
      && var pages2, c := Absorb(pages, q, up), Unlist(b, q, k);
      && (forall i: nat :: Within(i, low, k + 1) && i < |pages| ==> !pages2[i].invalid)
      && BlocksUsable(c, pages2)
  {
    hide Size, Rem, BuddyOf, Lower, GoodBlocks, Loose, Merges, Within;
    MergeHalves(b, p, k);
    var q, low := BuddyOf(p, k), Lower(p, k);
    var pages2 := Absorb(pages, q, low + Size(k));
    assert forall i: nat :: i < |pages| ==> pages2[i].invalid == pages[i].invalid;
    forall i: nat | Within(i, low, k + 1) && i < |pages|
      ensures !pages2[i].invalid
    {
      HalvesCover(p, k, i);
    }
  }

  /** Enlisting the floating block completes the state. */
  lemma FinishFree(b: Buddy, m: Mem, maps: Addr, pages: seq<Page>, counts: seq<int>, freePages: int, missing: int,
                   p: nat, k: Order)
    requires Floating(b, m, maps, pages, counts, freePages, missing, p, k)
    ensures Room(m, Node(p)) && Room(m, Head(maps, k)) && Node(p) == 512 * p
    ensures IsList(m, Head(maps, k), Nodes(b.lists[k]))
    ensures forall i :: 0 <= i < |b.lists[k]| + 1 ==> Apart(Node(p), ([Head(maps, k)] + Nodes(b.lists[k]))[i])
    ensures Sound(Enlist(b, p, k), AddFront(m, Node(p), Head(maps, k)), maps,
                  pages[p := pages[p].(order := k, free := true)], counts[k := counts[k] + 1],
                    freePages + Size(k) - missing)
    ensures SparesOthers(Enlist(b, p, k), m, AddFront(m, Node(p), Head(maps, k)), maps)
  {
    EnlistMemory(b, m, maps, p, k);
    EnlistValid(b, p, k);
    EnlistPages(b, pages, p, k);
  }

  lemma EnlistPages(b: Buddy, pages: seq<Page>, p: nat, k: Order)
    requires GoodBlocks(b) && |b.lists| == BUDDY_MAX_ORDER + 1 && |pages| == b.n && Loose(b, p, k)
    requires BlocksUsable(b, pages) && (forall i: nat :: Within(i, p, k) && i < |pages| ==> !pages[i].invalid)
    requires forall i: nat :: i < |pages| && i != p ==> Describes(b, i, pages[i])
    requires pages[p].pfn == p && !pages[p].free && pages[p].count == 0
    ensures var pages' := pages[p := pages[p].(order := k, free := true)];
      BlocksUsable(Enlist(b, p, k), pages') && forall i: nat :: i < |pages| ==> Describes(Enlist(b, p, k), i, pages'[i])
  {
  }

  // ----------------------------------------------------------------- the loop

  /** Facts of a floating block that the free loop uses. */
  lemma FloatingMeans(b: Buddy, m: Mem, maps: Addr, pages: seq<Page>, counts: seq<int>, freePages: int, missing: int,
                      p: nat, k: Order)
    requires Floating(b, m, maps, pages, counts, freePages, missing, p, k) && |pages| < 0x800_0000
    ensures Valid(b) && |b.lists| == BUDDY_MAX_ORDER + 1 && |counts| == BUDDY_MAX_ORDER + 1
    ensures p < |pages| && p < W64 && Loose(b, p, k) && Pow2(k) == Size(k) < W64
    ensures k < BUDDY_MAX_ORDER ==>
      && Xor(p, Pow2(k)) == BuddyOf(p, k) && And(p, Not(Pow2(k))) == Lower(p, k) < W64
      && Xor(Lower(p, k), Pow2(k)) == Lower(p, k) + Size(k)
  {
    hide Size, Rem, BuddyOf, Lower, Xor, And, Pow2, GoodBlocks, GoodLists, ListsIn, Layout, Describes, FreeTotal;
    LooseAligned(b, p, k);
    SmallPowers(k);
    if k < BUDDY_MAX_ORDER {
      BuddyBits(p, k);
      LowerIsLow(p, k);
      BuddyBits(Lower(p, k), k);
      LowerFits(b, p, k);
    }
  }

  /** The merged block stays in bounds: both halves are blocks of one aligned run. */
  lemma LowerFits(b: Buddy, p: nat, k: Order)
    requires k < BUDDY_MAX_ORDER && Rem(p, k) == 0
    ensures Lower(p, k) + Size(k) <= p + Size(k)
  {
  }

  lemma LowerIsLow(p: nat, k: Order)
    requires k < BUDDY_MAX_ORDER && Rem(p, k) == 0
    ensures Rem(Lower(p, k), k) == 0 && BuddyOf(Lower(p, k), k) == Lower(p, k) + Size(k) && Lower(p, k) <= p
  {
    Halves(p, k);
    Halves(Lower(p, k), k);
  }

  lemma MergeFacts(b: Buddy, p: nat, k: Order) returns (j: nat)
    requires Valid(b) && Merges(b, p, k)
    ensures j < |b.lists[k]| && b.lists[k][j] == BuddyOf(p, k)
  {
    assert BuddyOf(p, k) in b.lists[k];
    j :| j < |b.lists[k]| && b.lists[k][j] == BuddyOf(p, k);
  }

  lemma UnlistNode(b: Buddy, m: Mem, maps: Addr, p: nat, k: Order, j: nat)
    requires InMemory(b, m, maps) && j < |b.lists[k]|
    ensures IsList(m, Head(maps, k), Nodes(b.lists[k])) && Nodes(b.lists[k])[j] == Node(b.lists[k][j])
  {
  }

  /** Freed pages only ever join the free pages, so what a round spares the whole call spares. */
  lemma FreeGrows(b: Buddy, p: nat, k: Order)
    requires Valid(b) && Loose(b, p, k)
    ensures Valid(Free(b, p, k)) && forall i: nat :: FreePage(b, i) ==> FreePage(Free(b, p, k), i)
  {
    FreeKeeps(b, p, k);
  }

  lemma FloatingInMemory(b: Buddy, m: Mem, maps: Addr, pages: seq<Page>, counts: seq<int>, freePages: int, missing: int,
                         p: nat, k: Order)
    requires Floating(b, m, maps, pages, counts, freePages, missing, p, k)
    ensures InMemory(b, m, maps)
  {
  }

  /** One round of the loop, as the loop sees it. */
  lemma MergeRound(b: Buddy, m0: Mem, m: Mem, maps: Addr, pages: seq<Page>, counts: seq<int>, freePages: int,
                   missing: int,
                   p: nat, k: Order, j: nat)
    requires Floating(b, m, maps, pages, counts, freePages, missing, p, k) && Merges(b, p, k) && |pages| < 0x800_0000
    requires j < |b.lists[k]| && b.lists[k][j] == BuddyOf(p, k)
    requires SparesOthers(Free(b, p, k), m0, m, maps)
    ensures var q, low := BuddyOf(p, k), Lower(p, k);
      && q < |pages| && low + Size(k) < |pages| && Room(m, Node(q))
      && Floating(Unlist(b, q, k), Del(m, Node(q)), maps, Absorb(pages, q, low + Size(k)),
                  counts[k := counts[k] - 1], freePages, missing + Size(k), low, k + 1)
      && Free(Unlist(b, q, k), low, k + 1) == Free(b, p, k)
      && SparesOthers(Free(b, p, k), m0, Del(m, Node(q)), maps)
      && Size(k + 1) == Size(k) + Size(k) && |Unlist(b, q, k).lists| == BUDDY_MAX_ORDER + 1
  {
    hide Floating, Free, SparesOthers, Size, Rem, BuddyOf, Lower, Loose, Valid, Del, Node, Absorb, FreePage;
    MergeStep(b, m, maps, pages, counts, freePages, missing, p, k, j);
    FloatingMeans(b, m, maps, pages, counts, freePages, missing, p, k);
    FreeGrows(b, p, k);
    SparesMore(b, Free(b, p, k), m, Del(m, Node(BuddyOf(p, k))), maps);
    SparesTrans(Free(b, p, k), Free(b, p, k), m0, m, Del(m, Node(BuddyOf(p, k))), maps);
    SizeUp(k);
  }

  lemma SparesMore(b: Buddy, c: Buddy, m: Mem, m': Mem, maps: Addr)
    requires SparesOthers(b, m, m', maps) && forall i: nat :: FreePage(b, i) ==> FreePage(c, i)
    ensures SparesOthers(c, m, m', maps)
  {
  }

  /** The loop ends when the block cannot merge; enlisting it completes the call. */
  lemma EndOfLoop(b: Buddy, m: Mem, maps: Addr, pages: seq<Page>, counts: seq<int>, freePages: int, missing: int,
                  p: nat, k: Order)
    requires Floating(b, m, maps, pages, counts, freePages, missing, p, k) && |pages| < 0x800_0000
    requires k == BUDDY_MAX_ORDER || !Merges(b, p, k)
    ensures |b.lists| == BUDDY_MAX_ORDER + 1 && |counts| == BUDDY_MAX_ORDER + 1 && p < |pages|
    ensures Free(b, p, k) == Enlist(b, p, k)
    ensures Room(m, Node(p)) && Room(m, Head(maps, k)) && IsList(m, Head(maps, k), Nodes(b.lists[k]))
    ensures forall i :: 0 <= i < |Nodes(b.lists[k])| + 1 ==> Apart(Node(p), ([Head(maps, k)] + Nodes(b.lists[k]))[i])
    ensures Sound(Enlist(b, p, k), AddFront(m, Node(p), Head(maps, k)), maps,
                  pages[p := pages[p].(order := k, free := true)], counts[k := counts[k] + 1],
                    freePages + Size(k) - missing)
    ensures SparesOthers(Enlist(b, p, k), m, AddFront(m, Node(p), Head(maps, k)), maps)
  {
    FinishFree(b, m, maps, pages, counts, freePages, missing, p, k);
    LooseAligned(b, p, k);
  }

  // ------------------------------------------------------- split, take, release

  /** The descriptors of the two halves of a split block. */
  function SplitPages(pages: seq<Page>, p: nat, q: nat, k: Order): (r: seq<Page>)
    requires p < |pages| && q < |pages|
    ensures |r| == |pages|
  {
    var pages1 := pages[p := pages[p].(order := k, free := true, count := 0)];
    pages1[q := pages1[q].(order := k, free := true, count := 0)]
  }

  lemma SplitSound(b: Buddy, m: Mem, maps: Addr, pages: seq<Page>, counts: seq<int>, freePages: int, k: Order)
    requires Sound(b, m, maps, pages, counts, freePages) && k > 0 && |b.lists[k]| > 0
    ensures var p := Back(b, k);
      && p + Size(k - 1) < |pages| && |counts| == BUDDY_MAX_ORDER + 1 && BuddyOf(p, k - 1) == p + Size(k - 1)
      && Sound(Split(b, k), SplitMem(b, m, maps, k), maps, SplitPages(pages, p, p + Size(k - 1), k - 1),
               counts[k := counts[k] - 1][k - 1 := counts[k - 1] + 2], freePages)
      && SparesOthers(b, m, SplitMem(b, m, maps, k), maps)
  {
    hide Size, Rem, GoodBlocks, GoodLists, Layout, ListsIn, FreePage, IsLive, FreeTotal, SparesOthers, SplitMem,
         Describes, BlocksUsable, SplitPages;
    SplitMemory(b, m, maps, k);
    SplitKeeps(b, k);
    SplitDescribed(b, pages, k);
    var p := Back(b, k);
    assert Split(b, k).lists[k - 1] == [p + Size(k - 1), p] + b.lists[k - 1];
  }

  lemma SplitDescribed(b: Buddy, pages: seq<Page>, k: Order)
    requires Valid(b) && k > 0 && |b.lists[k]| > 0 && |pages| == b.n && BlocksUsable(b, pages)
    requires forall i: nat :: i < |pages| ==> Describes(b, i, pages[i])
    ensures var p := Back(b, k);
      && BuddyOf(p, k - 1) == p + Size(k - 1) && p + Size(k - 1) < |pages|
      && var c, pages' := Split(b, k), SplitPages(pages, p, p + Size(k - 1), k - 1);
         BlocksUsable(c, pages') && forall i: nat :: i < |pages| ==> Describes(c, i, pages'[i])
  {
    hide Rem, GoodLists, FreeTotal, FreePage, Size, Within;
    var p := Back(b, k);
    SplitKeeps(b, k);
    PopKeeps(b, k);
    FreeAligned(b, p, k);
    SizeUp(k - 1);
    SizeAtLeastOne(k - 1);
    assert Describes(b, p, pages[p]) && Describes(b, p + Size(k - 1), pages[p + Size(k - 1)]);
    SplitUsable(b, pages, k);
  }

  lemma SplitUsable(b: Buddy, pages: seq<Page>, k: Order)
    requires Valid(b) && k > 0 && |b.lists[k]| > 0 && |pages| == b.n && BlocksUsable(b, pages)
    requires var p := Back(b, k);
      BuddyOf(p, k - 1) == p + Size(k - 1) && p + Size(k - 1) < |pages| && IsFree(b, p, k)
        && Size(k) == Size(k - 1) + Size(k - 1)
    ensures var p := Back(b, k);
      BlocksUsable(Split(b, k), SplitPages(pages, p, p + Size(k - 1), k - 1))
  {
    hide Size, Rem, GoodLists, FreeTotal, FreePage, GoodBlocks;
    var p := Back(b, k);
    var c, pages' := Split(b, k), SplitPages(pages, p, p + Size(k - 1), k - 1);
    assert forall i: nat :: i < |pages| ==> pages'[i].invalid == pages[i].invalid;
    assert forall i: nat :: Within(i, p, k - 1) ==> Within(i, p, k);
    assert forall i: nat :: Within(i, p + Size(k - 1), k - 1) ==> Within(i, p, k);
  }

  lemma TakeSound(b: Buddy, m: Mem, maps: Addr, pages: seq<Page>, counts: seq<int>, freePages: int, k: Order,
                  zero: bool)
    requires Sound(b, m, maps, pages, counts, freePages) && |b.lists[k]| > 0
    ensures var p := Back(b, k);
      && p < |pages| && |counts| == BUDDY_MAX_ORDER + 1 && pages[p].pfn == p && p + Size(k) <= |pages|
      && Sound(Take(b, k), HandOut(m, maps, p, k, zero), maps,
               pages[p := pages[p].(free := false, order := k, count := 1)], counts[k := counts[k] - 1],
                 freePages - Size(k))
      && SparesOthers(b, m, HandOut(m, maps, p, k, zero), maps)
  {
    hide Size, Rem, GoodBlocks, GoodLists, Layout, ListsIn, FreePage, IsLive, FreeTotal, SparesOthers, HandOut,
         Describes, BlocksUsable;
    TakeMemory(b, m, maps, k, zero);
    TakeKeeps(b, k);
    FreeAligned(b, Back(b, k), k);
    SizeAtLeastOne(k);
    TakeDescribed(b, pages, k);
  }

  lemma SizeAtLeastOne(k: Order)
    ensures Size(k) >= 1
  {
  }

  lemma TakeDescribed(b: Buddy, pages: seq<Page>, k: Order)
    requires Valid(b) && |b.lists[k]| > 0 && |pages| == b.n && BlocksUsable(b, pages) && Back(b, k) < |pages|
    requires IsFree(b, Back(b, k), k)
    requires forall i: nat :: i < |pages| ==> Describes(b, i, pages[i])
    ensures var p := Back(b, k);
      && pages[p].pfn == p
      && var c, pages' := Take(b, k), pages[p := pages[p].(free := false, order := k, count := 1)];
         BlocksUsable(c, pages') && forall i: nat :: i < |pages| ==> Describes(c, i, pages'[i])
  {
    hide Rem, GoodLists, FreeTotal, FreePage, Size;
    assert Describes(b, Back(b, k), pages[Back(b, k)]);
  }

  /** A live block, its reference count cleared, is a floating block of the rest. */
  lemma ReleaseFloats(b: Buddy, m: Mem, maps: Addr, pages: seq<Page>, counts: seq<int>, freePages: int, p: nat,
                      k: Order)
    requires Sound(b, m, maps, pages, counts, freePages) && IsLive(b, p, k)
    ensures p < |pages|
    ensures Floating(b.(blocks := b.blocks - {p}), m, maps, pages[p := pages[p].(count := 0)], counts, freePages, 0,
      p, k)
    ensures Release(b, p) == Free(b.(blocks := b.blocks - {p}), p, k)
  {
    hide Size, Rem, GoodBlocks, GoodLists, IsList, FreeTotal;
    var c := b.(blocks := b.blocks - {p});
    DropLive(b, p, k);
    LooseAligned(c, p, k);
    SizeAtLeastOne(k);
    LayoutShrinks(b, c, |m|, maps);
    assert Describes(b, p, pages[p]);
  }

  /** What pfree's tests see on the descriptor of page p. */
  lemma PfreeTest(b: Buddy, m: Mem, maps: Addr, pages: seq<Page>, counts: seq<int>, freePages: int, p: nat)
    requires Sound(b, m, maps, pages, counts, freePages) && p < |pages|
    ensures pages[p].order < 0 || pages[p].order > BUDDY_MAX_ORDER || pages[p].invalid || pages[p].free ==>
      Release(b, p) == b && forall k: Order :: !IsLive(b, p, k)
    ensures !(pages[p].order < 0 || pages[p].order > BUDDY_MAX_ORDER || pages[p].invalid || pages[p].free) ==>
      && IsLive(b, p, pages[p].order) && pages[p].count == 1 && pages[p].pfn == p
      && (pages[p].order > 0 ==> p % 2 == 0)
  {
    hide GoodLists, ListsIn, IsList, FreeTotal;
    assert Describes(b, p, pages[p]);
    if p in b.blocks {
      assert Within(p, p, b.blocks[p].order);
      LiveEven(p, b.blocks[p].order);
    }
  }

  lemma {:induction false} LiveEven(p: nat, k: Order)
    requires Rem(p, k) == 0
    ensures k > 0 ==> p % 2 == 0
    decreases k
  {
    if k > 1 {
      RemHalf(p, k - 1);
      LiveEven(p, k - 1);
    }
  }

  lemma SoundMeans(b: Buddy, m: Mem, maps: Addr, pages: seq<Page>, counts: seq<int>, freePages: int)
    requires Sound(b, m, maps, pages, counts, freePages)
    ensures |b.lists| == BUDDY_MAX_ORDER + 1 && |counts| == BUDDY_MAX_ORDER + 1 && Valid(b)
    ensures forall k: Order :: counts[k] == |b.lists[k]|
  {
  }

  lemma SplitPagesIs(pages: seq<Page>, p: nat, q: nat, k: Order)
    requires p < |pages| && q < |pages|
    ensures var pages1 := pages[p := pages[p].(order := k, free := true, count := 0)];
      SplitPages(pages, p, q, k) == pages1[q := pages1[q].(order := k, free := true, count := 0)]
  {
  }

  /** The page that holds a list node. */
  function PageOfNode(a: Addr): nat {
    a / 512
  }

  /** What split_block finds at the back of the list. */
  lemma SplitFinds(b: Buddy, m: Mem, maps: Addr, pages: seq<Page>, counts: seq<int>, freePages: int, k: Order)
    requires Sound(b, m, maps, pages, counts, freePages) && k > 0 && |b.lists| == BUDDY_MAX_ORDER + 1
    requires |b.lists[k]| > 0
    requires |pages| < 0x800_0000
    ensures Room(m, Head(maps, k)) && IsList(m, Head(maps, k), Nodes(b.lists[k]))
    ensures |Nodes(b.lists[k])| > 0 && PageOfNode(Nodes(b.lists[k])[|Nodes(b.lists[k])| - 1]) == Back(b, k)
    ensures Xor(Back(b, k), Pow2(k - 1)) == Back(b, k) + Size(k - 1) && Back(b, k) + Size(k - 1) < |pages|
    ensures Size(k - 1) > 0
  {
    hide Rem, GoodBlocks, GoodLists, FreeTotal, Describes, BlocksUsable, SparesOthers, TakeLast, Split, Xor, BuddyOf,
         Lower, Loose, Apart, HeadsAvoid, IsList, FreePage;
    SplitMemory(b, m, maps, k);
    PopMemory(b, m, maps, k);
    FreeAligned(b, Back(b, k), k);
    SizeUp(k - 1);
    RemHalf(Back(b, k), k - 1);
    BuddyBits(Back(b, k), k - 1);
  }

  /** Everything the later statements of split_block need, p and q being the two halves. */
  lemma SplitFacts(b: Buddy, m: Mem, maps: Addr, pages: seq<Page>, counts: seq<int>, freePages: int, k: Order,
                   p: nat, q: nat, o: Order)
    requires Sound(b, m, maps, pages, counts, freePages) && k > 0 && |b.lists| == BUDDY_MAX_ORDER + 1
    requires |b.lists[k]| > 0
    requires |pages| < 0x800_0000
    requires o == k - 1 && p == Back(b, k) && q == p + Size(o)
    ensures |counts| == BUDDY_MAX_ORDER + 1 && p < |pages| && q < |pages| && Room(m, Head(maps, k))
    ensures |PopBack(b, k).lists| == BUDDY_MAX_ORDER + 1 && |Enlist(PopBack(b, k), p, o).lists| == BUDDY_MAX_ORDER + 1
    ensures CanEnlist(PopBack(b, k), TakeLast(m, Head(maps, k)), maps, p, o)
    ensures Room(TakeLast(m, Head(maps, k)), Node(p)) && Room(TakeLast(m, Head(maps, k)), Head(maps, o))
    ensures CanEnlist(Enlist(PopBack(b, k), p, o), AddFront(TakeLast(m, Head(maps, k)), Node(p), Head(maps, o)), maps,
      q, o)
    ensures var m1 := AddFront(TakeLast(m, Head(maps, k)), Node(p), Head(maps, o));
      Room(m1, Node(q)) && Room(m1, Head(maps, o)) && SplitMem(b, m, maps, k) == AddFront(m1, Node(q), Head(maps, o))
    ensures Sound(Split(b, k), SplitMem(b, m, maps, k), maps, SplitPages(pages, p, q, o),
               counts[k := counts[k] - 1][o := counts[o] + 2], freePages)
  {
    hide Size, Rem, GoodBlocks, GoodLists, ListsIn, Layout, FreeTotal, Describes, BlocksUsable, SparesOthers, AddFront,
         TakeLast, Split, SplitPages, Xor, BuddyOf, Lower, Loose, Apart, HeadsAvoid, IsList;
    SplitSound(b, m, maps, pages, counts, freePages, k);
    SplitMemory(b, m, maps, k);
    PopMemory(b, m, maps, k);
    var c0, m0 := PopBack(b, k), TakeMem(m, maps, k);
    SplitLoose(c0, p, o);
    EnlistMemory(c0, m0, maps, p, o);
    EnlistMemory(Enlist(c0, p, o), EnlistMem(m0, maps, p, o), maps, q, o);
  }

  /** The block's node can be added to its list. */
  ghost predicate CanEnlist(b: Buddy, m: Mem, maps: Addr, p: nat, k: Order)
    requires |b.lists| == BUDDY_MAX_ORDER + 1
  {
    && Room(m, Node(p)) && Room(m, Head(maps, k)) && IsList(m, Head(maps, k), Nodes(b.lists[k]))
    && forall i :: 0 <= i < |Nodes(b.lists[k])| + 1 ==> Apart(Node(p), ([Head(maps, k)] + Nodes(b.lists[k]))[i])
  }

  lemma CanEnlistMeans(b: Buddy, m: Mem, maps: Addr, p: nat, k: Order)
    requires |b.lists| == BUDDY_MAX_ORDER + 1 && CanEnlist(b, m, maps, p, k)
    ensures Room(m, Node(p)) && Room(m, Head(maps, k)) && IsList(m, Head(maps, k), Nodes(b.lists[k]))
    ensures forall i :: 0 <= i < |Nodes(b.lists[k])| + 1 ==> Apart(Node(p), ([Head(maps, k)] + Nodes(b.lists[k]))[i])
    ensures Node(p) + 1 < |m|
  {
  }

  /** What palloc finds at the back of a list, and the state after handing it out. */
  lemma TakeFinds(b: Buddy, m: Mem, maps: Addr, pages: seq<Page>, counts: seq<int>, freePages: int, k: Order)
    requires Sound(b, m, maps, pages, counts, freePages) && |b.lists| == BUDDY_MAX_ORDER + 1 && |b.lists[k]| > 0
    ensures Room(m, Head(maps, k)) && IsList(m, Head(maps, k), Nodes(b.lists[k])) && |counts| == BUDDY_MAX_ORDER + 1
    ensures |Nodes(b.lists[k])| > 0 && PageOfNode(Nodes(b.lists[k])[|Nodes(b.lists[k])| - 1]) == Back(b, k)
    ensures Back(b, k) < |pages| && pages[Back(b, k)].pfn == Back(b, k)
    ensures 512 * (Back(b, k) + Size(k)) <= |m| && Pow2(k) == Size(k)
  {
    hide Size, Rem, GoodBlocks, GoodLists, FreeTotal, Describes, BlocksUsable, SparesOthers, TakeLast, Loose, Apart,
         HeadsAvoid, IsList, FreePage;
    PopMemory(b, m, maps, k);
    TakeSound(b, m, maps, pages, counts, freePages, k, false);
    SmallPowers(k);
  }

  lemma TakeFacts(b: Buddy, m: Mem, maps: Addr, pages: seq<Page>, counts: seq<int>, freePages: int, k: Order,
                  zero: bool, p: nat)
    requires Sound(b, m, maps, pages, counts, freePages) && |b.lists| == BUDDY_MAX_ORDER + 1 && |b.lists[k]| > 0
    requires p == Back(b, k)
    ensures p < |pages| && |counts| == BUDDY_MAX_ORDER + 1
    ensures Sound(Take(b, k), HandOut(m, maps, p, k, zero), maps,
               pages[p := pages[p].(free := false, order := k, count := 1)], counts[k := counts[k] - 1],
                 freePages - Size(k))
    ensures Room(m, Head(maps, k)) ==>
      HandOut(m, maps, p, k, zero) == if zero then ZeroRun(TakeLast(m, Head(maps, k)), p, k) else TakeLast(m,
        Head(maps, k))
  {
    TakeSound(b, m, maps, pages, counts, freePages, k, zero);
  }

  /** palloc when its list has a block. */
  lemma AllocNow(b: Buddy, m: Mem, maps: Addr, order: int, zero: bool)
    requires |b.lists| == BUDDY_MAX_ORDER + 1
    ensures 0 <= order <= BUDDY_MAX_ORDER && |b.lists[order]| > 0 ==>
      && Alloc(b, order) == (Take(b, order), Got(Back(b, order)))
      && PallocMem(b, m, maps, order, zero) == HandOut(m, maps, Back(b, order), order, zero)
    ensures order > BUDDY_MAX_ORDER || order < 0 ==>
      Alloc(b, order) == (b, Null) && PallocMem(b, m, maps, order, zero) == m
    ensures order == BUDDY_MAX_ORDER && b.lists[order] == [] ==>
      Alloc(b, order) == (b, Null) && PallocMem(b, m, maps, order, zero) == m
  {
  }

  /** palloc when it has to split first. */
  lemma AllocSplit(b: Buddy, m: Mem, maps: Addr, order: Order, zero: bool, o: nat)
    requires |b.lists| == BUDDY_MAX_ORDER + 1 && order < BUDDY_MAX_ORDER && b.lists[order] == []
    requires o == FirstFree(b.lists, order + 1)
    ensures o > BUDDY_MAX_ORDER ==> Alloc(b, order) == (b, Panic) && PallocMem(b, m, maps, order, zero) == m
    ensures o <= BUDDY_MAX_ORDER ==>
      var c, m1 := Split(b, o), SplitMem(b, m, maps, o);
      && |c.lists| == BUDDY_MAX_ORDER + 1
      && (|c.lists[order]| > 0 ==>
            && Alloc(b, order) == (Take(c, order), Got(Back(c, order)))
            && PallocMem(b, m, maps, order, zero) == HandOut(m1, maps, Back(c, order), order, zero))
      && (c.lists[order] == [] ==> Alloc(b, order) == (c, Null) && PallocMem(b, m, maps, order, zero) == m1)
  {
  }

  lemma AndOne(p: nat, k: Order)
    ensures And(p, 0) == 0 && And(p, 1) == p % 2 && (Pow2(k) == 1 <==> k == 0)
  {
    SmallPowers(k);
    assert Pow2(1) == 2;
    AndLow(p, 1);
  }

  lemma OutOfRange(b: Buddy, m: Mem, maps: Addr, pages: seq<Page>, counts: seq<int>, freePages: int, p: nat)
    requires Sound(b, m, maps, pages, counts, freePages)
    ensures |b.lists| == BUDDY_MAX_ORDER + 1 && (p >= |pages| ==> Release(b, p) == b)
  {
  }

  // ----------------------------------------------------------- initialization

  const REGION_TYPE_RAM := 0

  /** struct bootmem_region */
  datatype Region = Region(start: Word, end: Word, kind: int)

  /** The first page of a region: its start rounded up, page 0 skipped. */
  function RunStart(r: Region): nat {
    if (r.start + 4095) / 4096 == 0 then 1 else (r.start + 4095) / 4096
  }

  function RunEnd(r: Region): nat {
    r.end / 4096
  }

  predicate InRun(r: Region, i: nat) {
    r.kind == REGION_TYPE_RAM && RunStart(r) <= i < RunEnd(r)
  }

  /** Page i starts inside the kernel image, both ends included. */
  predicate KernelPage(kernelStart: Word, kernelEnd: Word, i: nat) {
    kernelStart <= 4096 * i <= kernelEnd
  }

  ghost predicate InRuns(regions: seq<Region>, i: nat) {
    exists j :: 0 <= j < |regions| && InRun(regions[j], i)
  }

  /** RAM regions end within the managed pages and share no page. */
  ghost predicate GoodRegions(regions: seq<Region>, n: nat) {
    && (forall j :: 0 <= j < |regions| && regions[j].kind == REGION_TYPE_RAM ==> RunEnd(regions[j]) <= n)
    && (forall j, k, i: nat :: 0 <= j < k < |regions| && InRun(regions[j], i) ==> !InRun(regions[k], i))
  }

  /** The state after init_palloc has gone through the first j regions, and through the
      next one up to page pg. */
  ghost predicate InitDone(b: Buddy, regions: seq<Region>, kernelStart: Word, kernelEnd: Word, j: nat, pg: nat) {
    && Valid(b) && Coalesced(b) && (forall i: nat :: !LivePage(b, i))
    && forall i: nat :: FreePage(b, i) <==>
         !KernelPage(kernelStart, kernelEnd, i)
         && (InRuns(regions[..if j < |regions| then j else |regions|], i)
           || (j < |regions| && InRun(regions[j], i) && i < pg))
  }

  const NO_LISTS: seq<seq<nat>> := [[], [], [], [], [], [], [], [], []]

  lemma InitStart(n: nat, regions: seq<Region>, kernelStart: Word, kernelEnd: Word)
    ensures InitDone(Buddy(map[], NO_LISTS, n), regions, kernelStart, kernelEnd, 0, 0)
  {
    var b := Buddy(map[], NO_LISTS, n);
    assert forall k: Order :: b.lists[k] == [];
    forall i: nat
      ensures !FreePage(b, i) && !LivePage(b, i)
    {
      assert forall p: nat, k: Order :: !IsFree(b, p, k) && !IsLive(b, p, k);
    }
  }

  lemma InitNextRegion(b: Buddy, regions: seq<Region>, kernelStart: Word, kernelEnd: Word, j: nat, pg: nat)
    requires InitDone(b, regions, kernelStart, kernelEnd, j, pg) && j < |regions|
    requires regions[j].kind == REGION_TYPE_RAM ==> pg >= RunEnd(regions[j])
    ensures InitDone(b, regions, kernelStart, kernelEnd, j + 1, 0)
  {
    hide Valid, Coalesced, LivePage, FreePage, RunStart, RunEnd;
    var r := regions[..j + 1];
    forall i: nat
      ensures InRuns(r, i) <==> InRuns(regions[..j], i) || InRun(regions[j], i)
    {
      if InRuns(r, i) {
        var x :| 0 <= x < |r| && InRun(r[x], i);
        assert x < j ==> regions[..j][x] == r[x];
      }
      if InRuns(regions[..j], i) {
        var x :| 0 <= x < j && InRun(regions[..j][x], i);
        assert r[x] == regions[..j][x];
      }
      if InRun(regions[j], i) {
        assert InRun(r[j], i);
      }
    }
    assert regions[..|regions|] == regions;
    InRunEnds(regions[j]);
  }

  lemma InRunEnds(r: Region)
    ensures forall i: nat :: InRun(r, i) ==> r.kind == REGION_TYPE_RAM && i < RunEnd(r)
  {
  }

  /** A page no region has given yet is loose. */
  lemma InitLoose(b: Buddy, regions: seq<Region>, kernelStart: Word, kernelEnd: Word, j: nat, pg: nat)
    requires InitDone(b, regions, kernelStart, kernelEnd, j, pg) && j < |regions| && GoodRegions(regions, b.n)
    requires InRun(regions[j], pg)
    ensures pg < b.n && Loose(b, pg, 0)
  {
    forall x | 0 <= x < j
      ensures !InRun(regions[..j][x], pg)
    {
      assert regions[..j][x] == regions[x];
    }
    assert !FreePage(b, pg) && !LivePage(b, pg);
    forall q | q in b.blocks && 0 <= b.blocks[q].order <= BUDDY_MAX_ORDER
      ensures Disjoint(pg, 0, q, b.blocks[q].order)
    {
      var k: Order := b.blocks[q].order;
      assert IsFree(b, q, k) || IsLive(b, q, k);
      assert !Within(pg, q, k);
    }
  }

  /** Freeing it gives it. */
  lemma InitFreed(b: Buddy, regions: seq<Region>, kernelStart: Word, kernelEnd: Word, j: nat, pg: nat)
    requires InitDone(b, regions, kernelStart, kernelEnd, j, pg) && j < |regions| && InRun(regions[j], pg)
    requires Loose(b, pg, 0)
    ensures KernelPage(kernelStart, kernelEnd, pg) ==> InitDone(b, regions, kernelStart, kernelEnd, j, pg + 1)
    ensures !KernelPage(kernelStart, kernelEnd, pg) ==>
      |b.lists| == BUDDY_MAX_ORDER + 1 && InitDone(Free(b, pg, 0), regions, kernelStart, kernelEnd, j, pg + 1)
  {
    hide Valid, Coalesced, LivePage, FreePage, IsLive, RunStart, RunEnd, Free, Loose, FreeTotal, InRuns, GoodBlocks;
    if !KernelPage(kernelStart, kernelEnd, pg) {
      ListsOf(b);
      FreeKeeps(b, pg, 0);
      SameLivePages(b, Free(b, pg, 0));
      assert forall i: nat :: Within(i, pg, 0) <==> i == pg;
    }
  }

  /** A page about to be given, its descriptor's invalid bit cleared, is a floating block. */
  lemma InitFloats(b: Buddy, m: Mem, maps: Addr, pages: seq<Page>, counts: seq<int>, freePages: int, p: nat)
    requires Sound(b, m, maps, pages, counts, freePages) && Loose(b, p, 0) && p < |pages|
    ensures Sound(b, m, maps, pages[p := pages[p].(invalid := false)], counts, freePages)
    ensures Foreign(maps, p) ==>
      Floating(b, m, maps, pages[p := pages[p].(invalid := false)], counts, freePages, 0, p, 0)
  {
    hide GoodLists, ListsIn, IsList, FreeTotal, Rem;
    LooseIsNew(b, p, 0);
    assert Describes(b, p, pages[p]);
  }

  /** For an image that starts on a page boundary these are exactly the pages that hold a byte of it. */
  lemma KernelPageIs(kernelStart: Word, kernelEnd: Word, i: nat)
    requires kernelStart % 4096 == 0
    ensures !KernelPage(kernelStart, kernelEnd, i) <==> 4096 * i + 4096 <= kernelStart || 4096 * i > kernelEnd
  {
  }

  /** The pages of the RAM regions: those that lie in one as a whole, but for page 0. */
  lemma InRunsAre(regions: seq<Region>, i: nat)
    ensures InRuns(regions, i) <==>
      i != 0 && exists j :: 0 <= j < |regions| && regions[j].kind == 0
                     && regions[j].start <= 4096 * i && 4096 * i + 4096 <= regions[j].end
  {
    forall j | 0 <= j < |regions|
      ensures InRun(regions[j], i) <==>
        i != 0 && regions[j].kind == 0 && regions[j].start <= 4096 * i && 4096 * i + 4096 <= regions[j].end
    {
      RunOf(regions[j], i);
    }
  }

  lemma RunOf(r: Region, i: nat)
    ensures InRun(r, i) <==> i != 0 && r.kind == 0 && r.start <= 4096 * i && 4096 * i + 4096 <= r.end
  {
  }

  /** Page frames holding list heads lie in the kernel image. */
  lemma KernelHoldsHeads(maps: Addr, kernelStart: Word, kernelEnd: Word, p: nat)
    requires kernelStart % 4096 == 0 && kernelStart <= 8 * maps && 8 * (maps + MAPS_WORDS) <= kernelEnd + 1
    requires !KernelPage(kernelStart, kernelEnd, p)
    ensures Foreign(maps, p)
  {
  }

  lemma InitSound(m: Mem, maps: Addr, n: nat, pages: seq<Page>, counts: seq<int>)
    requires 512 * n <= |m| <= DIRECT_WORDS && maps + MAPS_WORDS <= |m| && |pages| == n
    requires forall i: nat :: i < n ==> pages[i] == Page(0, -1, false, true, i)
    requires |counts| == BUDDY_MAX_ORDER + 1 && forall k: Order :: counts[k] == 0
    requires forall k: Order :: IsList(m, Head(maps, k), [])
    ensures Sound(Buddy(map[], NO_LISTS, n), m, maps, pages, counts, 0)
  {
    var b := Buddy(map[], NO_LISTS, n);
    assert forall k: Order :: b.lists[k] == [] && Nodes(b.lists[k]) == [];
  }

  lemma SoundSize(b: Buddy, m: Mem, maps: Addr, pages: seq<Page>, counts: seq<int>, freePages: int)
    requires Sound(b, m, maps, pages, counts, freePages)
    ensures b.n == |pages| && |b.lists| == BUDDY_MAX_ORDER + 1
  {
  }

  /** Pages before the first of a region are not in it. */
  lemma InitSkip(b: Buddy, regions: seq<Region>, kernelStart: Word, kernelEnd: Word, j: nat, start: nat)
    requires InitDone(b, regions, kernelStart, kernelEnd, j, 0) && j < |regions| && start == RunStart(regions[j])
    ensures InitDone(b, regions, kernelStart, kernelEnd, j, start)
  {
    hide Valid, Coalesced, LivePage, FreePage, InRuns;
  }

  /** palloc in terms of the pages that are free. */
  lemma AllocPages(b: Buddy, order: int)
    requires Valid(b) && |b.lists| == BUDDY_MAX_ORDER + 1
    ensures var (c, r) := Alloc(b, order);
      && (r.Got? ==>
            && 0 <= order <= 8 && r.p % Pow2(order) == 0 && r.p + Pow2(order) <= b.n
            && (forall i :: r.p <= i < r.p + Pow2(order) ==> FreePage(b, i))
            && (forall i: nat :: FreePage(c, i) <==> FreePage(b, i) && !(r.p <= i < r.p + Pow2(order))))
      && (!r.Got? ==> forall i: nat :: FreePage(c, i) <==> FreePage(b, i))
  {
    hide Alloc, FreePage, Pow2, GoodLists, Coalesced, FreeTotal, Size, Rem;
    PallocKeeps(b, order);
    var (c, r) := Alloc(b, order);
    if r.Got? {
      SmallPowers(order);
      RemMod(r.p, order);
      assert IsLive(c, r.p, order);
    }
  }

  /** pfree likewise. */
  lemma ReleasePages(b: Buddy, p: nat)
    requires Valid(b) && |b.lists| == BUDDY_MAX_ORDER + 1
    ensures forall i: nat :: FreePage(Release(b, p), i) <==>
      FreePage(b, i) || exists k: Order :: IsLive(b, p, k) && p <= i < p + Size(k)
  {
    hide Valid, FreePage, Release, FreeTotal, Coalesced, Size;
    PfreeKeeps(b, p);
    if k: Order :| IsLive(b, p, k) {
      assert forall j: Order :: IsLive(b, p, j) ==> j == k;
    }
  }

  lemma InitFree(b: Buddy, regions: seq<Region>, kernelStart: Word, kernelEnd: Word)
    requires InitDone(b, regions, kernelStart, kernelEnd, |regions|, 0) && kernelStart % 4096 == 0
    ensures forall i: nat :: FreePage(b, i) <==>
      && i != 0 && (4096 * i + 4096 <= kernelStart || 4096 * i > kernelEnd)
      && exists j :: 0 <= j < |regions| && regions[j].kind == 0
                  && regions[j].start <= 4096 * i && 4096 * i + 4096 <= regions[j].end
  {
    hide Valid, Coalesced, FreePage, LivePage, InRuns, KernelPage;
    assert regions[..|regions|] == regions;
    forall i: nat
      ensures InRuns(regions, i) <==>
        i != 0 && exists j :: 0 <= j < |regions| && regions[j].kind == 0
                     && regions[j].start <= 4096 * i && 4096 * i + 4096 <= regions[j].end
      ensures !KernelPage(kernelStart, kernelEnd, i) <==> 4096 * i + 4096 <= kernelStart || 4096 * i > kernelEnd
    {
      InRunsAre(regions, i);
      KernelPageIs(kernelStart, kernelEnd, i);
    }
  }

  // ----------------------------------------------------------------- the class

  /** The allocator: memory, the address of its list heads, its descriptors and counters,
      and the blocks they stand for. */
  class BuddyAllocator {
    const ram: array<Word>
    const maps: Addr               // address of maps[0].list
    const pages: array<Page>
    const freeCount: array<int>    // maps[k].free_count
    var freePages: int
    ghost var blocks: Buddy

    ghost predicate Ok()
      reads this, ram, pages, freeCount
    {
      pages.Length < 0x800_0000 && Sound(blocks, ram[..], maps, pages[..], freeCount[..], freePages)
    }

    /** init_palloc: every page starts invalid and in no block; then the pages of RAM
        regions are freed one by one, except page 0 and the kernel image. */
    constructor (ram: array<Word>, maps: Addr, n: nat, regions: seq<Region>, kernelStart: Word, kernelEnd: Word)
      requires n < 0x800_0000 && 512 * n <= ram.Length <= DIRECT_WORDS && maps + MAPS_WORDS <= ram.Length
      requires kernelStart % 4096 == 0 && kernelStart <= 8 * maps && 8 * (maps + MAPS_WORDS) <= kernelEnd + 1
      requires GoodRegions(regions, n)
      modifies ram
      ensures Ok() && this.ram == ram && this.maps == maps && pages.Length == n && fresh(pages) && fresh(freeCount)
      ensures Valid(blocks) && Coalesced(blocks) && blocks.n == n && (forall i: nat :: !LivePage(blocks, i))
      // Free is every page but page 0 that lies in a RAM region as a whole and holds no byte of the
      // kernel image, the byte at its end included.
      ensures forall i: nat :: FreePage(blocks, i) <==>
        && i != 0 && (4096 * i + 4096 <= kernelStart || 4096 * i > kernelEnd)
        && exists j :: 0 <= j < |regions| && regions[j].kind == 0
                    && regions[j].start <= 4096 * i && 4096 * i + 4096 <= regions[j].end
    {
      this.ram := ram;
      this.maps := maps;
      pages := new Page[n](i => Page(0, -1, false, true, i));
      freeCount := new int[BUDDY_MAX_ORDER + 1](_ => 0);
      freePages := 0;
      blocks := Buddy(map[], NO_LISTS, n);
      new;
      InitLists();
      InitSound(ram[..], maps, n, pages[..], freeCount[..]);
      SoundIsOk(blocks, ram[..], pages[..], freeCount[..], freePages);
      InitStart(n, regions, kernelStart, kernelEnd);
      for j := 0 to |regions|
        invariant Ok() && blocks.n == n && InitDone(blocks, regions, kernelStart, kernelEnd, j, 0)
      {
        InitRegion(regions, kernelStart, kernelEnd, j);
      }
      assert regions[..|regions|] == regions;
      InitFree(blocks, regions, kernelStart, kernelEnd);
    }

    /** list_head_init of the nine lists */
    method InitLists()
      requires maps + MAPS_WORDS <= ram.Length <= DIRECT_WORDS
      modifies ram
      ensures forall k: Order :: IsList(ram[..], Head(maps, k), [])
    {
      for k := 0 to BUDDY_MAX_ORDER + 1
        invariant forall j: Order :: j < k ==> IsList(ram[..], Head(maps, j), [])
      {
        ghost var m := ram[..];
        ListHeadInit(ram, Head(maps, k));
        forall j: Order | j < k
          ensures IsList(ram[..], Head(maps, j), [])
        {
          HeadKept(m, ram[..], maps, j, k);
        }
      }
    }

    lemma HeadKept(m: Mem, m': Mem, maps: Addr, j: Order, k: Order)
      requires maps + MAPS_WORDS <= |m| <= DIRECT_WORDS && j != k && IsList(m, Head(maps, j), [])
      requires Room(m, Head(maps, k))
      requires m' == SetPrev(SetNext(m, Head(maps, k), Head(maps, k)), Head(maps, k), Head(maps, k))
      ensures IsList(m', Head(maps, j), [])
    {
      ListFrame(m, m', Head(maps, j), []);
    }

    /** One region of init_palloc. */
    method InitRegion(regions: seq<Region>, kernelStart: Word, kernelEnd: Word, j: nat)
      requires Ok() && j < |regions| && GoodRegions(regions, blocks.n)
      requires kernelStart % 4096 == 0 && kernelStart <= 8 * maps && 8 * (maps + MAPS_WORDS) <= kernelEnd + 1
      requires InitDone(blocks, regions, kernelStart, kernelEnd, j, 0)
      modifies this`freePages, this`blocks, ram, pages, freeCount
      ensures Ok() && blocks.n == old(blocks.n) && InitDone(blocks, regions, kernelStart, kernelEnd, j + 1, 0)
    {
      hide Ok, InitDone, GoodRegions, Loose, Free, Sound, Floating, Foreign;
      var r := regions[j];
      if r.kind != REGION_TYPE_RAM {
        InitNextRegion(blocks, regions, kernelStart, kernelEnd, j, 0);
        return;
      }
      var start, end := RunStart(r), RunEnd(r);
      InitSkip(blocks, regions, kernelStart, kernelEnd, j, start);
      var pfn := start;
      while pfn < end
        invariant start <= pfn && Ok() && blocks.n == old(blocks.n)
        invariant InitDone(blocks, regions, kernelStart, kernelEnd, j, pfn)
      {
        ghost var b, m, ps, cs, f := blocks, ram[..], pages[..], freeCount[..], freePages;
        OkIsSound();
        InitLoose(b, regions, kernelStart, kernelEnd, j, pfn);
        SoundSize(b, m, maps, ps, cs, f);
        pages[pfn] := pages[pfn].(invalid := false);
        InitFloats(b, m, maps, ps, cs, f, pfn);
        InitFreed(b, regions, kernelStart, kernelEnd, j, pfn);
        SoundIsOk(b, m, ps[pfn := ps[pfn].(invalid := false)], cs, f);
        KernelPageIs(kernelStart, kernelEnd, pfn);
        FreeSinglePage(pfn, kernelStart, kernelEnd);
        pfn := pfn + 1;
      }
      InitNextRegion(blocks, regions, kernelStart, kernelEnd, j, pfn);
    }

    /** __free_single_page */
    method FreeSinglePage(pg: nat, kernelStart: Word, kernelEnd: Word)
      requires Ok() && pg < pages.Length && |blocks.lists| == BUDDY_MAX_ORDER + 1
      requires kernelStart % 4096 == 0 && kernelStart <= 8 * maps && 8 * (maps + MAPS_WORDS) <= kernelEnd + 1
      requires Foreign(maps, pg) ==>
        Floating(blocks, ram[..], maps, pages[..], freeCount[..], freePages, 0, pg, 0)
      modifies this`freePages, this`blocks, ram, pages, freeCount
      ensures Ok() && blocks.n == old(blocks.n)
      // A page that holds a byte of the kernel image is refused, any other is freed.
      ensures blocks == if 4096 * pg + 4096 <= kernelStart || 4096 * pg > kernelEnd
                        then Free(old(blocks), pg, 0) else old(blocks)
    {
      hide Sound, Floating, Free;
      if 4096 * pg >= kernelStart && 4096 * pg <= kernelEnd {
        return;
      }
      KernelPageIs(kernelStart, kernelEnd, pg);
      KernelHoldsHeads(maps, kernelStart, kernelEnd, pg);
      FloatingMeans(blocks, ram[..], maps, pages[..], freeCount[..], freePages, 0, pg, 0);
      FreeKeeps(blocks, pg, 0);
      FreeBlock(pg, 0);
    }

    /** page_from_pn */
    method PageFromPn(pn: nat) returns (p: Option<nat>)
      ensures p == if pn < pages.Length then Some(pn) else None
    {
      if pn >= pages.Length {
        return None;
      }
      return Some(pn);
    }

    /** __allocator_free_block: give back a block that is on no list, merging it with its
        buddy while the buddy is free. */
    method FreeBlock(page: nat, order: Order)
      requires pages.Length < 0x800_0000
      requires Floating(blocks, ram[..], maps, pages[..], freeCount[..], freePages, 0, page, order)
      modifies this`freePages, this`blocks, ram, pages, freeCount
      ensures Ok() && blocks == Free(old(blocks), page, order)
      ensures SparesOthers(blocks, old(ram[..]), ram[..], maps)
    {
      hide *;
      var pg: nat, k: Order := page, order;
      ghost var missing := 0;
      ghost var b0, m0 := blocks, ram[..];
      FloatingMeans(b0, m0, maps, pages[..], freeCount[..], freePages, 0, page, order);
      NothingWritten(Free(b0, page, order), m0, maps);
      while k < BUDDY_MAX_ORDER
        invariant Floating(blocks, ram[..], maps, pages[..], freeCount[..], freePages, missing, pg, k)
        invariant |blocks.lists| == BUDDY_MAX_ORDER + 1 && Free(blocks, pg, k) == Free(b0, page, order)
        invariant SparesOthers(Free(b0, page, order), m0, ram[..], maps)
        invariant missing + Size(order) == Size(k)
        decreases BUDDY_MAX_ORDER - k
      {
        ghost var b, m, ps, cs := blocks, ram[..], pages[..], freeCount[..];
        FloatingMeans(b, m, maps, ps, cs, freePages, missing, pg, k);
        MergeTest(b, m, maps, ps, cs, freePages, missing, pg, k);
        var buddy := PageFromPn(Xor(pg, Pow2(k)));
        if buddy.None? || pages[buddy.value].order != k || pages[buddy.value].invalid || !pages[buddy.value].free {
          break;
        }
        var q := buddy.value;
        ghost var j := MergeFacts(b, pg, k);
        MergeRound(b, m0, m, maps, ps, cs, freePages, missing, pg, k, j);
        FloatingInMemory(b, m, maps, ps, cs, freePages, missing, pg, k);
        UnlistNode(b, m, maps, pg, k, j);
        ListDel(ram, Node(q), Head(maps, k), Nodes(blocks.lists[k]), j);
        pages[q] := pages[q].(free := false);
        freeCount[k] := freeCount[k] - 1;
        pg := And(pg, Not(Pow2(k)));
        var up := Xor(pg, Pow2(k));
        pages[up] := pages[up].(order := -1);
        AbsorbIs(ps, q, up);
        assert pages[..] == Absorb(ps, q, up) && freeCount[..] == cs[k := cs[k] - 1];
        blocks := Unlist(blocks, q, k);
        missing := missing + Size(k);
        k := k + 1;
      }
      ghost var b, m := blocks, ram[..];
      EnlistBlock(pg, k, order, missing);
      SparesTrans(blocks, blocks, m0, m, ram[..], maps);
    }

    /** The end of __allocator_free_block: the merged block at pg heads its list. */
    method EnlistBlock(pg: nat, k: Order, order: Order, ghost missing: int)
      requires pages.Length < 0x800_0000 && missing + Size(order) == Size(k)
      requires Floating(blocks, ram[..], maps, pages[..], freeCount[..], freePages, missing, pg, k)
      requires k == BUDDY_MAX_ORDER || !Merges(blocks, pg, k)
      modifies this`freePages, this`blocks, ram, pages, freeCount
      ensures Ok() && |old(blocks).lists| == BUDDY_MAX_ORDER + 1 && blocks == Free(old(blocks), pg, k)
      ensures SparesOthers(blocks, old(ram[..]), ram[..], maps)
    {
      hide *;
      ghost var b, m, ps, cs, f := blocks, ram[..], pages[..], freeCount[..], freePages;
      FloatingMeans(b, m, maps, ps, cs, f, missing, pg, k);
      EndOfLoop(b, m, maps, ps, cs, f, missing, pg, k);
      pages[pg] := pages[pg].(order := k);
      ListAdd(ram, Node(pg), Head(maps, k), Nodes(blocks.lists[k]));
      freeCount[k] := freeCount[k] + 1;
      pages[pg] := pages[pg].(free := true);
      SmallPowers(order);
      freePages := freePages + Pow2(order);
      blocks := Enlist(blocks, pg, k);
      SoundIsOk(Enlist(b, pg, k), AddFront(m, Node(pg), Head(maps, k)), ps[pg := ps[pg].(order := k, free := true)],
                cs[k := cs[k] + 1], f + Size(k) - missing);
    }

    /** split_block: one split of the smallest block of at least this order. */
    method SplitBlock(order: int) returns (panicked: bool)
      requires Ok()
      modifies this`blocks, ram, pages, freeCount
      ensures Ok() && freePages == old(freePages)
      ensures order > BUDDY_MAX_ORDER || order <= 0 ==> !panicked && blocks == old(blocks) && ram[..] == old(ram[..])
      ensures 0 < order <= BUDDY_MAX_ORDER ==>
        && |old(blocks).lists| == BUDDY_MAX_ORDER + 1
        && var o := FirstFree(old(blocks).lists, order);
        && (panicked <==> o > BUDDY_MAX_ORDER)
        && (panicked ==> blocks == old(blocks) && ram[..] == old(ram[..]))
        && (!panicked ==> blocks == Split(old(blocks), o) && ram[..] == SplitMem(old(blocks), old(ram[..]), maps, o))
    {
      if order > BUDDY_MAX_ORDER || order <= 0 {
        return false;
      }
      ghost var b, m, ps, cs := blocks, ram[..], pages[..], freeCount[..];
      SoundMeans(b, m, maps, ps, cs, freePages);
      var k: nat := order;
      while k <= BUDDY_MAX_ORDER && freeCount[k] == 0
        invariant order <= k <= BUDDY_MAX_ORDER + 1 && FirstFree(b.lists, order) == FirstFree(b.lists, k)
        decreases BUDDY_MAX_ORDER + 1 - k
      {
        k := k + 1;
      }
      if k > BUDDY_MAX_ORDER {
        return true;
      }
      SplitBlockAt(k);
      return false;
    }

    /** list_add of both halves of a split block. */
    method AddHalves(p: nat, q: nat, k: Order, ghost c: Buddy)
      requires |c.lists| == BUDDY_MAX_ORDER + 1 && |Enlist(c, p, k).lists| == BUDDY_MAX_ORDER + 1
      requires CanEnlist(c, ram[..], maps, p, k)
      requires CanEnlist(Enlist(c, p, k), AddFront(ram[..], Node(p), Head(maps, k)), maps, q, k)
      modifies ram
      ensures old(Room(ram[..], Node(p)) && Room(ram[..], Head(maps, k)))
      ensures old(Room(AddFront(ram[..], Node(p), Head(maps, k)), Node(q)))
      ensures old(Room(AddFront(ram[..], Node(p), Head(maps, k)), Head(maps, k)))
      ensures ram[..] == AddFront(AddFront(old(ram[..]), Node(p), Head(maps, k)), Node(q), Head(maps, k))
    {
      hide *;
      CanEnlistMeans(c, ram[..], maps, p, k);
      ListAdd(ram, Node(p), Head(maps, k), Nodes(c.lists[k]));
      CanEnlistMeans(Enlist(c, p, k), ram[..], maps, q, k);
      ListAdd(ram, Node(q), Head(maps, k), Nodes(Enlist(c, p, k).lists[k]));
    }

    /** The rest of split_block, once the order is found. */
    method SplitBlockAt(k: Order)
      requires Ok() && k > 0 && |blocks.lists| == BUDDY_MAX_ORDER + 1 && |blocks.lists[k]| > 0
      modifies this`blocks, ram, pages, freeCount
      ensures Ok() && freePages == old(freePages)
      ensures blocks == Split(old(blocks), k) && ram[..] == SplitMem(old(blocks), old(ram[..]), maps, k)
    {
      hide *;
      ghost var b, m, ps, cs := blocks, ram[..], pages[..], freeCount[..];
      OkIsSound();
      SplitFinds(b, m, maps, ps, cs, freePages, k);
      var head := ListTakeLast(ram, Head(maps, k), Nodes(b.lists[k]));
      var p := PageOfNode(head);
      freeCount[k] := freeCount[k] - 1;
      var order: Order := k - 1;
      var buddy := Xor(p, Pow2(order));
      SplitFacts(b, m, maps, ps, cs, freePages, k, p, buddy, order);
      pages[p] := pages[p].(order := order, free := true, count := 0);
      pages[buddy] := pages[buddy].(order := order, free := true, count := 0);
      SplitPagesIs(ps, p, buddy, order);
      AddHalves(p, buddy, order, PopBack(b, k));
      freeCount[order] := freeCount[order] + 2;
      blocks := Split(b, k);
      SoundIsOk(Split(b, k), SplitMem(b, m, maps, k), SplitPages(ps, p, buddy, order),
                cs[k := cs[k] - 1][order := cs[order] + 2], freePages);
    }

    /** The part of palloc after a block is known to be on the list. */
    method TakeBlock(k: Order, zero: bool) returns (r: Result)
      requires Ok() && |blocks.lists| == BUDDY_MAX_ORDER + 1 && |blocks.lists[k]| > 0
      modifies this`freePages, this`blocks, ram, pages, freeCount
      ensures Ok() && r == Got(Back(old(blocks), k)) && blocks == Take(old(blocks), k)
      ensures ram[..] == HandOut(old(ram[..]), maps, Back(old(blocks), k), k, zero)
    {
      hide *;
      ghost var b, m, ps, cs, f := blocks, ram[..], pages[..], freeCount[..], freePages;
      OkIsSound();
      TakeFinds(b, m, maps, ps, cs, f, k);
      var head := ListTakeLast(ram, Head(maps, k), Nodes(b.lists[k]));
      var p := PageOfNode(head);
      TakeFacts(b, m, maps, ps, cs, f, k, zero, p);
      freeCount[k] := freeCount[k] - 1;
      pages[p] := pages[p].(free := false);
      if pages[p].pfn != p {
        return Panic;
      }
      pages[p] := pages[p].(order := k);
      freePages := freePages - Pow2(k);
      pages[p] := pages[p].(count := 1);
      if zero {
        ZeroPages(p, k);
      }
      blocks := Take(b, k);
      SoundIsOk(Take(b, k), HandOut(m, maps, p, k, zero), ps[p := ps[p].(free := false, order := k, count := 1)],
                cs[k := cs[k] - 1], f - Size(k));
      return Got(p);
    }

    /** Clears the words of a block through the direct map. */
    method ZeroPages(p: nat, k: Order)
      requires 512 * (p + Size(k)) <= ram.Length
      modifies ram
      ensures ram[..] == ZeroRun(old(ram[..]), p, k)
    {
      ghost var m := ram[..];
      var lo, n := 512 * p, 512 * Size(k);
      for i := 0 to n
        invariant forall j :: 0 <= j < ram.Length ==> ram[j] == if lo <= j < lo + i then 0 else m[j]
      {
        ram[lo + i] := 0;
      }
      assert forall j :: 0 <= j < ram.Length ==> ram[..][j] == ZeroRun(m, p, k)[j];
    }

    /** palloc */
    method Palloc(order: int, zero: bool) returns (r: Result)
      requires Ok()
      modifies this`freePages, this`blocks, ram, pages, freeCount
      ensures Ok() && |old(blocks).lists| == BUDDY_MAX_ORDER + 1
      ensures (blocks, r) == Alloc(old(blocks), order)
      ensures ram[..] == PallocMem(old(blocks), old(ram[..]), maps, order, zero)
      // Every word of a block asked for with PALLOC_ZERO is 0.
      ensures zero && r.Got? ==>
        0 <= order <= 8 && forall x :: 512 * r.p <= x < 512 * (r.p + Pow2(order)) && x < ram.Length ==> ram[x] == 0
      // A block is aligned, all of it was free, and no other page stops being free.
      ensures r.Got? ==>
        && 0 <= order <= 8 && r.p % Pow2(order) == 0 && r.p + Pow2(order) <= pages.Length
        && (forall i :: r.p <= i < r.p + Pow2(order) ==> FreePage(old(blocks), i))
        && (forall i: nat :: FreePage(blocks, i) <==>
              FreePage(old(blocks), i) && !(r.p <= i < r.p + Pow2(order)))
      ensures !r.Got? ==> forall i: nat :: FreePage(blocks, i) <==> FreePage(old(blocks), i)
    {
      hide Ok, Alloc, PallocMem, HandOut, Take, Split, SplitMem, FirstFree, Sound, Valid, FreePage, Pow2;
      ghost var b, m := blocks, ram[..];
      OkIsSound();
      SoundMeans(b, m, maps, pages[..], freeCount[..], freePages);
      AllocNow(b, m, maps, order, zero);
      if zero {
        ComesCleared(b, m, maps, order);
      }
      AllocPages(b, order);
      if order > BUDDY_MAX_ORDER || order < 0 {
        return Null;
      }
      if freeCount[order] == 0 {
        var panicked := SplitBlock(order + 1);
        if order < BUDDY_MAX_ORDER {
          AllocSplit(b, m, maps, order, zero, FirstFree(b.lists, order + 1));
        }
        if panicked {
          return Panic;
        }
        OkIsSound();
        SoundMeans(blocks, ram[..], maps, pages[..], freeCount[..], freePages);
        if freeCount[order] == 0 {
          return Null;
        }
      }
      r := TakeBlock(order, zero);
    }

    /** pfree of the descriptor of page p, or of NULL.  It never panics. */
    method Pfree(page: Option<nat>) returns (panicked: bool)
      requires Ok() && (page.Some? ==> page.value < pages.Length)
      modifies this`freePages, this`blocks, ram, pages, freeCount
      ensures Ok() && !panicked && |old(blocks).lists| == BUDDY_MAX_ORDER + 1
      ensures blocks == if page.Some? then Release(old(blocks), page.value) else old(blocks)
      ensures SparesOthers(blocks, old(ram[..]), ram[..], maps)
      // The pages of the block that was handed out at that page are free again, and no others.
      ensures forall i: nat :: FreePage(blocks, i) <==>
        || FreePage(old(blocks), i)
        || (page.Some? && exists k: Order ::
              IsLive(old(blocks), page.value, k) && page.value <= i < page.value + Size(k))
    {
      hide Ok, Sound, SparesOthers, Release, IsLive, Floating, Free, FreePage;
      ghost var b, m, ps, cs, f := blocks, ram[..], pages[..], freeCount[..], freePages;
      OkIsSound();
      NothingWritten(b, m, maps);
      SoundMeans(b, m, maps, ps, cs, f);
      if page.Some? {
        ReleasePages(b, page.value);
      }
      if page.None? {
        return false;
      }
      var p := page.value;
      PfreeTest(b, m, maps, ps, cs, f, p);
      if pages[p].order < 0 || pages[p].order > BUDDY_MAX_ORDER || pages[p].invalid || pages[p].free {
        return false;
      }
      var order: Order := pages[p].order;
      // The comparison binds tighter than the mask, so only bit 0 is looked at.
      AndOne(pages[p].pfn, order);
      if And(pages[p].pfn, if Pow2(order) - 1 != 0 then 1 else 0) != 0 {
        return true;
      }
      if pages[p].count != 1 {
        return true;
      }
      pages[p] := pages[p].(count := 0);
      ReleaseFloats(b, m, maps, ps, cs, f, p, order);
      blocks := b.(blocks := b.blocks - {p});
      assert pages[..] == ps[p := ps[p].(count := 0)];
      FreeBlock(pages[p].pfn, order);
      return false;
    }

    /** vpfree: like pfree, except for the address just past the last page, which passes
        the range check and has no descriptor. */
    method Vpfree(p: Word) returns (panicked: bool)
      requires Ok()
      modifies this`freePages, this`blocks, ram, pages, freeCount
      ensures Ok() && |old(blocks).lists| == BUDDY_MAX_ORDER + 1
      ensures panicked <==> p == VASL_VIRTUAL_BASE + 4096 * pages.Length
      ensures blocks == if p >= VASL_VIRTUAL_BASE && p % 4096 == 0
                        then Release(old(blocks), (p - VASL_VIRTUAL_BASE) / 4096) else old(blocks)
      ensures SparesOthers(blocks, old(ram[..]), ram[..], maps)
    {
      hide Ok, Sound, SparesOthers, Release;
      ghost var b, m := blocks, ram[..];
      OkIsSound();
      NothingWritten(b, m, maps);
      if p >= VASL_VIRTUAL_BASE {
        OutOfRange(b, m, maps, pages[..], freeCount[..], freePages, (p - VASL_VIRTUAL_BASE) / 4096);
      }
      if p == 0 || p % 4096 != 0 || p < VASL_VIRTUAL_BASE || p > VASL_VIRTUAL_BASE + 4096 * pages.Length {
        return false;
      }
      var page := PageFromPn((p - VASL_VIRTUAL_BASE) / 4096);
      if page.None? {
        return true;
      }
      panicked := Pfree(page);
    }

    lemma OkIsSound()
      requires Ok()
      ensures pages.Length < 0x800_0000 && Sound(blocks, ram[..], maps, pages[..], freeCount[..], freePages)
      ensures |blocks.lists| == BUDDY_MAX_ORDER + 1 && freeCount.Length == BUDDY_MAX_ORDER + 1
    {
    }

    lemma SoundIsOk(b: Buddy, m: Mem, ps: seq<Page>, cs: seq<int>, f: int)
      requires Sound(b, m, maps, ps, cs, f) && pages.Length < 0x800_0000
      requires blocks == b && ram[..] == m && pages[..] == ps && freeCount[..] == cs && freePages == f
      ensures Ok()
    {
    }
  }
}
