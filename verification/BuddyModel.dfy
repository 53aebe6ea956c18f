/** The buddy allocator as a state machine over blocks: which blocks exist, which are
    free, and in which order the nine free lists hold them. */
module BuddyModel {
  import opened Bits
  import opened Sequences

  const BUDDY_MAX_ORDER := 8

  type Order = k: int | 0 <= k <= BUDDY_MAX_ORDER

  /** Pages in a block of order k. */
  function Size(k: Order): (n: nat)
    ensures n > 0
  {
    match k
    case 0 => 1
    case 1 => 2
    case 2 => 4
    case 3 => 8
    case 4 => 16
    case 5 => 32
    case 6 => 64
    case 7 => 128
    case 8 => 256
  }

  /** The low k bits of a page number; 0 for a block head of order k. */
  function Rem(p: nat, k: Order): (r: nat)
    ensures r < Size(k) && r <= p
  {
    match k
    case 0 => 0
    case 1 => p % 2
    case 2 => p % 4
    case 3 => p % 8
    case 4 => p % 16
    case 5 => p % 32
    case 6 => p % 64
    case 7 => p % 128
    case 8 => p % 256
  }

  /** The head of the block of order k + 1 around p, its lower half's head. */
  function Lower(p: nat, k: Order): nat
    requires k < BUDDY_MAX_ORDER
  {
    p - Rem(p, k + 1)
  }

  /** The other half. */
  function BuddyOf(p: nat, k: Order): nat
    requires k < BUDDY_MAX_ORDER
  {
    if Rem(p, k + 1) == 0 then p + Size(k) else p - Rem(p, k + 1)
  }

  lemma Halves(p: nat, k: Order)
    requires k < BUDDY_MAX_ORDER && Rem(p, k) == 0
    ensures Rem(p, k + 1) == 0 || Rem(p, k + 1) == Size(k)
    ensures Size(k + 1) == 2 * Size(k) && Rem(Lower(p, k), k + 1) == 0 && Rem(Lower(p, k), k) == 0
    ensures Rem(BuddyOf(p, k), k) == 0 && BuddyOf(BuddyOf(p, k), k) == p && BuddyOf(p, k) != p
    ensures Lower(p, k) == p || Lower(p, k) == BuddyOf(p, k)
    ensures Lower(p, k) + Size(k) == p || Lower(p, k) + Size(k) == BuddyOf(p, k)
    ensures Lower(BuddyOf(p, k), k) == Lower(p, k)
  {
    var s := Size(k);
    RemMod(p, k);
    RemMod(p, k + 1);
    HalvesOf(p, s);
    hide Size, Rem;
    var q := if p % (2 * s) == 0 then p + s else p - s;
    assert BuddyOf(p, k) == q;
    RemMod(q, k);
    RemMod(q, k + 1);
    var low := Lower(p, k);
    assert low == if p % (2 * s) == 0 then p else p - s;
    RemMod(low, k);
    RemMod(low, k + 1);
  }

  lemma RemMod(p: nat, k: Order)
    ensures Rem(p, k) == p % Size(k)
    ensures k < BUDDY_MAX_ORDER ==> Size(k + 1) == 2 * Size(k)
  {
  }

  lemma HalvesOf(p: nat, s: nat)
    requires s > 0 && p % s == 0
    ensures p % (2 * s) == 0 ==> (p + s) % s == 0 && (p + s) % (2 * s) == s
    ensures p % (2 * s) != 0 ==> p % (2 * s) == s <= p && (p - s) % s == 0 && (p - s) % (2 * s) == 0
    ensures p / s % 2 == 0 <==> p % (2 * s) == 0
  {
    var q := p / s;
    assert p == s * q;
    if q % 2 == 0 {
      EvenHalf(s, q / 2);
    } else {
      OddHalf(s, q / 2);
    }
  }

  /** An even multiple of s, and the multiple after it. */
  lemma EvenHalf(s: nat, h: nat)
    requires s > 0
    ensures var p := s * (2 * h);
      p % (2 * s) == 0 && (p + s) % s == 0 && (p + s) % (2 * s) == s
  {
    var p := s * (2 * h);
    assert p == (2 * s) * h && p + s == s * (2 * h + 1);
    DivUnique(p, 2 * s, h, 0);
    DivUnique(p + s, 2 * s, h, s);
    DivUnique(p + s, s, 2 * h + 1, 0);
  }

  /** An odd multiple of s, and the multiple before it. */
  lemma OddHalf(s: nat, h: nat)
    requires s > 0
    ensures var p := s * (2 * h + 1);
      s <= p && p % (2 * s) == s && (p - s) % s == 0 && (p - s) % (2 * s) == 0
  {
    var p := s * (2 * h + 1);
    assert p - s == s * (2 * h) == (2 * s) * h >= 0;
    DivUnique(p, 2 * s, h, s);
    DivUnique(p - s, 2 * s, h, 0);
    DivUnique(p - s, s, 2 * h, 0);
  }

  /** Flipping and clearing bit `order` of a block head give its buddy and the lower half. */
  lemma BuddyBits(p: Word, k: Order)
    requires k < BUDDY_MAX_ORDER && Rem(p, k) == 0
    ensures Pow2(k) == Size(k)
    ensures Xor(p, Pow2(k)) == BuddyOf(p, k)
    ensures And(p, Not(Pow2(k))) == Lower(p, k)
  {
    SmallPowers(k);
    WordPower();
    XorBit(p, k);
    AndClear(p, k, 64, Not(Pow2(k)));
    DigitOfRem(p, k);
  }

  lemma SmallPowers(k: Order)
    ensures Pow2(k) == Size(k) && Pow2(k) < W64
  {
    assert Pow2(0) == 1 && Pow2(1) == 2 && Pow2(2) == 4 && Pow2(3) == 8 && Pow2(4) == 16;
    assert Pow2(5) == 32 && Pow2(6) == 64 && Pow2(7) == 128 && Pow2(8) == 256;
  }

  lemma DigitOfRem(p: nat, k: Order)
    requires k < BUDDY_MAX_ORDER && Rem(p, k) == 0
    ensures p / Size(k) % 2 == 1 <==> Rem(p, k + 1) != 0
    ensures Rem(p, k + 1) != 0 ==> Rem(p, k + 1) == Size(k)
  {
    RemMod(p, k);
    RemMod(p, k + 1);
    HalvesOf(p, Size(k));
  }

  // ------------------------------------------------------------------- state

  datatype Block = Block(order: int, free: bool)

  /** All blocks by head, the free lists (front first), and the number of pages. */
  datatype Buddy = Buddy(blocks: map<nat, Block>, lists: seq<seq<nat>>, n: nat)

  predicate Disjoint(p: nat, k: Order, q: nat, j: Order) {
    p + Size(k) <= q || q + Size(j) <= p
  }

  /** Blocks are aligned, in bounds and pairwise disjoint. */
  ghost predicate GoodBlocks(b: Buddy) {
    && (forall p :: p in b.blocks ==>
          0 <= b.blocks[p].order <= BUDDY_MAX_ORDER && Rem(p, b.blocks[p].order) == 0
          && p + Size(b.blocks[p].order) <= b.n)
    && (forall p, q :: p in b.blocks && q in b.blocks && p != q ==>
          Disjoint(p, b.blocks[p].order, q, b.blocks[q].order))
  }

  /** List k holds exactly the free blocks of order k, each once. */
  ghost predicate GoodLists(b: Buddy) {
    && |b.lists| == BUDDY_MAX_ORDER + 1
    && (forall k: Order, p :: p in b.lists[k] <==> p in b.blocks && b.blocks[p] == Block(k, true))
    && (forall k: Order :: NoDup(b.lists[k]))
  }

  ghost predicate Valid(b: Buddy) {
    GoodBlocks(b) && |b.lists| == BUDDY_MAX_ORDER + 1 && GoodLists(b)
  }

  ghost predicate IsFree(b: Buddy, p: nat, k: Order) {
    p in b.blocks && b.blocks[p] == Block(k, true)
  }

  ghost predicate IsLive(b: Buddy, p: nat, k: Order) {
    p in b.blocks && b.blocks[p] == Block(k, false)
  }

  predicate Within(i: nat, p: nat, k: Order) {
    p <= i < p + Size(k)
  }

  /** Page i lies in a free block. */
  ghost predicate FreePage(b: Buddy, i: nat) {
    exists p: nat, k: Order :: IsFree(b, p, k) && Within(i, p, k)
  }

  ghost predicate LivePage(b: Buddy, i: nat) {
    exists p: nat, k: Order :: IsLive(b, p, k) && Within(i, p, k)
  }

  /** No two free buddies of one order below the largest. */
  ghost predicate Coalesced(b: Buddy) {
    forall p: nat, k: Order :: k < BUDDY_MAX_ORDER && IsFree(b, p, k) ==> !IsFree(b, BuddyOf(p, k), k)
  }

  /** The counter free_pages: the sum of |list k| * 2^k. */
  function FreeTotal(lists: seq<seq<nat>>): nat
    requires |lists| == BUDDY_MAX_ORDER + 1
  {
    |lists[0]| + 2 * |lists[1]| + 4 * |lists[2]| + 8 * |lists[3]| + 16 * |lists[4]|
    + 32 * |lists[5]| + 64 * |lists[6]| + 128 * |lists[7]| + 256 * |lists[8]|
  }

  // ------------------------------------------------------------------ freeing

  /** Take a block off the books. */
  function Unlist(b: Buddy, p: nat, k: Order): Buddy
    requires |b.lists| == BUDDY_MAX_ORDER + 1
  {
    b.(blocks := b.blocks - {p}, lists := b.lists[k := Without(b.lists[k], p)])
  }

  /** Put a free block at the front of its list. */
  function Enlist(b: Buddy, p: nat, k: Order): Buddy
    requires |b.lists| == BUDDY_MAX_ORDER + 1
  {
    b.(blocks := b.blocks[p := Block(k, true)], lists := b.lists[k := [p] + b.lists[k]])
  }

  predicate Merges(b: Buddy, p: nat, k: Order) {
    k < BUDDY_MAX_ORDER && BuddyOf(p, k) in b.blocks && b.blocks[BuddyOf(p, k)] == Block(k, true)
  }

  /** __allocator_free_block: merge with free buddies, then enlist. */
  function Free(b: Buddy, p: nat, k: Order): Buddy
    requires |b.lists| == BUDDY_MAX_ORDER + 1
    decreases BUDDY_MAX_ORDER - k
  {
    if Merges(b, p, k) then Free(Unlist(b, BuddyOf(p, k), k), Lower(p, k), k + 1)
    else Enlist(b, p, k)
  }

  /** An aligned run of pages that no block touches. */
  ghost predicate Loose(b: Buddy, p: nat, k: Order) {
    && Rem(p, k) == 0 && p + Size(k) <= b.n
    && forall q :: q in b.blocks && 0 <= b.blocks[q].order <= BUDDY_MAX_ORDER ==> Disjoint(p, k, q, b.blocks[q].order)
  }

  lemma UnlistValid(b: Buddy, p: nat, k: Order)
    requires Valid(b) && IsFree(b, p, k)
    ensures Valid(Unlist(b, p, k)) && Loose(Unlist(b, p, k), p, k)
    ensures FreeTotal(Unlist(b, p, k).lists) == FreeTotal(b.lists) - Size(k)
    ensures |Unlist(b, p, k).lists[k]| == |b.lists[k]| - 1
    ensures forall q: nat, j: Order :: IsFree(Unlist(b, p, k), q, j) <==> IsFree(b, q, j) && q != p
    ensures forall q: nat, j: Order :: IsLive(Unlist(b, p, k), q, j) <==> IsLive(b, q, j)
  {
    UnlistLists(b, p, k);
    hide GoodLists, FreeTotal, Rem, Size;
  }

  lemma UnlistLists(b: Buddy, p: nat, k: Order)
    requires GoodLists(b) && IsFree(b, p, k)
    ensures GoodLists(Unlist(b, p, k))
    ensures FreeTotal(Unlist(b, p, k).lists) == FreeTotal(b.lists) - Size(k)
    ensures |Unlist(b, p, k).lists[k]| == |b.lists[k]| - 1
  {
    hide NoDup, Without;
    WithoutMeans(b.lists[k], p);
  }

  lemma LooseIsNew(b: Buddy, p: nat, k: Order)
    requires GoodBlocks(b) && Loose(b, p, k)
    ensures p !in b.blocks
  {
  }

  lemma EnlistBlocks(b: Buddy, p: nat, k: Order, free: bool)
    requires GoodBlocks(b) && Loose(b, p, k)
    ensures GoodBlocks(b.(blocks := b.blocks[p := Block(k, free)]))
  {
    hide Size, Rem;
  }

  lemma EnlistLists(b: Buddy, p: nat, k: Order)
    requires GoodLists(b) && p !in b.blocks
    ensures GoodLists(Enlist(b, p, k))
    ensures FreeTotal(Enlist(b, p, k).lists) == FreeTotal(b.lists) + Size(k)
  {
    assert p !in b.lists[k];
    assert forall i :: 0 < i < |[p] + b.lists[k]| ==> ([p] + b.lists[k])[i] == b.lists[k][i - 1];
  }

  lemma EnlistValid(b: Buddy, p: nat, k: Order)
    requires Valid(b) && Loose(b, p, k)
    ensures p !in b.blocks && Valid(Enlist(b, p, k))
    ensures FreeTotal(Enlist(b, p, k).lists) == FreeTotal(b.lists) + Size(k)
    ensures forall q: nat, j: Order :: IsFree(Enlist(b, p, k), q, j) <==> IsFree(b, q, j) || (q == p && j == k)
    ensures forall q: nat, j: Order :: IsLive(Enlist(b, p, k), q, j) <==> IsLive(b, q, j)
  {
    hide Size, Rem, Loose, GoodLists, FreeTotal;
    LooseIsNew(b, p, k);
    EnlistBlocks(b, p, k, true);
    assert Enlist(b, p, k).blocks == b.blocks[p := Block(k, true)];
    BlocksOnly(Enlist(b, p, k), b.(blocks := b.blocks[p := Block(k, true)]));
    EnlistLists(b, p, k);
  }

  lemma BlocksOnly(b: Buddy, c: Buddy)
    requires b.blocks == c.blocks && b.n == c.n
    ensures GoodBlocks(b) <==> GoodBlocks(c)
  {
  }

  /** Merging leaves the whole of the merged block loose. */
  lemma MergeLoose(b: Buddy, p: nat, k: Order)
    requires Valid(b) && Loose(b, p, k) && Merges(b, p, k)
    ensures Valid(Unlist(b, BuddyOf(p, k), k)) && Loose(Unlist(b, BuddyOf(p, k), k), Lower(p, k), k + 1)
  {
    Halves(p, k);
    UnlistValid(b, BuddyOf(p, k), k);
  }

  /** The free pages of two states, one of which has one more free block. */
  lemma MoreFreePages(b: Buddy, c: Buddy, p: nat, k: Order)
    requires forall q: nat, j: Order :: IsFree(c, q, j) <==> IsFree(b, q, j) || (q == p && j == k)
    ensures forall i: nat :: FreePage(c, i) <==> FreePage(b, i) || Within(i, p, k)
  {
    hide IsFree, Within;
    forall i: nat
      ensures FreePage(c, i) <==> FreePage(b, i) || Within(i, p, k)
    {
      if FreePage(c, i) {
        var q: nat, j: Order :| IsFree(c, q, j) && Within(i, q, j);
      }
      if FreePage(b, i) {
        var q: nat, j: Order :| IsFree(b, q, j) && Within(i, q, j);
        assert IsFree(c, q, j);
      }
      assert IsFree(c, p, k);
    }
  }

  lemma SameLivePages(b: Buddy, c: Buddy)
    requires forall q: nat, j: Order :: IsLive(c, q, j) <==> IsLive(b, q, j)
    ensures forall i: nat :: LivePage(c, i) <==> LivePage(b, i)
  {
    hide IsLive, Within;
    forall i: nat
      ensures LivePage(c, i) <==> LivePage(b, i)
    {
      if LivePage(c, i) {
        var q: nat, j: Order :| IsLive(c, q, j) && Within(i, q, j);
        assert IsLive(b, q, j);
      }
      if LivePage(b, i) {
        var q: nat, j: Order :| IsLive(b, q, j) && Within(i, q, j);
        assert IsLive(c, q, j);
      }
    }
  }

  /** The two halves of a block. */
  lemma HalvesCover(p: nat, k: Order, i: nat)
    requires k < BUDDY_MAX_ORDER && Rem(p, k) == 0
    ensures Within(i, Lower(p, k), k + 1) <==> Within(i, p, k) || Within(i, BuddyOf(p, k), k)
  {
    Halves(p, k);
    hide Size, Rem, Lower, BuddyOf;
  }

  /** Freeing a loose block: its pages join the free pages, nothing else moves, and full
      coalescing is kept. */
  lemma {:induction false} FreeKeeps(b: Buddy, p: nat, k: Order)
    requires Valid(b) && Loose(b, p, k)
    ensures Valid(Free(b, p, k)) && Free(b, p, k).n == b.n
    ensures FreeTotal(Free(b, p, k).lists) == FreeTotal(b.lists) + Size(k)
    ensures forall q: nat, j: Order :: IsLive(Free(b, p, k), q, j) <==> IsLive(b, q, j)
    ensures forall i: nat :: FreePage(Free(b, p, k), i) <==> FreePage(b, i) || Within(i, p, k)
    ensures Coalesced(b) ==> Coalesced(Free(b, p, k))
    decreases BUDDY_MAX_ORDER - k
  {
    hide GoodBlocks, GoodLists, Loose, FreeTotal, IsFree, IsLive, FreePage, Within, Size, Rem, Lower, BuddyOf;
    if Merges(b, p, k) {
      var q := BuddyOf(p, k);
      var c := Unlist(b, q, k);
      MergeIsFree(b, p, k);
      MergeLoose(b, p, k);
      UnlistValid(b, q, k);
      FreeKeeps(c, Lower(p, k), k + 1);
      MoreFreePages(c, b, q, k) by {
        FreeBack(b, q, k);
      }
      forall i: nat
        ensures Within(i, Lower(p, k), k + 1) <==> Within(i, p, k) || Within(i, q, k)
      {
        LooseAligned(b, p, k);
        HalvesCover(p, k, i);
      }
      SizeUp(k);
    } else {
      EnlistValid(b, p, k);
      MoreFreePages(b, Enlist(b, p, k), p, k);
      if Coalesced(b) {
        EnlistCoalesced(b, p, k);
      }
    }
  }

  lemma LooseAligned(b: Buddy, p: nat, k: Order)
    requires Loose(b, p, k)
    ensures Rem(p, k) == 0 && p + Size(k) <= b.n
  {
  }

  lemma SizeUp(k: Order)
    requires k < BUDDY_MAX_ORDER
    ensures Size(k + 1) == Size(k) + Size(k)
  {
  }

  lemma MergeIsFree(b: Buddy, p: nat, k: Order)
    requires Merges(b, p, k)
    ensures IsFree(b, BuddyOf(p, k), k)
  {
  }

  lemma FreeBack(b: Buddy, q: nat, k: Order)
    requires IsFree(b, q, k) && |b.lists| == BUDDY_MAX_ORDER + 1
    ensures forall r: nat, j: Order :: IsFree(b, r, j) <==> IsFree(Unlist(b, q, k), r, j) || (r == q && j == k)
  {
  }

  lemma EnlistCoalesced(b: Buddy, p: nat, k: Order)
    requires Valid(b) && Loose(b, p, k) && !Merges(b, p, k) && Coalesced(b)
    ensures Coalesced(Enlist(b, p, k))
  {
    hide GoodBlocks, GoodLists, Loose, Size, Rem, BuddyOf;
    var c := Enlist(b, p, k);
    EnlistValid(b, p, k);
    forall q: nat, j: Order | j < BUDDY_MAX_ORDER && IsFree(c, q, j)
      ensures !IsFree(c, BuddyOf(q, j), j)
    {
      FreeAligned(c, q, j);
      Halves(q, j);
    }
  }

  lemma FreeAligned(b: Buddy, p: nat, k: Order)
    requires GoodBlocks(b) && IsFree(b, p, k)
    ensures Rem(p, k) == 0 && p + Size(k) <= b.n
  {
  }

  // --------------------------------------------------------------- allocation

  /** The block list_take_last finds: the back of list k. */
  function Back(b: Buddy, k: Order): nat
    requires |b.lists| == BUDDY_MAX_ORDER + 1 && |b.lists[k]| > 0
  {
    b.lists[k][|b.lists[k]| - 1]
  }

  function PopBack(b: Buddy, k: Order): Buddy
    requires |b.lists| == BUDDY_MAX_ORDER + 1 && |b.lists[k]| > 0
  {
    b.(blocks := b.blocks - {Back(b, k)}, lists := b.lists[k := b.lists[k][..|b.lists[k]| - 1]])
  }

  /** Hand out the back of list k. */
  function Take(b: Buddy, k: Order): Buddy
    requires |b.lists| == BUDDY_MAX_ORDER + 1 && |b.lists[k]| > 0
  {
    var c := PopBack(b, k);
    c.(blocks := c.blocks[Back(b, k) := Block(k, false)])
  }

  /** split_block on the smallest order that has a block. */
  function Split(b: Buddy, k: Order): Buddy
    requires |b.lists| == BUDDY_MAX_ORDER + 1 && k > 0 && |b.lists[k]| > 0
  {
    var p := Back(b, k);
    Enlist(Enlist(PopBack(b, k), p, k - 1), BuddyOf(p, k - 1), k - 1)
  }

  /** The smallest order from k on with a free block; BUDDY_MAX_ORDER + 1 if none. */
  function FirstFree(lists: seq<seq<nat>>, k: nat): (o: nat)
    requires |lists| == BUDDY_MAX_ORDER + 1 && k <= BUDDY_MAX_ORDER + 1
    ensures k <= o <= BUDDY_MAX_ORDER + 1
    ensures o <= BUDDY_MAX_ORDER ==> |lists[o]| > 0
    ensures forall j :: k <= j < o ==> lists[j] == []
    decreases BUDDY_MAX_ORDER + 1 - k
  {
    if k > BUDDY_MAX_ORDER || |lists[k]| > 0 then k else FirstFree(lists, k + 1)
  }

  /** NULL, a block, or the out-of-memory panic. */
  datatype Result = Null | Got(p: nat) | Panic

  function Alloc(b: Buddy, order: int): (Buddy, Result)
    requires |b.lists| == BUDDY_MAX_ORDER + 1
  {
    if order > BUDDY_MAX_ORDER || order < 0 then (b, Null)
    else if |b.lists[order]| > 0 then (Take(b, order), Got(Back(b, order)))
    else if order == BUDDY_MAX_ORDER then (b, Null)
    else
      var o := FirstFree(b.lists, order + 1);
      if o > BUDDY_MAX_ORDER then (b, Panic)
      else
        var c := Split(b, o);
        if |c.lists[order]| > 0 then (Take(c, order), Got(Back(c, order))) else (c, Null)
  }

  /** pfree of the descriptor of page p. */
  function Release(b: Buddy, p: nat): Buddy
    requires |b.lists| == BUDDY_MAX_ORDER + 1
  {
    if p in b.blocks && !b.blocks[p].free && 0 <= b.blocks[p].order <= BUDDY_MAX_ORDER
    then Free(b.(blocks := b.blocks - {p}), p, b.blocks[p].order)
    else b
  }

  lemma PopIsUnlist(b: Buddy, k: Order)
    requires Valid(b) && |b.lists[k]| > 0
    ensures IsFree(b, Back(b, k), k) && PopBack(b, k) == Unlist(b, Back(b, k), k)
  {
    WithoutLast(b.lists[k]);
    assert Back(b, k) in b.lists[k];
  }

  /** Popping a block leaves it loose and every other block alone. */
  lemma PopKeeps(b: Buddy, k: Order)
    requires Valid(b) && |b.lists[k]| > 0
    ensures var p, c := Back(b, k), PopBack(b, k);
      && IsFree(b, p, k) && Valid(c) && Loose(c, p, k) && FreeTotal(c.lists) == FreeTotal(b.lists) - Size(k)
      && (forall q: nat, j: Order :: IsFree(b, q, j) <==> IsFree(c, q, j) || (q == p && j == k))
      && (forall q: nat, j: Order :: IsLive(c, q, j) <==> IsLive(b, q, j))
      && (forall q: nat, j: Order :: IsFree(c, q, j) ==> q != p)
  {
    PopIsUnlist(b, k);
    UnlistValid(b, Back(b, k), k);
    FreeBack(b, Back(b, k), k);
  }

  /** A loose block's halves are loose, also after one of them is enlisted. */
  lemma SplitLoose(b: Buddy, p: nat, k: Order)
    requires Valid(b) && k < BUDDY_MAX_ORDER && Loose(b, p, k + 1)
    ensures Loose(b, p, k) && Rem(p, k) == 0 && BuddyOf(p, k) == p + Size(k) && Lower(p, k) == p
    ensures Loose(Enlist(b, p, k), BuddyOf(p, k), k)
  {
    RemHalf(p, k);
    SizeUp(k);
    Halves(p, k);
    hide Size, Rem;
  }

  lemma RemHalf(p: nat, k: Order)
    requires k < BUDDY_MAX_ORDER && Rem(p, k + 1) == 0
    ensures Rem(p, k) == 0
  {
    RemMod(p, k);
    RemMod(p, k + 1);
    DivDiv(p, Size(k), 2);
  }

  /** Splitting changes no page's status. */
  lemma SplitKeeps(b: Buddy, k: Order)
    requires Valid(b) && k > 0 && |b.lists[k]| > 0
    ensures var p, c := Back(b, k), Split(b, k);
      && Valid(c) && FreeTotal(c.lists) == FreeTotal(b.lists) && c.n == b.n
      && (forall q: nat, j: Order :: IsLive(c, q, j) <==> IsLive(b, q, j))
      && (forall i: nat :: FreePage(c, i) <==> FreePage(b, i))
      && c.lists == b.lists[k := b.lists[k][..|b.lists[k]| - 1]][k - 1 := [BuddyOf(p, k - 1), p] + b.lists[k - 1]]
      && BuddyOf(p, k - 1) == p + Size(k - 1)
      && (forall q: nat, j: Order :: IsFree(c, q, j) ==>
        IsFree(b, q, j) || (j == k - 1 && (q == p || q == BuddyOf(p, k - 1))))
  {
    hide GoodBlocks, GoodLists, Loose, FreeTotal, IsFree, IsLive, FreePage, Within, Size, Rem, BuddyOf, Lower;
    var p := Back(b, k);
    var c0 := PopBack(b, k);
    PopKeeps(b, k);
    SplitLoose(c0, p, k - 1);
    EnlistValid(c0, p, k - 1);
    var c1 := Enlist(c0, p, k - 1);
    var q := BuddyOf(p, k - 1);
    EnlistValid(c1, q, k - 1);
    var c := Enlist(c1, q, k - 1);
    SizeUp(k - 1);
    MoreFreePages(c0, b, p, k);
    MoreFreePages(c0, c1, p, k - 1);
    MoreFreePages(c1, c, q, k - 1);
    forall i: nat
      ensures Within(i, p, k) <==> Within(i, p, k - 1) || Within(i, q, k - 1)
    {
      HalvesCover(p, k - 1, i);
    }
    assert [q] + ([p] + b.lists[k - 1]) == [q, p] + b.lists[k - 1];
  }

  /** Handing out a block. */
  lemma TakeKeeps(b: Buddy, k: Order)
    requires Valid(b) && |b.lists[k]| > 0
    ensures var p, c := Back(b, k), Take(b, k);
      && IsFree(b, p, k) && Valid(c) && c.n == b.n && FreeTotal(c.lists) == FreeTotal(b.lists) - Size(k)
      && (forall q: nat, j: Order :: IsLive(c, q, j) <==> IsLive(b, q, j) || (q == p && j == k))
      && (forall q: nat, j: Order :: IsFree(b, q, j) <==> IsFree(c, q, j) || (q == p && j == k))
      && (forall q: nat, j: Order :: IsFree(c, q, j) ==> q != p)
  {
    hide Size, Rem, FreeTotal;
    PopKeeps(b, k);
    var p, c := Back(b, k), PopBack(b, k);
    LooseIsNew(c, p, k);
    EnlistBlocks(c, p, k, false);
    BlocksOnly(Take(b, k), c.(blocks := c.blocks[p := Block(k, false)]));
  }

  /** Free blocks do not overlap, so taking one takes exactly its pages. */
  lemma TakenPages(b: Buddy, c: Buddy, p: nat, k: Order)
    requires GoodBlocks(b) && IsFree(b, p, k)
    requires forall q: nat, j: Order :: IsFree(b, q, j) <==> IsFree(c, q, j) || (q == p && j == k)
    requires forall q: nat, j: Order :: IsFree(c, q, j) ==> q != p
    ensures forall i: nat :: Within(i, p, k) ==> FreePage(b, i)
    ensures forall i: nat :: FreePage(c, i) <==> FreePage(b, i) && !Within(i, p, k)
  {
    MoreFreePages(c, b, p, k);
    forall i: nat | FreePage(c, i)
      ensures !Within(i, p, k)
    {
      var q: nat, j: Order :| IsFree(c, q, j) && Within(i, q, j);
      assert IsFree(b, q, j);
      assert Disjoint(p, k, q, j);
    }
  }
}
