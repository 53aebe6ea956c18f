/** What the buddy allocator keeps over every run of palloc and pfree, and what its
    free lists look like. */
module BuddyLaws {
  import opened BuddyModel

  // --------------------------------------------------------------- one call

  /** Everything a palloc call may do to the blocks. */
  ghost predicate PallocDone(b: Buddy, order: int, c: Buddy, r: Result)
    requires |b.lists| == BUDDY_MAX_ORDER + 1 && |c.lists| == BUDDY_MAX_ORDER + 1
  {
    match r
    case Panic => c == b
    case Null =>
      && FreeTotal(b.lists) == FreeTotal(c.lists)
      && (forall i: nat :: FreePage(c, i) <==> FreePage(b, i))
      && (forall q: nat, j: Order :: IsLive(c, q, j) <==> IsLive(b, q, j))
    case Got(p) =>
      && 0 <= order <= BUDDY_MAX_ORDER
      && FreeTotal(b.lists) == FreeTotal(c.lists) + Size(order)
      && (forall i: nat :: Within(i, p, order) ==> FreePage(b, i))
      && (forall i: nat :: FreePage(c, i) <==> FreePage(b, i) && !Within(i, p, order))
      && (forall q: nat, j: Order :: IsLive(c, q, j) <==> IsLive(b, q, j) || (q == p && j == order))
      && (Coalesced(b) ==> Coalesced(c))
  }

  lemma TakeCoalesced(b: Buddy, c: Buddy)
    requires Coalesced(b) && forall q: nat, j: Order :: IsFree(c, q, j) ==> IsFree(b, q, j)
    ensures Coalesced(c)
  {
  }

  /** Splitting one level and taking the lower half leaves no two free buddies. */
  lemma SplitTakeCoalesced(b: Buddy, c: Buddy, d: Buddy, p: nat, k: Order)
    requires Coalesced(b) && k < BUDDY_MAX_ORDER && Rem(p, k) == 0
    requires forall q: nat :: !IsFree(b, q, k)
    requires forall q: nat, j: Order :: IsFree(c, q, j) ==>
      IsFree(b, q, j) || (j == k && (q == p || q == BuddyOf(p, k)))
    requires forall q: nat, j: Order :: IsFree(d, q, j) ==> IsFree(c, q, j) && q != p
    ensures Coalesced(d)
  {
    hide IsFree, BuddyOf, Rem, Size;
    Halves(p, k);
  }

  lemma NoneOfOrder(b: Buddy, k: Order)
    requires Valid(b) && b.lists[k] == []
    ensures forall q: nat :: !IsFree(b, q, k)
  {
    forall q: nat
      ensures !IsFree(b, q, k)
    {
      assert q !in b.lists[k];
    }
  }

  lemma PallocTakes(b: Buddy, k: Order)
    requires Valid(b) && |b.lists[k]| > 0
    ensures Valid(Take(b, k)) && Take(b, k).n == b.n && PallocDone(b, k, Take(b, k), Got(Back(b, k)))
  {
    hide Valid, IsFree, IsLive, FreePage, Within, Size, FreeTotal, Take;
    TakeKeeps(b, k);
    ValidBlocks(b);
    TakenPages(b, Take(b, k), Back(b, k), k);
    if Coalesced(b) {
      TakeCoalesced(b, Take(b, k));
    }
  }

  lemma ValidBlocks(b: Buddy)
    requires Valid(b)
    ensures GoodBlocks(b) && |b.lists| == BUDDY_MAX_ORDER + 1
  {
  }

  /** palloc(k) when the smallest block that can serve it is of order k + 1. */
  lemma PallocSplits(b: Buddy, k: Order)
    requires Valid(b) && k < BUDDY_MAX_ORDER && b.lists[k] == [] && |b.lists[k + 1]| > 0
    ensures var p, c := Back(b, k + 1), Split(b, k + 1);
      && |c.lists| == BUDDY_MAX_ORDER + 1 && |c.lists[k]| == 2 && Back(c, k) == p
      && Valid(Take(c, k)) && Take(c, k).n == b.n && PallocDone(b, k, Take(c, k), Got(p))
  {
    hide Valid, IsFree, IsLive, FreePage, Within, Size, FreeTotal, Take, Split, Rem, BuddyOf, Coalesced, GoodBlocks;
    ValidBlocks(b);
    var p, c := Back(b, k + 1), Split(b, k + 1);
    SplitKeeps(b, k + 1);
    ValidBlocks(c);
    assert c.lists[k] == [BuddyOf(p, k), p] + b.lists[k];
    TakeKeeps(c, k);
    ValidBlocks(Take(c, k));
    TakenPages(c, Take(c, k), p, k);
    NoneOfOrder(b, k);
    if Coalesced(b) {
      FreeAligned(c, p, k);
      SplitTakeCoalesced(b, c, Take(c, k), p, k);
    }
  }

  /** Every palloc keeps the block invariant, and does what PallocDone says. */
  lemma PallocKeeps(b: Buddy, order: int)
    requires Valid(b)
    ensures var (c, r) := Alloc(b, order);
      Valid(c) && c.n == b.n && PallocDone(b, order, c, r)
  {
    if 0 <= order <= BUDDY_MAX_ORDER {
      if |b.lists[order]| > 0 {
        PallocTakes(b, order);
      } else if order < BUDDY_MAX_ORDER {
        var o := FirstFree(b.lists, order + 1);
        if o == order + 1 {
          PallocSplits(b, order);
        } else if o <= BUDDY_MAX_ORDER {
          SplitKeeps(b, o);
        }
      }
    }
  }

  /** A split leaves two free buddies. */
  lemma SplitHalves(b: Buddy, k: Order)
    requires Valid(b) && k > 0 && |b.lists[k]| > 0
    ensures !Coalesced(Split(b, k)) && Split(b, k) != b
  {
    hide FreePage, FreeTotal, Split, BuddyOf, Rem, Size, GoodBlocks;
    SplitKeeps(b, k);
    var p, c := Back(b, k), Split(b, k);
    assert c.lists[k - 1][0] == BuddyOf(p, k - 1) && c.lists[k - 1][1] == p;
    assert p in c.lists[k - 1] && BuddyOf(p, k - 1) in c.lists[k - 1];
    assert IsFree(c, p, k - 1) && IsFree(c, BuddyOf(p, k - 1), k - 1);
    assert |c.lists[k - 1]| == |b.lists[k - 1]| + 2;
  }

  /** The blocks palloc(order) can hand out before it first answers NULL or panics: those
      on its own list, and the halves of those on the next. */
  function Supply(lists: seq<seq<nat>>, order: int): nat
    requires |lists| == BUDDY_MAX_ORDER + 1
  {
    if order < 0 || order > BUDDY_MAX_ORDER then 0
    else |lists[order]| + if order < BUDDY_MAX_ORDER then 2 * |lists[order + 1]| else 0
  }

  /** Which way palloc goes, told from the free lists before the call: a request is served
      just when there is a block of its order or of the next, however many larger blocks
      are free. */
  lemma PallocOutcome(b: Buddy, order: int)
    requires Valid(b)
    ensures Alloc(b, order).1.Got? <==>
      0 <= order <= 8 && (|b.lists[order]| > 0 || (order < 8 && |b.lists[order + 1]| > 0))
    ensures Alloc(b, order).1.Panic? <==>
      0 <= order < 8 && forall k: Order :: k >= order ==> |b.lists[k]| == 0
    ensures Alloc(b, order).1.Null? <==>
      && !(0 <= order <= 8 && (|b.lists[order]| > 0 || (order < 8 && |b.lists[order + 1]| > 0)))
      && (order < 0 || order >= 8 || exists k: Order :: k > order + 1 && |b.lists[k]| > 0)
    ensures Alloc(b, order).1.Got? <==> Supply(b.lists, order) > 0
  {
    ValidBlocks(b);
    hide Valid, GoodBlocks, GoodLists, Back, BuddyOf;
    if 0 <= order < BUDDY_MAX_ORDER && |b.lists[order]| == 0 {
      var o := FirstFree(b.lists, order + 1);
      assert o <= BUDDY_MAX_ORDER ==> |b.lists[o]| > 0;
    }
  }

  /** palloc gives up full coalescing just when its list and the next are empty and a larger
      block is there to be split. */
  lemma PallocCoalesced(b: Buddy, order: int)
    requires Valid(b) && Coalesced(b)
    ensures Coalesced(Alloc(b, order).0) <==>
      !(&& 0 <= order < 7 && |b.lists[order]| == 0 && |b.lists[order + 1]| == 0
        && exists k: Order :: k > order + 1 && |b.lists[k]| > 0)
  {
    hide Valid, Coalesced, Split, Take;
    ValidBlocks(b);
    PallocKeeps(b, order);
    PallocOutcome(b, order);
    if 0 <= order < BUDDY_MAX_ORDER && |b.lists[order]| == 0 {
      var o := FirstFree(b.lists, order + 1);
      if o <= BUDDY_MAX_ORDER {
        SplitHalves(b, o);
      }
    }
  }

  /** One free block of the largest order. */
  const WHOLE := Buddy(map[0 := Block(8, true)], [[], [], [], [], [], [], [], [], [0]], 256)

  /** With 256 pages free, a request for 8 of them is answered with NULL and leaves two free
      buddies uncoalesced. */
  lemma NullWithFreePages()
    ensures Valid(WHOLE) && Coalesced(WHOLE) && FreeTotal(WHOLE.lists) == 256
    ensures Alloc(WHOLE, 3).1 == Null && !Coalesced(Alloc(WHOLE, 3).0)
  {
    hide Valid, Coalesced, Alloc, FreeTotal, Supply;
    WholeValid();
    WholeLists();
    PallocOutcome(WHOLE, 3);
    PallocCoalesced(WHOLE, 3);
  }

  lemma WholeLists()
    ensures |WHOLE.lists| == BUDDY_MAX_ORDER + 1 && FreeTotal(WHOLE.lists) == 256
    ensures Supply(WHOLE.lists, 3) == 0 && |WHOLE.lists[8]| == 1
  {
  }

  lemma WholeValid()
    ensures Valid(WHOLE) && Coalesced(WHOLE)
  {
    hide Rem, BuddyOf;
    assert Rem(0, 8) == 0;
    assert forall k: Order :: k < 8 ==> WHOLE.lists[k] == [];
  }

  /** A block is live once, so a live head identifies its block. */
  lemma {:induction false} PfreeKeeps(b: Buddy, p: nat)
    requires Valid(b)
    ensures Valid(Release(b, p)) && Release(b, p).n == b.n
    ensures (forall k: Order :: !IsLive(b, p, k)) ==> Release(b, p) == b
    ensures forall k: Order :: IsLive(b, p, k) ==>
      && FreeTotal(Release(b, p).lists) == FreeTotal(b.lists) + Size(k)
      && (forall i: nat :: FreePage(Release(b, p), i) <==> FreePage(b, i) || Within(i, p, k))
      && (forall q: nat, j: Order :: IsLive(Release(b, p), q, j) <==> IsLive(b, q, j) && q != p)
      && (Coalesced(b) ==> Coalesced(Release(b, p)))
  {
    forall k: Order | IsLive(b, p, k)
      ensures Valid(Release(b, p)) && Release(b, p).n == b.n
      ensures FreeTotal(Release(b, p).lists) == FreeTotal(b.lists) + Size(k)
      ensures forall i: nat :: FreePage(Release(b, p), i) <==> FreePage(b, i) || Within(i, p, k)
      ensures forall q: nat, j: Order :: IsLive(Release(b, p), q, j) <==> IsLive(b, q, j) && q != p
      ensures Coalesced(b) ==> Coalesced(Release(b, p))
    {
      PfreeLive(b, p, k);
    }
    if p in b.blocks && !b.blocks[p].free {
      assert IsLive(b, p, b.blocks[p].order);
    }
  }

  lemma PfreeLive(b: Buddy, p: nat, k: Order)
    requires Valid(b) && IsLive(b, p, k)
    ensures Valid(Release(b, p)) && Release(b, p).n == b.n
    ensures FreeTotal(Release(b, p).lists) == FreeTotal(b.lists) + Size(k)
    ensures forall i: nat :: FreePage(Release(b, p), i) <==> FreePage(b, i) || Within(i, p, k)
    ensures forall q: nat, j: Order :: IsLive(Release(b, p), q, j) <==> IsLive(b, q, j) && q != p
    ensures Coalesced(b) ==> Coalesced(Release(b, p))
  {
    var c := b.(blocks := b.blocks - {p});
    DropLive(b, p, k);
    assert Release(b, p) == Free(c, p, k);
    hide Valid, IsFree, IsLive, Within, Size, FreeTotal, Loose, Free, BuddyOf, Release;
    FreeKeeps(c, p, k);
    SameFreePages(b, c);
    if Coalesced(b) {
      TakeCoalesced(b, c);
    }
  }

  lemma DropLive(b: Buddy, p: nat, k: Order)
    requires Valid(b) && IsLive(b, p, k)
    ensures var c := b.(blocks := b.blocks - {p});
      && Valid(c) && Loose(c, p, k) && c.lists == b.lists
      && (forall q: nat, j: Order :: IsFree(c, q, j) <==> IsFree(b, q, j))
      && (forall q: nat, j: Order :: IsLive(c, q, j) <==> IsLive(b, q, j) && q != p)
  {
    hide Size, Rem;
    assert p in b.blocks;
  }

  lemma SameFreePages(b: Buddy, c: Buddy)
    requires forall q: nat, j: Order :: IsFree(c, q, j) <==> IsFree(b, q, j)
    ensures forall i: nat :: FreePage(c, i) <==> FreePage(b, i)
  {
    hide IsFree, Within;
    forall i: nat
      ensures FreePage(c, i) <==> FreePage(b, i)
    {
      if FreePage(c, i) {
        var q: nat, j: Order :| IsFree(c, q, j) && Within(i, q, j);
        assert IsFree(b, q, j);
      }
      if FreePage(b, i) {
        var q: nat, j: Order :| IsFree(b, q, j) && Within(i, q, j);
        assert IsFree(c, q, j);
      }
    }
  }

  // ----------------------------------------------------------- the ladder

  /** m palloc(order) calls in a row. */
  function Pallocs(b: Buddy, order: int, m: nat): (c: Buddy)
    requires Valid(b)
    ensures Valid(c)
  {
    if m == 0 then b else PallocKeeps(Pallocs(b, order, m - 1), order); Alloc(Pallocs(b, order, m - 1), order).0
  }

  /** The first k palloc(order) calls on b are all served. */
  ghost predicate Grants(b: Buddy, order: int, k: nat)
    requires Valid(b)
  {
    forall i: nat :: i < k ==> Alloc(Pallocs(b, order, i), order).1.Got?
  }

  /** A served call uses up one block of the supply. */
  lemma SupplyStep(b: Buddy, order: int)
    requires Valid(b) && Supply(b.lists, order) > 0
    ensures |Alloc(b, order).0.lists| == BUDDY_MAX_ORDER + 1
    ensures Supply(Alloc(b, order).0.lists, order) == Supply(b.lists, order) - 1
    ensures forall j: Order :: j > order + 1 ==> Alloc(b, order).0.lists[j] == b.lists[j]
  {
    ValidBlocks(b);
    hide Valid, GoodBlocks, GoodLists, Back, BuddyOf;
  }

  lemma {:induction false} SupplyAfter(b: Buddy, order: int, k: nat)
    requires Valid(b) && k <= Supply(b.lists, order)
    ensures Supply(Pallocs(b, order, k).lists, order) == Supply(b.lists, order) - k
    ensures forall j: Order :: j > order + 1 ==> Pallocs(b, order, k).lists[j] == b.lists[j]
    ensures Grants(b, order, k)
  {
    hide Valid, Alloc, Supply;
    ValidBlocks(Pallocs(b, order, k));
    if k > 0 {
      var c := Pallocs(b, order, k - 1);
      SupplyAfter(b, order, k - 1);
      ValidBlocks(c);
      PallocOutcome(c, order);
      SupplyStep(c, order);
      assert Pallocs(b, order, k) == Alloc(c, order).0;
    }
  }

  lemma SupplyIs(lists: seq<seq<nat>>, order: int)
    requires |lists| == BUDDY_MAX_ORDER + 1
    ensures 0 <= order < 8 ==> Supply(lists, order) == |lists[order]| + 2 * |lists[order + 1]|
  {
  }

  /** The free lists before the first call tell how many calls in a row are served. */
  lemma GrantsExactly(b: Buddy, order: int, k: nat)
    requires Valid(b)
    ensures Grants(b, order, k) <==> k <= Supply(b.lists, order)
    ensures 0 <= order < 8 ==> (Grants(b, order, k) <==> k <= |b.lists[order]| + 2 * |b.lists[order + 1]|)
  {
    SupplyIs(b.lists, order);
    hide Valid, Alloc, Supply, Pallocs;
    ValidBlocks(b);
    var n := Supply(b.lists, order);
    if k <= n {
      SupplyAfter(b, order, k);
    } else {
      SupplyAfter(b, order, n);
      ValidBlocks(Pallocs(b, order, n));
      PallocOutcome(Pallocs(b, order, n), order);
      assert !Alloc(Pallocs(b, order, n), order).1.Got?;
    }
  }

  /** The first call that is not served panics just when no larger block is free. */
  lemma FirstRefusal(b: Buddy, order: Order)
    requires Valid(b) && order < BUDDY_MAX_ORDER
    ensures var r := Alloc(Pallocs(b, order, Supply(b.lists, order)), order).1;
      if forall j: Order :: j > order + 1 ==> |b.lists[j]| == 0 then r.Panic? else r.Null?
  {
    hide Valid, Alloc, Pallocs;
    ValidBlocks(b);
    var n := Supply(b.lists, order);
    SupplyAfter(b, order, n);
    ValidBlocks(Pallocs(b, order, n));
    PallocOutcome(Pallocs(b, order, n), order);
  }

  /** After m failed calls the smallest free order is m lower, and the list there has
      the same block p at its back, with p's upper half before it. */
  ghost predicate Lowered(b: Buddy, c: Buddy, order: Order, k: Order, m: nat) {
    && Valid(b) && Valid(c) && order + m <= k
    && FirstFree(b.lists, order) == k && FirstFree(c.lists, order) == k - m
    && Back(c, k - m) == Back(b, k) && FreeTotal(c.lists) == FreeTotal(b.lists)
  }

  /** One failed call. */
  lemma LowerOnce(b: Buddy, c: Buddy, order: Order, k: Order, m: nat)
    requires Lowered(b, c, order, k, m) && order + m + 1 < k
    ensures Alloc(c, order).1 == Null && Lowered(b, Alloc(c, order).0, order, k, m + 1)
  {
    hide Size, Rem, BuddyOf, GoodBlocks, GoodLists, Pallocs;
    SkipEmpty(c, order, k - m);
    SplitLists(c, order, k - m);
  }

  lemma {:induction false} LadderStep(b: Buddy, order: Order, k: Order, m: nat)
    requires Valid(b) && order + m < k && FirstFree(b.lists, order) == k
    ensures Lowered(b, Pallocs(b, order, m), order, k, m)
    ensures m > 0 ==> Alloc(Pallocs(b, order, m - 1), order).1 == Null
  {
    hide Alloc, Valid;
    if m > 0 {
      LadderStep(b, order, k, m - 1);
      LowerOnce(b, Pallocs(b, order, m - 1), order, k, m - 1);
    }
  }

  lemma SkipEmpty(b: Buddy, order: Order, k: Order)
    requires Valid(b) && order < k && FirstFree(b.lists, order) == k
    ensures b.lists[order] == [] && FirstFree(b.lists, order + 1) == k
  {
  }

  lemma SplitLists(b: Buddy, order: Order, k: Order)
    requires Valid(b) && order < k && FirstFree(b.lists, order) == k
    ensures var c := Split(b, k);
      && Valid(c) && FirstFree(c.lists, order) == k - 1 && Back(c, k - 1) == Back(b, k) && |c.lists[k - 1]| == 2
      && FreeTotal(c.lists) == FreeTotal(b.lists) && (k - 1 > order ==> c.lists[order] == [])
  {
    hide Size, Rem, GoodBlocks, GoodLists, BuddyOf;
    SplitKeeps(b, k);
    var c := Split(b, k);
    FirstFreeIs(c.lists, order, k - 1);
  }

  lemma {:induction false} FirstFreeIs(lists: seq<seq<nat>>, o: nat, k: nat)
    requires |lists| == BUDDY_MAX_ORDER + 1 && o <= k <= BUDDY_MAX_ORDER && |lists[k]| > 0
    requires forall j :: o <= j < k ==> lists[j] == []
    ensures FirstFree(lists, o) == k
    decreases k - o
  {
    if o < k {
      FirstFreeIs(lists, o + 1, k);
    }
  }

  /** The call after m calls returns NULL and leaves the free-page count of b. */
  ghost predicate FailsAt(b: Buddy, order: Order, m: nat)
    requires Valid(b)
  {
    && Alloc(Pallocs(b, order, m), order).1 == Null
    && FreeTotal(Pallocs(b, order, m + 1).lists) == FreeTotal(b.lists)
  }

  /** If order has no free block and k is the smallest order above that has one, the
      first k - order - 1 calls return NULL with the free-page count unchanged, and the
      next returns the lower half of the block just split: the head of the block that
      list k had at its back. */
  lemma Ladder(b: Buddy, order: Order, k: Order)
    requires Valid(b) && order < k && FirstFree(b.lists, order) == k
    ensures forall m: nat :: m < k - order - 1 ==> FailsAt(b, order, m)
    ensures Alloc(Pallocs(b, order, k - order - 1), order).1 == Got(Back(b, k))
  {
    hide Alloc, Pallocs, FreeTotal, FirstFree, Valid, Back;
    forall m: nat | m < k - order - 1
      ensures FailsAt(b, order, m)
    {
      LadderStep(b, order, k, m + 1);
    }
    LadderStep(b, order, k, k - order - 1);
    LastCall(b, Pallocs(b, order, k - order - 1), order, k);
  }

  lemma LastCall(b: Buddy, c: Buddy, order: Order, k: Order)
    requires order < k && Lowered(b, c, order, k, k - order - 1)
    ensures Alloc(c, order).1 == Got(Back(b, k))
  {
    hide Size, Rem, BuddyOf, GoodBlocks, GoodLists, Pallocs, FreeTotal, Take;
    SkipEmpty(c, order, order + 1);
    SplitLists(c, order, order + 1);
  }

  // ------------------------------------------------------- canonical free lists

  /** All pages of an aligned run are free. */
  ghost predicate AllFree(b: Buddy, p: nat, k: Order) {
    forall i: nat :: Within(i, p, k) ==> FreePage(b, i)
  }

  /** An aligned free run that no larger aligned free run contains. */
  ghost predicate Maximal(b: Buddy, p: nat, k: Order) {
    && Rem(p, k) == 0 && AllFree(b, p, k)
    && (k < BUDDY_MAX_ORDER ==> !AllFree(b, Lower(p, k), k + 1))
  }

  ghost predicate Covers(p: nat, k: Order, q: nat, j: Order) {
    p <= q && q + Size(j) <= p + Size(k)
  }

  /** Aligned runs are nested or disjoint. */
  lemma Nested(p: nat, k: Order, q: nat, j: Order, i: nat)
    requires Rem(p, k) == 0 && Rem(q, j) == 0 && j <= k && Within(i, p, k) && Within(i, q, j)
    ensures Covers(p, k, q, j)
  {
    RemMod(p, k);
    RemMod(q, j);
    SizeMultiple(k, j);
    NestedMultiples(p, Size(k), q, Size(j), i);
  }

  lemma {:induction false} SizeMultiple(k: Order, j: Order)
    requires j <= k
    ensures Size(k) % Size(j) == 0
    decreases k
  {
    if j < k {
      SizeMultiple(k - 1, j);
      RemMod(0, k - 1);
      var s, t := Size(j), Size(k - 1) / Size(j);
      assert Size(k) == s * (2 * t) by {
        assert Size(k - 1) == s * t;
      }
      Bits.DivUnique(Size(k), s, 2 * t, 0);
    } else {
      Bits.DivUnique(Size(k), Size(k), 1, 0);
    }
  }

  lemma NestedMultiples(p: nat, s: nat, q: nat, t: nat, i: nat)
    requires t > 0 && s > 0 && p % s == 0 && q % t == 0 && s % t == 0
    requires p <= i < p + s && q <= i < q + t
    ensures p <= q && q + t <= p + s
  {
    Bits.Parts(p, s);
    Bits.Parts(q, t);
    Bits.Parts(s, t);
    NestedProducts(p, s, q, t, p / s, q / t, s / t, i);
  }

  lemma NestedProducts(p: nat, s: nat, q: nat, t: nat, a: nat, c: nat, d: nat, i: nat)
    requires t > 0 && p == s * a && q == t * c && s == t * d
    requires p <= i < p + s && q <= i < q + t
    ensures p <= q && q + t <= p + s
  {
    Bits.Regroup(t, d, a, 0);
    NestedRuns(t, d * a, d, c, i);
  }

  /** Run c of t pages meets the d runs from number x on only if it is one of them. */
  lemma NestedRuns(t: nat, x: nat, d: nat, c: nat, i: nat)
    requires t > 0 && t * x <= i < t * x + t * d && t * c <= i < t * c + t
    ensures t * x <= t * c && t * c + t <= t * x + t * d
  {
    assert t * (x + d) == t * x + t * d;
    assert t * (c + 1) == t * c + t;
    MulCancel(t, x, c + 1);
    MulCancel(t, c, x + d);
    Bits.MulMonotone(t, c, x);
    Bits.MulMonotone(t, x + d, c + 1);
  }

  lemma MulCancel(t: nat, x: int, y: int)
    requires t > 0 && t * x < t * y
    ensures x < y
  {
    Bits.MulMonotone(t, x, y);
  }

  /** In a fully coalesced state every aligned free run lies in one free block. */
  lemma {:induction false} FreeRunInBlock(b: Buddy, p: nat, k: Order) returns (q: nat, j: Order)
    requires Valid(b) && Coalesced(b) && Rem(p, k) == 0 && AllFree(b, p, k)
    ensures IsFree(b, q, j) && j >= k && Covers(q, j, p, k)
    decreases k
  {
    hide IsFree, Within, Size, Rem, BuddyOf, Lower, Valid;
    ValidBlocks(b);
    if k == 0 {
      q, j := BlockOfPage(b, p);
    } else {
      SubRuns(b, p, k - 1);
      var r := BuddyOf(p, k - 1);
      var q1, j1 := FreeRunInBlock(b, p, k - 1);
      var q2, j2 := FreeRunInBlock(b, r, k - 1);
      FreeAligned(b, q1, j1);
      FreeAligned(b, q2, j2);
      LargerThanHalf(b, p, k - 1, q1, j1, q2, j2);
      if j1 >= k {
        Around(q1, j1, p, k);
        q, j := q1, j1;
      } else {
        AroundUpper(q2, j2, p, k);
        q, j := q2, j2;
      }
    }
  }

  /** Of the free blocks around two buddies one is larger than they are. */
  lemma LargerThanHalf(b: Buddy, p: nat, k: Order, q1: nat, j1: Order, q2: nat, j2: Order)
    requires Coalesced(b) && k < BUDDY_MAX_ORDER && j1 >= k && j2 >= k
    requires IsFree(b, q1, j1) && IsFree(b, q2, j2) && Covers(q1, j1, p, k) && Covers(q2, j2, BuddyOf(p, k), k)
    ensures j1 > k || j2 > k
  {
    hide IsFree, BuddyOf, Size;
    assert j1 == k ==> q1 == p;
    assert j2 == k ==> q2 == BuddyOf(p, k);
  }

  lemma BlockOfPage(b: Buddy, p: nat) returns (q: nat, j: Order)
    requires AllFree(b, p, 0)
    ensures IsFree(b, q, j) && Covers(q, j, p, 0)
  {
    assert Within(p, p, 0);
    q, j :| IsFree(b, q, j) && Within(p, q, j);
  }

  lemma SubRuns(b: Buddy, p: nat, k: Order)
    requires k < BUDDY_MAX_ORDER && Rem(p, k + 1) == 0 && AllFree(b, p, k + 1)
    ensures Rem(p, k) == 0 && Rem(BuddyOf(p, k), k) == 0 && AllFree(b, p, k) && AllFree(b, BuddyOf(p, k), k)
  {
    hide FreePage;
    RemHalf(p, k);
    Halves(p, k);
  }

  lemma Around(q: nat, j: Order, p: nat, k: Order)
    requires 0 < k <= j && Rem(q, j) == 0 && Rem(p, k) == 0 && Covers(q, j, p, k - 1)
    ensures Covers(q, j, p, k)
  {
    hide Rem;
    Nested(q, j, p, k, p);
  }

  lemma AroundUpper(q: nat, j: Order, p: nat, k: Order)
    requires 0 < k <= j && Rem(q, j) == 0 && Rem(p, k) == 0 && Covers(q, j, BuddyOf(p, k - 1), k - 1)
    ensures Covers(q, j, p, k)
  {
    RemHalf(p, k - 1);
    Halves(p, k - 1);
    hide Rem;
    Nested(q, j, p, k, BuddyOf(p, k - 1));
  }

  lemma SameRun(q: nat, p: nat, k: Order)
    requires Covers(q, k, p, k)
    ensures q == p
  {
  }

  /** In a fully coalesced state the free blocks are exactly the maximal aligned
      power-of-two runs of free pages. */
  lemma FreeBlocksAreMaximal(b: Buddy, p: nat, k: Order)
    requires Valid(b) && Coalesced(b)
    ensures IsFree(b, p, k) <==> Maximal(b, p, k)
  {
    hide IsFree, Within, Size, Rem, BuddyOf, Lower, Valid, Coalesced;
    ValidBlocks(b);
    if IsFree(b, p, k) {
      FreeAligned(b, p, k);
      if k < BUDDY_MAX_ORDER && AllFree(b, Lower(p, k), k + 1) {
        Halves(p, k);
        var q, j := FreeRunInBlock(b, Lower(p, k), k + 1);
        HalfOfRun(p, k);
        NoOverlap(b, p, k, q, j);
      }
      assert Maximal(b, p, k);
    }
    if Maximal(b, p, k) {
      var q, j := FreeRunInBlock(b, p, k);
      FreeAligned(b, q, j);
      if j == k {
        SameRun(q, p, k);
      } else {
        Halves(p, k);
        HalfOfRun(p, k);
        AroundLower(q, j, p, k);
        InBlockIsFree(b, q, j, Lower(p, k), k + 1);
      }
    }
  }

  lemma HalfOfRun(p: nat, k: Order)
    requires k < BUDDY_MAX_ORDER && Rem(p, k) == 0
    ensures Covers(Lower(p, k), k + 1, p, k)
  {
    Halves(p, k);
    hide Rem, BuddyOf;
  }

  /** No free block of order k sits inside a larger free block. */
  lemma NoOverlap(b: Buddy, p: nat, k: Order, q: nat, j: Order)
    requires GoodBlocks(b) && IsFree(b, p, k) && IsFree(b, q, j) && j > k
    ensures !Covers(q, j, p, k)
  {
    assert p != q ==> Disjoint(p, k, q, j);
  }

  lemma AroundLower(q: nat, j: Order, p: nat, k: Order)
    requires k < j && Rem(q, j) == 0 && Rem(Lower(p, k), k + 1) == 0 && Covers(q, j, p, k)
    requires Covers(Lower(p, k), k + 1, p, k)
    ensures Covers(q, j, Lower(p, k), k + 1)
  {
    hide Rem, Lower;
    Nested(q, j, Lower(p, k), k + 1, p);
  }

  lemma InBlockIsFree(b: Buddy, q: nat, j: Order, p: nat, k: Order)
    requires IsFree(b, q, j) && Covers(q, j, p, k)
    ensures AllFree(b, p, k)
  {
    forall i: nat | Within(i, p, k)
      ensures FreePage(b, i)
    {
      assert IsFree(b, q, j) && Within(i, q, j);
    }
  }

  /** So the free lists, as sets, depend only on which pages are free. */
  lemma FreeListsFromFreePages(b: Buddy, c: Buddy)
    requires Valid(b) && Coalesced(b) && Valid(c) && Coalesced(c)
    requires forall i: nat :: FreePage(b, i) <==> FreePage(c, i)
    ensures forall p: nat, k: Order :: p in b.lists[k] <==> p in c.lists[k]
  {
    forall p: nat, k: Order
      ensures p in b.lists[k] <==> p in c.lists[k]
    {
      FreeBlocksAreMaximal(b, p, k);
      FreeBlocksAreMaximal(c, p, k);
      SameMaximal(b, c, p, k);
    }
  }

  lemma SameMaximal(b: Buddy, c: Buddy, p: nat, k: Order)
    requires forall i: nat :: FreePage(b, i) <==> FreePage(c, i)
    ensures Maximal(b, p, k) <==> Maximal(c, p, k)
  {
    hide FreePage, Within, Rem, Lower;
  }

  // --------------------------------------------------------------------- runs

  datatype Call = CallPalloc(order: int) | CallPfree(page: nat)

  function After(b: Buddy, call: Call): (c: Buddy)
    requires Valid(b)
    ensures Valid(c)
  {
    match call
    case CallPalloc(o) => PallocKeeps(b, o); Alloc(b, o).0
    case CallPfree(p) => PfreeKeeps(b, p); Release(b, p)
  }

  /** The state after a run of calls. */
  function Run(b: Buddy, calls: seq<Call>): (c: Buddy)
    requires Valid(b)
    ensures Valid(c)
    decreases |calls|
  {
    if calls == [] then b else Run(After(b, calls[0]), calls[1..])
  }

  /** Every palloc of the run returned a block. */
  predicate AllServed(b: Buddy, calls: seq<Call>)
    requires Valid(b)
    decreases |calls|
  {
    calls == [] ||
    ((calls[0].CallPalloc? ==> Alloc(b, calls[0].order).1.Got?) && AllServed(After(b, calls[0]), calls[1..]))
  }

  ghost predicate Managed(b: Buddy, i: nat) {
    FreePage(b, i) || LivePage(b, i)
  }

  /** No page is both free and live. */
  lemma FreeNotLive(b: Buddy, i: nat)
    requires Valid(b)
    ensures !(FreePage(b, i) && LivePage(b, i))
  {
    hide Size, Rem, GoodLists;
    forall p: nat, k: Order, q: nat, j: Order | IsFree(b, p, k) && IsLive(b, q, j)
      ensures !(Within(i, p, k) && Within(i, q, j))
    {
      assert p != q && Disjoint(p, k, q, j);
    }
  }

  /** Live pages after one more block is live. */
  lemma MoreLivePages(b: Buddy, c: Buddy, p: nat, k: Order)
    requires forall q: nat, j: Order :: IsLive(c, q, j) <==> IsLive(b, q, j) || (q == p && j == k)
    ensures forall i: nat :: LivePage(c, i) <==> LivePage(b, i) || Within(i, p, k)
  {
    hide IsLive, Within;
    forall i: nat
      ensures LivePage(c, i) <==> LivePage(b, i) || Within(i, p, k)
    {
      if LivePage(c, i) {
        var q: nat, j: Order :| IsLive(c, q, j) && Within(i, q, j);
      }
      if LivePage(b, i) {
        var q: nat, j: Order :| IsLive(b, q, j) && Within(i, q, j);
        assert IsLive(c, q, j);
      }
      assert IsLive(c, p, k);
    }
  }

  /** One call neither loses nor invents a page. */
  lemma CallConserves(b: Buddy, call: Call)
    requires Valid(b)
    ensures After(b, call).n == b.n
    ensures forall i: nat :: Managed(After(b, call), i) <==> Managed(b, i)
    ensures Coalesced(b) && (call.CallPalloc? ==> Alloc(b, call.order).1.Got?) ==> Coalesced(After(b, call))
  {
    hide Valid, IsFree, IsLive, FreePage, LivePage, Within, Size, FreeTotal, Alloc, Release, Coalesced;
    ListsOf(b);
    match call
    case CallPalloc(o) =>
      PallocKeeps(b, o);
      var (c, r) := Alloc(b, o);
      match r {
        case Panic =>
        case Null => SameLivePages(b, c);
        case Got(p) => MoreLivePages(b, c, p, o);
      }
    case CallPfree(p) =>
      PfreeKeeps(b, p);
      if exists k: Order :: IsLive(b, p, k) {
        var k: Order :| IsLive(b, p, k);
        OneOrder(b, p, k);
        MoreLivePages(Release(b, p), b, p, k);
      }
  }

  lemma OneOrder(b: Buddy, p: nat, k: Order)
    requires IsLive(b, p, k)
    ensures forall j: Order :: IsLive(b, p, j) ==> j == k
  {
  }

  /** Conservation: over every run the pages that are free or live stay the same. */
  lemma {:induction false} RunConserves(b: Buddy, calls: seq<Call>)
    requires Valid(b)
    ensures Run(b, calls).n == b.n
    ensures forall i: nat :: Managed(Run(b, calls), i) <==> Managed(b, i)
    ensures Coalesced(b) && AllServed(b, calls) ==> Coalesced(Run(b, calls))
    decreases |calls|
  {
    hide Valid, Managed, After, Coalesced;
    if calls != [] {
      CallConserves(b, calls[0]);
      RunConserves(After(b, calls[0]), calls[1..]);
    }
  }

  /** If every palloc of a run was served and no block is live at its end, the free
      lists hold again what they held at the start, in whatever order blocks were freed. */
  lemma FreeingAllRestores(b: Buddy, calls: seq<Call>)
    requires Valid(b) && Coalesced(b) && AllServed(b, calls)
    requires forall i: nat :: !LivePage(b, i) && !LivePage(Run(b, calls), i)
    ensures forall p: nat, k: Order :: p in b.lists[k] <==> p in Run(b, calls).lists[k]
  {
    hide Valid, FreePage, LivePage, Run, AllServed, Coalesced;
    RunConserves(b, calls);
    ListsOf(b);
    ListsOf(Run(b, calls));
    forall i: nat
      ensures FreePage(b, i) <==> FreePage(Run(b, calls), i)
    {
      assert Managed(Run(b, calls), i) <==> Managed(b, i);
    }
    FreeListsFromFreePages(b, Run(b, calls));
  }

  lemma ListsOf(b: Buddy)
    requires Valid(b)
    ensures |b.lists| == BUDDY_MAX_ORDER + 1
  {
  }
}
