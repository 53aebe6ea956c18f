/** The free lists of the buddy allocator inside memory: list heads in the allocator's
    static array, list nodes in the first two words of the free blocks themselves. */
module BuddyMemory {
  import opened Bits
  import opened PageTables
  import opened Lists
  import opened BuddyModel
  import opened Sequences

  /** Words per list head: next, prev and the counter. */
  const HEAD_WORDS := 3
  const MAPS_WORDS := 27

  /** get_list: the node of the block headed by page p. */
  function Node(p: nat): Addr {
    if 512 * p < DIRECT_WORDS then 512 * p else 0
  }

  /** The sentinel of list k. */
  function Head(maps: Addr, k: Order): Addr {
    if maps + HEAD_WORDS * k < DIRECT_WORDS then maps + HEAD_WORDS * k else 0
  }

  function Nodes(s: seq<nat>): (ns: seq<Addr>)
    ensures |ns| == |s|
  {
    seq(|s|, i requires 0 <= i < |s| => Node(s[i]))
  }

  /** Frame t holds none of the list heads. */
  predicate Foreign(maps: Addr, t: nat) {
    512 * t + 512 <= maps || maps + MAPS_WORDS <= 512 * t
  }

  ghost predicate HeadsAvoid(maps: Addr, p: nat, k: Order) {
    forall i: nat :: Within(i, p, k) ==> Foreign(maps, i)
  }

  ghost predicate Layout(b: Buddy, words: nat, maps: Addr) {
    && 512 * b.n <= words <= DIRECT_WORDS && maps + MAPS_WORDS <= words
    && forall p :: p in b.blocks && 0 <= b.blocks[p].order <= BUDDY_MAX_ORDER ==> HeadsAvoid(maps, p, b.blocks[p].order)
  }

  ghost predicate ListsIn(b: Buddy, m: Mem, maps: Addr)
    requires |b.lists| == BUDDY_MAX_ORDER + 1
  {
    forall k: Order :: IsList(m, Head(maps, k), Nodes(b.lists[k]))
  }

  /** The lists of b are in memory m. */
  ghost predicate InMemory(b: Buddy, m: Mem, maps: Addr) {
    Valid(b) && Layout(b, |m|, maps) && ListsIn(b, m, maps)
  }

  /** m' differs from m at most in the list heads and in frames that b counts as free. */
  ghost predicate SparesOthers(b: Buddy, m: Mem, m': Mem, maps: Addr) {
    && |m'| == |m|
    && forall t: nat, i: Index :: !FreePage(b, t) && Foreign(maps, t) ==> Entry(m', t, i) == Entry(m, t, i)
  }

  // ------------------------------------------------------------------- nodes

  lemma NodeIs(b: Buddy, words: nat, maps: Addr, p: nat, k: Order)
    requires GoodBlocks(b) && Layout(b, words, maps) && (IsFree(b, p, k) || IsLive(b, p, k))
    ensures Node(p) == 512 * p && 512 * p + 512 <= words && Foreign(maps, p)
  {
    assert Within(p, p, k);
  }

  lemma HeadsApart(b: Buddy, words: nat, maps: Addr, j: Order, k: Order)
    requires Layout(b, words, maps) && j != k
    ensures Head(maps, j) == maps + 3 * j && Apart(Head(maps, j), Head(maps, k))
  {
  }

  /** A free block's node and the nodes of another list share no word. */
  lemma NodeApart(b: Buddy, words: nat, maps: Addr, p: nat, q: nat, j: Order, k: Order)
    requires Valid(b) && Layout(b, words, maps) && q in b.lists[j] && p != q
    requires 512 * p + 512 <= words && Foreign(maps, p) && Node(p) == 512 * p
    ensures Apart(Node(p), Node(q)) && Apart(Node(q), Node(p)) && Apart(Node(p), Head(maps, k))
    ensures Apart(Head(maps, k), Node(p))
    ensures Apart(Node(q), Head(maps, k)) && Apart(Head(maps, k), Node(q))
  {
    assert IsFree(b, q, j);
    NodeIs(b, words, maps, q, j);
  }

  lemma ForeignApart(words: nat, maps: Addr, p: nat, k: Order)
    requires words <= DIRECT_WORDS && maps + MAPS_WORDS <= words
    requires 512 * p + 512 <= words && Foreign(maps, p)
    ensures Node(p) == 512 * p && Head(maps, k) == maps + 3 * k
    ensures Apart(Node(p), Head(maps, k)) && Apart(Head(maps, k), Node(p))
  {
  }

  /** The nodes an operation on list k touches, if page p is its subject. */
  function Touched(b: Buddy, maps: Addr, k: Order, p: nat): seq<Addr>
    requires |b.lists| == BUDDY_MAX_ORDER + 1
  {
    [Node(p)] + [Head(maps, k)] + Nodes(b.lists[k])
  }

  /** An operation on list k leaves list j alone. */
  lemma OtherList(b: Buddy, m: Mem, m': Mem, maps: Addr, k: Order, j: Order, p: nat)
    requires InMemory(b, m, maps) && j != k
    requires 512 * p + 512 <= |m| && Foreign(maps, p) && p !in b.lists[j]
    requires OnlyNodes(m, m', Touched(b, maps, k, p))
    ensures IsList(m', Head(maps, j), Nodes(b.lists[j]))
  {
    var ns := [Head(maps, j)] + Nodes(b.lists[j]);
    forall a: nat | a < |m| && InNodes(a, ns)
      ensures m'[a] == m[a]
    {
      var x :| 0 <= x < |ns| && (a == ns[x] || a == ns[x] as int + 1);
      NodeAway(b, |m|, maps, k, j, p, x);
    }
    ListFrame(m, m', Head(maps, j), Nodes(b.lists[j]));
  }

  /** Node x of list j is apart from everything touched. */
  lemma NodeAway(b: Buddy, words: nat, maps: Addr, k: Order, j: Order, p: nat, x: nat)
    requires Valid(b) && Layout(b, words, maps) && j != k && x < 1 + |b.lists[j]|
    requires 512 * p + 512 <= words && Foreign(maps, p) && p !in b.lists[j]
    ensures forall y :: 0 <= y < |Touched(b, maps, k, p)| ==>
      Apart(([Head(maps, j)] + Nodes(b.lists[j]))[x], Touched(b, maps, k, p)[y])
  {
    ForeignApart(words, maps, p, j);
    HeadsApart(b, words, maps, j, k);
    forall y | 0 <= y < |Touched(b, maps, k, p)|
      ensures Apart(([Head(maps, j)] + Nodes(b.lists[j]))[x], Touched(b, maps, k, p)[y])
    {
      if x > 0 {
        var q := b.lists[j][x - 1];
        assert q in b.lists[j] && IsFree(b, q, j);
        NodeApart(b, words, maps, p, q, j, k);
        NodeIs(b, words, maps, q, j);
        if y >= 2 {
          var r := b.lists[k][y - 2];
          assert r in b.lists[k] && IsFree(b, r, k);
          NodeIs(b, words, maps, r, k);
          NodeApart(b, words, maps, r, q, j, k);
        }
      } else if y >= 2 {
        var r := b.lists[k][y - 2];
        assert r in b.lists[k] && IsFree(b, r, k);
        NodeIs(b, words, maps, r, k);
        ForeignApart(words, maps, r, j);
      }
    }
  }

  /** Writing only touched nodes spares every frame that is not free. */
  lemma TouchedSpares(b: Buddy, c: Buddy, m: Mem, m': Mem, maps: Addr, k: Order, p: nat)
    requires InMemory(b, m, maps) && OnlyNodes(m, m', Touched(b, maps, k, p))
    requires FreePage(c, p) && 512 * p + 512 <= |m| && forall i: nat :: FreePage(b, i) ==> FreePage(c, i)
    ensures SparesOthers(c, m, m', maps)
  {
    forall t: nat, i: Index | !FreePage(c, t) && Foreign(maps, t)
      ensures Entry(m', t, i) == Entry(m, t, i)
    {
      var a: nat := 512 * t + i;
      var ns := Touched(b, maps, k, p);
      if a < |m| && InNodes(a, ns) {
        var y :| 0 <= y < |ns| && (a == ns[y] || a == ns[y] as int + 1);
        TouchedFrame(b, c, |m|, maps, k, p, y, t);
      }
    }
  }

  lemma TouchedFrame(b: Buddy, c: Buddy, words: nat, maps: Addr, k: Order, p: nat, y: nat, t: nat)
    requires Valid(b) && Layout(b, words, maps) && y < |Touched(b, maps, k, p)|
    requires FreePage(c, p) && 512 * p + 512 <= words && forall i: nat :: FreePage(b, i) ==> FreePage(c, i)
    requires !FreePage(c, t) && Foreign(maps, t)
    ensures !(512 * t <= Touched(b, maps, k, p)[y] < 512 * t + 512)
    ensures !(512 * t <= Touched(b, maps, k, p)[y] as int + 1 < 512 * t + 512)
  {
    if y >= 2 {
      var r := b.lists[k][y - 2];
      assert r in b.lists[k] && IsFree(b, r, k) && Within(r, r, k);
      NodeIs(b, words, maps, r, k);
      assert FreePage(b, r);
    }
  }

  // --------------------------------------------------------------- operations

  lemma NodesSlices(s: seq<nat>, i: nat)
    requires i < |s|
    ensures Nodes(s[..i] + s[i + 1..]) == Nodes(s)[..i] + Nodes(s)[i + 1..]
    ensures Nodes(s)[i] == Node(s[i])
  {
  }

  lemma LayoutShrinks(b: Buddy, c: Buddy, words: nat, maps: Addr)
    requires Layout(b, words, maps) && c.n == b.n
    requires forall q :: q in c.blocks ==> q in b.blocks && c.blocks[q] == b.blocks[q]
    ensures Layout(c, words, maps)
  {
  }

  /** list_del of a free block's node takes the block off the books. */
  lemma UnlistMemory(b: Buddy, m: Mem, maps: Addr, q: nat, k: Order, j: nat)
    requires InMemory(b, m, maps) && j < |b.lists[k]| && b.lists[k][j] == q
    ensures IsFree(b, q, k) && 512 * q + 512 <= |m| && Foreign(maps, q) && Node(q) == 512 * q
    ensures Room(m, Node(q)) && IsList(m, Head(maps, k), Nodes(b.lists[k])) && Nodes(b.lists[k])[j] == Node(q)
    ensures InMemory(Unlist(b, q, k), Del(m, Node(q)), maps)
    ensures SparesOthers(b, m, Del(m, Node(q)), maps)
  {
    hide Size, Rem, FreeTotal, Coalesced, Layout, IsList, OnlyNodes, SparesOthers, Del;
    assert q in b.lists[k] && IsFree(b, q, k);
    NodeIs(b, |m|, maps, q, k);
    var c := Unlist(b, q, k);
    UnlistValid(b, q, k);
    assert IsList(m, Head(maps, k), Nodes(b.lists[k]));
    NodesSlices(b.lists[k], j);
    DelList(m, Head(maps, k), Nodes(b.lists[k]), j);
    var m' := Del(m, Node(q));
    MoreNodes(m, m', [Head(maps, k)] + Nodes(b.lists[k]), Touched(b, maps, k, q));
    WithoutAt(b.lists[k], j);
    forall i: Order
      ensures IsList(m', Head(maps, i), Nodes(c.lists[i]))
    {
      if i != k {
        assert q !in b.lists[i];
        OtherList(b, m, m', maps, k, i, q);
      }
    }
    LayoutShrinks(b, c, |m|, maps);
    assert Within(q, q, k);
    TouchedSpares(b, b, m, m', maps, k, q);
  }

  lemma MoreNodes(m: Mem, m': Mem, ns: seq<Addr>, more: seq<Addr>)
    requires OnlyNodes(m, m', ns) && forall x :: x in ns ==> x in more
    ensures OnlyNodes(m, m', more)
  {
    forall a: nat | a < |m| && !InNodes(a, more)
      ensures m'[a] == m[a]
    {
      forall i | 0 <= i < |ns|
        ensures a != ns[i] && a != ns[i] as int + 1
      {
        assert ns[i] in more;
      }
    }
  }

  /** list_add of a loose block's node puts the block on the books. */
  lemma EnlistMemory(b: Buddy, m: Mem, maps: Addr, p: nat, k: Order)
    requires InMemory(b, m, maps) && Loose(b, p, k) && HeadsAvoid(maps, p, k)
    ensures Room(m, Node(p)) && Room(m, Head(maps, k)) && Node(p) == 512 * p
    ensures IsList(m, Head(maps, k), Nodes(b.lists[k]))
    ensures forall i :: 0 <= i < |b.lists[k]| + 1 ==> Apart(Node(p), ([Head(maps, k)] + Nodes(b.lists[k]))[i])
    ensures InMemory(Enlist(b, p, k), AddFront(m, Node(p), Head(maps, k)), maps)
    ensures SparesOthers(Enlist(b, p, k), m, AddFront(m, Node(p), Head(maps, k)), maps)
  {
    hide Rem, FreeTotal, Coalesced, IsList, OnlyNodes, SparesOthers, AddFront, GoodBlocks, Apart;
    var c := Enlist(b, p, k);
    EnlistValid(b, p, k);
    assert Within(p, p, k) && p < b.n;
    ForeignApart(|m|, maps, p, k);
    forall i | 0 <= i < |b.lists[k]| + 1
      ensures Apart(Node(p), ([Head(maps, k)] + Nodes(b.lists[k]))[i])
    {
      if i > 0 {
        var r := b.lists[k][i - 1];
        assert r in b.lists[k] && r in b.blocks;
        NodeApart(b, |m|, maps, p, r, k, k);
      }
    }
    assert IsList(m, Head(maps, k), Nodes(b.lists[k]));
    AddFrontList(m, Node(p), Head(maps, k), Nodes(b.lists[k]));
    var m' := AddFront(m, Node(p), Head(maps, k));
    assert [Node(p)] + [Head(maps, k)] + Nodes(b.lists[k]) == Touched(b, maps, k, p);
    assert Nodes([p] + b.lists[k]) == [Node(p)] + Nodes(b.lists[k]);
    forall i: Order
      ensures IsList(m', Head(maps, i), Nodes(c.lists[i]))
    {
      if i != k {
        assert p !in b.lists[i];
        OtherList(b, m, m', maps, k, i, p);
      }
    }
    EnlistLayout(b, |m|, maps, p, k, true);
    MoreFreePages(b, c, p, k);
    TouchedSpares(b, c, m, m', maps, k, p);
  }

  lemma EnlistLayout(b: Buddy, words: nat, maps: Addr, p: nat, k: Order, free: bool)
    requires Layout(b, words, maps) && HeadsAvoid(maps, p, k)
    ensures Layout(b.(blocks := b.blocks[p := Block(k, free)]), words, maps)
  {
  }

  /** list_take_last finds the back of the list and takes it off the books. */
  lemma PopMemory(b: Buddy, m: Mem, maps: Addr, k: Order)
    requires InMemory(b, m, maps) && |b.lists[k]| > 0
    ensures var p := Back(b, k);
      && Room(m, Head(maps, k)) && Prev(m, Head(maps, k)) == Node(p) == 512 * p && 512 * p + 512 <= |m|
      && HeadsAvoid(maps, p, k) && IsFree(b, p, k) && Loose(PopBack(b, k), p, k)
      && IsList(m, Head(maps, k), Nodes(b.lists[k]))
      && InMemory(PopBack(b, k), TakeLast(m, Head(maps, k)), maps)
      && SparesOthers(b, m, TakeLast(m, Head(maps, k)), maps)
  {
    var j := |b.lists[k]| - 1;
    UnlistMemory(b, m, maps, Back(b, k), k, j);
    PopIsUnlist(b, k);
    PopKeeps(b, k);
    TakeLastList(m, Head(maps, k), Nodes(b.lists[k]));
  }

  lemma SparesTrans(b: Buddy, c: Buddy, m0: Mem, m1: Mem, m2: Mem, maps: Addr)
    requires SparesOthers(b, m0, m1, maps) && SparesOthers(c, m1, m2, maps)
    requires forall i: nat :: FreePage(b, i) ==> FreePage(c, i)
    ensures SparesOthers(c, m0, m2, maps)
  {
  }

  /** Memory that only clients have written still holds the lists. */
  lemma ClientsSpareLists(b: Buddy, m: Mem, m': Mem, maps: Addr, live: set<nat>)
    requires InMemory(b, m, maps) && |m'| == |m|
    requires forall t: nat, i: Index :: t !in live ==> Entry(m', t, i) == Entry(m, t, i)
    requires forall t :: t in live ==> !FreePage(b, t) && Foreign(maps, t)
    ensures InMemory(b, m', maps)
  {
    forall k: Order
      ensures IsList(m', Head(maps, k), Nodes(b.lists[k]))
    {
      assert IsList(m, Head(maps, k), Nodes(b.lists[k]));
      var ns := [Head(maps, k)] + Nodes(b.lists[k]);
      forall a: nat | a < |m| && InNodes(a, ns)
        ensures m'[a] == m[a]
      {
        var x :| 0 <= x < |ns| && (a == ns[x] || a == ns[x] as int + 1);
        var t, i := a / 512, a % 512;
        NodeNotClient(b, |m|, maps, k, x, a, t);
        assert t !in live;
        assert Entry(m', t, i) == Entry(m, t, i);
      }
      ListFrame(m, m', Head(maps, k), Nodes(b.lists[k]));
    }
  }

  lemma NodeNotClient(b: Buddy, words: nat, maps: Addr, k: Order, x: nat, a: nat, t: nat)
    requires Valid(b) && Layout(b, words, maps) && x < 1 + |b.lists[k]| && t == a / 512
    requires var n := ([Head(maps, k)] + Nodes(b.lists[k]))[x]; a == n || a == n as int + 1
    ensures FreePage(b, t) || !Foreign(maps, t)
  {
    if x > 0 {
      var r := b.lists[k][x - 1];
      assert r in b.lists[k] && IsFree(b, r, k) && Within(r, r, k);
      NodeIs(b, words, maps, r, k);
    }
  }

  // ------------------------------------------------------- memory after a palloc

  function TakeMem(m: Mem, maps: Addr, k: Order): Mem {
    if Room(m, Head(maps, k)) then TakeLast(m, Head(maps, k)) else m
  }

  function EnlistMem(m: Mem, maps: Addr, p: nat, k: Order): Mem {
    if Room(m, Node(p)) && Room(m, Head(maps, k)) then AddFront(m, Node(p), Head(maps, k)) else m
  }

  function SplitMem(b: Buddy, m: Mem, maps: Addr, k: Order): Mem
    requires |b.lists| == BUDDY_MAX_ORDER + 1 && k > 0 && |b.lists[k]| > 0
  {
    var p := Back(b, k);
    EnlistMem(EnlistMem(TakeMem(m, maps, k), maps, p, k - 1), maps, BuddyOf(p, k - 1), k - 1)
  }

  /** Clearing all pages of a block. */
  function ZeroRun(m: Mem, p: nat, k: Order): (m': Mem)
    ensures |m'| == |m|
    ensures forall t: nat, i: Index :: Entry(m', t, i) == if Within(t, p, k) then 0 else Entry(m, t, i)
  {
    seq(|m|, i requires 0 <= i < |m| => if 512 * p <= i < 512 * (p + Size(k)) then 0 else m[i])
  }

  /** Memory after palloc(order). */
  function PallocMem(b: Buddy, m: Mem, maps: Addr, order: int, zero: bool): Mem
    requires |b.lists| == BUDDY_MAX_ORDER + 1
  {
    if order > BUDDY_MAX_ORDER || order < 0 then m
    else if |b.lists[order]| > 0 then HandOut(m, maps, Back(b, order), order, zero)
    else if order == BUDDY_MAX_ORDER then m
    else
      var o := FirstFree(b.lists, order + 1);
      if o > BUDDY_MAX_ORDER then m
      else
        var c, m1 := Split(b, o), SplitMem(b, m, maps, o);
        if |c.lists[order]| > 0 then HandOut(m1, maps, Back(c, order), order, zero) else m1
  }

  function HandOut(m: Mem, maps: Addr, p: nat, k: Order, zero: bool): Mem {
    var m1 := TakeMem(m, maps, k);
    if zero then ZeroRun(m1, p, k) else m1
  }

  lemma HeadsAvoidHalves(maps: Addr, p: nat, k: Order)
    requires k < BUDDY_MAX_ORDER && HeadsAvoid(maps, p, k + 1)
    ensures HeadsAvoid(maps, p, k) && HeadsAvoid(maps, p + Size(k), k)
  {
    SizeUp(k);
    hide Size;
  }

  /** Splitting in memory. */
  lemma SplitMemory(b: Buddy, m: Mem, maps: Addr, k: Order)
    requires InMemory(b, m, maps) && k > 0 && |b.lists[k]| > 0
    ensures var p := Back(b, k);
      && InMemory(Split(b, k), SplitMem(b, m, maps, k), maps) && SparesOthers(b, m, SplitMem(b, m, maps, k), maps)
      && HeadsAvoid(maps, p, k) && IsFree(b, p, k) && Loose(PopBack(b, k), p, k) && BuddyOf(p, k - 1) == p + Size(k - 1)
      && var c0, m0 := PopBack(b, k), TakeMem(m, maps, k);
      && var c1, m1 := Enlist(c0, p, k - 1), EnlistMem(m0, maps, p, k - 1);
      && InMemory(c0, m0, maps) && InMemory(c1, m1, maps)
      && Loose(c0, p, k - 1) && Loose(c1, p + Size(k - 1), k - 1)
      && HeadsAvoid(maps, p, k - 1) && HeadsAvoid(maps, p + Size(k - 1), k - 1)
  {
    hide Size, Rem, GoodBlocks, GoodLists, Layout, ListsIn, FreePage, AddFront, TakeLast, Loose, BuddyOf, Lower,
         IsFree, FreeTotal, SparesOthers;
    var p := Back(b, k);
    PopMemory(b, m, maps, k);
    var c0, m0 := PopBack(b, k), TakeMem(m, maps, k);
    SplitLoose(c0, p, k - 1);
    HeadsAvoidHalves(maps, p, k - 1);
    EnlistMemory(c0, m0, maps, p, k - 1);
    var c1, m1 := Enlist(c0, p, k - 1), EnlistMem(m0, maps, p, k - 1);
    EnlistMemory(c1, m1, maps, p + Size(k - 1), k - 1);
    SplitKeeps(b, k);
    SplitSpares(b, k);
    var c2, m2 := Split(b, k), SplitMem(b, m, maps, k);
    SparesLess(c1, b, m0, m1, maps);
    SparesLess(c2, b, m1, m2, maps);
    SparesTrans(b, b, m, m0, m1, maps);
    SparesTrans(b, b, m, m1, m2, maps);
  }

  lemma SparesLess(b: Buddy, c: Buddy, m: Mem, m': Mem, maps: Addr)
    requires SparesOthers(b, m, m', maps) && forall i: nat :: FreePage(b, i) ==> FreePage(c, i)
    ensures SparesOthers(c, m, m', maps)
  {
  }

  /** On the way of a split no page becomes free that was not. */
  lemma SplitSpares(b: Buddy, k: Order)
    requires Valid(b) && k > 0 && |b.lists[k]| > 0
    ensures var p := Back(b, k);
      forall i: nat :: FreePage(Enlist(PopBack(b, k), p, k - 1), i) ==> FreePage(b, i)
  {
    hide Size, Rem, GoodBlocks, GoodLists, FreePage, Loose, BuddyOf, IsFree, FreeTotal, Within, Lower;
    var p := Back(b, k);
    PopKeeps(b, k);
    SplitLoose(PopBack(b, k), p, k - 1);
    EnlistValid(PopBack(b, k), p, k - 1);
    MoreFreePages(PopBack(b, k), b, p, k);
    MoreFreePages(PopBack(b, k), Enlist(PopBack(b, k), p, k - 1), p, k - 1);
    forall i: nat | Within(i, p, k - 1)
      ensures Within(i, p, k)
    {
      HalvesCover(p, k - 1, i);
    }
  }

  /** Handing out in memory. */
  lemma TakeMemory(b: Buddy, m: Mem, maps: Addr, k: Order, zero: bool)
    requires InMemory(b, m, maps) && |b.lists[k]| > 0
    ensures var p := Back(b, k);
      && InMemory(Take(b, k), HandOut(m, maps, p, k, zero), maps)
      && SparesOthers(b, m, HandOut(m, maps, p, k, zero), maps)
      && (zero ==> forall t: nat, i: Index :: Within(t, p, k) ==> Entry(HandOut(m, maps, p, k, zero), t, i) == 0)
  {
    hide Size, Rem, GoodBlocks, GoodLists, IsList, FreePage, TakeLast, Loose, IsFree, IsLive, FreeTotal, Entry, Within;
    var p := Back(b, k);
    PopMemory(b, m, maps, k);
    TakeKeeps(b, k);
    var c0, m0, c := PopBack(b, k), TakeMem(m, maps, k), Take(b, k);
    EnlistLayout(c0, |m|, maps, p, k, false);
    assert InMemory(c, m0, maps);
    if zero {
      TakenPages(b, c, p, k);
      var m1 := ZeroRun(m0, p, k);
      var live := set t: nat | t < p + Size(k) && Within(t, p, k);
      forall t | t in live
        ensures !FreePage(c, t) && Foreign(maps, t)
      {
        WithinIs(t, p, k);
      }
      forall t: nat, i: Index | t !in live
        ensures Entry(m1, t, i) == Entry(m0, t, i)
      {
        WithinIs(t, p, k);
      }
      ClientsSpareLists(c, m0, m1, maps, live);
    }
  }

  lemma WithinIs(t: nat, p: nat, k: Order)
    ensures Within(t, p, k) <==> p <= t < p + Size(k)
  {
  }

  /** palloc keeps the lists in memory and writes nothing but free frames and list heads. */
  lemma PallocMemory(b: Buddy, m: Mem, maps: Addr, order: int, zero: bool)
    requires InMemory(b, m, maps)
    ensures InMemory(Alloc(b, order).0, PallocMem(b, m, maps, order, zero), maps)
    ensures SparesOthers(b, m, PallocMem(b, m, maps, order, zero), maps)
    ensures zero && Alloc(b, order).1.Got? ==>
      0 <= order <= BUDDY_MAX_ORDER
      && forall t: nat, i: Index :: Within(t, Alloc(b, order).1.p, order) ==>
           Entry(PallocMem(b, m, maps, order, zero), t, i) == 0
  {
    hide Valid, Layout, ListsIn, SparesOthers, FreePage, Within, Entry, Take, Split, SplitMem, HandOut, IsFree, Loose,
         HeadsAvoid;
    InMemoryLists(b, m, maps);
    NothingWritten(b, m, maps);
    if 0 <= order <= BUDDY_MAX_ORDER {
      if |b.lists[order]| > 0 {
        TakeMemory(b, m, maps, order, zero);
      } else if order < BUDDY_MAX_ORDER {
        var o := FirstFree(b.lists, order + 1);
        if o <= BUDDY_MAX_ORDER {
          SplitMemory(b, m, maps, o);
          InMemoryLists(Split(b, o), SplitMem(b, m, maps, o), maps);
          if |Split(b, o).lists[order]| > 0 {
            TakeMemory(Split(b, o), SplitMem(b, m, maps, o), maps, order, zero);
            SplitKeeps(b, o);
            SparesLess(Split(b, o), b, SplitMem(b, m, maps, o), PallocMem(b, m, maps, order, zero), maps);
            SparesTrans(b, b, m, SplitMem(b, m, maps, o), PallocMem(b, m, maps, order, zero), maps);
          }
        }
      }
    }
  }

  /** A block asked for with PALLOC_ZERO comes cleared. */
  lemma ComesCleared(b: Buddy, m: Mem, maps: Addr, order: int)
    requires InMemory(b, m, maps)
    ensures |b.lists| == BUDDY_MAX_ORDER + 1
    ensures var m', r := PallocMem(b, m, maps, order, true), Alloc(b, order).1;
      r.Got? ==> 0 <= order <= 8 && forall x :: 512 * r.p <= x < 512 * (r.p + Pow2(order)) && x < |m'| ==> m'[x] == 0
  {
    hide Valid, Layout, ListsIn, SparesOthers, Alloc, PallocMem, Pow2;
    InMemoryLists(b, m, maps);
    PallocMemory(b, m, maps, order, true);
    var m', r := PallocMem(b, m, maps, order, true), Alloc(b, order).1;
    if r.Got? {
      SmallPowers(order);
      forall x | 512 * r.p <= x < 512 * (r.p + Pow2(order)) && x < |m'|
        ensures m'[x] == 0
      {
        assert Entry(m', x / 512, x % 512) == 0;
      }
    }
  }

  lemma InMemoryLists(b: Buddy, m: Mem, maps: Addr)
    requires InMemory(b, m, maps)
    ensures Valid(b) && |b.lists| == BUDDY_MAX_ORDER + 1
  {
  }

  lemma NothingWritten(b: Buddy, m: Mem, maps: Addr)
    ensures SparesOthers(b, m, m, maps)
  {
  }

  /** A free block lies in memory. */
  lemma BlockInMemory(b: Buddy, m: Mem, maps: Addr, p: nat)
    requires InMemory(b, m, maps) && FreePage(b, p)
    ensures 512 * p + 512 <= |m| && Foreign(maps, p)
  {
    var q: nat, k: Order :| IsFree(b, q, k) && Within(p, q, k);
  }
}
