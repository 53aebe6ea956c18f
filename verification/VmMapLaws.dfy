/** What callers get from vm_map, over several calls: retrying, remapping, and mapping
    a range one page at a time. */
module VmMapLaws {
  import opened Bits
  import opened MissingTables
  import opened PageTables
  import opened PagingBits
  import opened Paging
  import opened TableAllocator

  /** vm_map when every table it asks for is granted, on good arguments: the code it
      returns and the memory it leaves. */
  ghost predicate Maps(m: Mem, m': Mem, root: nat, phys: Word, virt: Word, size: Word, flags: Word, code: int) {
    && GoodRange(phys, virt, size) && VPageOf(virt) + PageNo(size) <= VPAGES
    && code == RangeVerdict(m, root, VPageOf(virt), PageNo(size), PermOf(flags))
    && (code == 0 ==> MapsRange(m, m', root, phys, virt, size, flags) && SameVerdictsOutside(m, m', root, virt, size))
    && (code != 0 ==> SameView(m, m', root))
  }

  /** Every call of vm_map that is granted its tables is such a call. */
  lemma DoneMaps<A>(alloc: PtAlloc<A>, log: Log<A>, r: Outcome, ctx: A, m: Mem, root: nat,
                    phys: Word, virt: Word, size: Word, flags: Word, own: set<nat>, taken: set<nat>)
    requires GoodRange(phys, virt, size) && Served(alloc, log)
    requires Done(alloc, log, r, ctx, m, root, phys, virt, size, flags, own, taken)
    ensures r.Ret? && Maps(log.mem, m, root, phys, virt, size, flags, r.code)
  {
    hide GoodRange, Served, WellFormed, FillsMissing, Missing, AgreeOn, Reached, Starved, MapsRange,
         SameVerdictsOutside, SameView, RangeVerdict, VPageOf, PageNo;
  }

  /** A range can be mapped just when each of its pages can. */
  lemma {:induction false} RangeVerdictZero(m: Mem, root: nat, v: nat, n: nat, p: Perm)
    requires v + n <= VPAGES
    ensures RangeVerdict(m, root, v, n, p) == 0 <==> forall u: VPage :: v <= u < v + n ==> Verdict(m, root, u, p) == 0
    decreases n
  {
    if n > 0 {
      RangeVerdictZero(m, root, v + 1, n - 1, p);
    }
  }

  /** The verdict on a range is that of its first page that cannot be mapped. */
  lemma {:induction false} FirstRefused(m: Mem, root: nat, v: nat, n: nat, p: Perm)
    requires v + n <= VPAGES && RangeVerdict(m, root, v, n, p) != 0
    ensures exists u: VPage ::
      && v <= u < v + n && RangeVerdict(m, root, v, n, p) == Verdict(m, root, u, p) != 0
      && forall w: VPage :: v <= w < u ==> Verdict(m, root, w, p) == 0
    decreases n
  {
    hide Verdict;
    if Verdict(m, root, v, p) == 0 {
      FirstRefused(m, root, v + 1, n - 1, p);
      var u: VPage :| v + 1 <= u < v + n && RangeVerdict(m, root, v, n, p) == Verdict(m, root, u, p) != 0
        && forall w: VPage :: v + 1 <= w < u ==> Verdict(m, root, w, p) == 0;
      assert forall w: VPage :: v <= w < u ==> Verdict(m, root, w, p) == 0;
    }
  }

  /** Equal verdicts on pages are equal verdicts on ranges. */
  lemma {:induction false} SameRangeVerdict(m: Mem, m': Mem, root: nat, v: nat, n: nat, p: Perm)
    requires v + n <= VPAGES
    requires forall u: VPage :: v <= u < v + n ==> Verdict(m', root, u, p) == Verdict(m, root, u, p)
    ensures RangeVerdict(m', root, v, n, p) == RangeVerdict(m, root, v, n, p)
    decreases n
  {
    if n > 0 {
      SameRangeVerdict(m, m', root, v + 1, n - 1, p);
    }
  }

  /** vm_map succeeds only when no byte of the range was mapped before. */
  lemma SuccessMeansUnmapped(m: Mem, m': Mem, root: nat, phys: Word, virt: Word, size: Word, flags: Word, va: Word)
    requires Maps(m, m', root, phys, virt, size, flags, 0) && Canonical(va) && virt <= va < virt + size
    ensures Walk(m, root, va) == Fault(false)
  {
    hide Verdict, RangeVerdict, VPageOf;
    RangeByPage(phys, virt, size, va);
    RangeVerdictZero(m, root, VPageOf(virt), PageNo(size), PermOf(flags));
    MappableIsUnmapped(m, root, VPageOf(va), 3, PermOf(flags), ALL) by {
      VerdictIs(m, root, VPageOf(va), PermOf(flags));
    }
  }

  lemma VerdictIs(m: Mem, root: nat, v: VPage, p: Perm)
    ensures Verdict(m, root, v, p) == VerdictFrom(m, root, v, 3, p)
  {
  }

  /** A mapped range cannot be mapped again, in whole or in part, with any permissions
      and whatever the allocator answers. */
  lemma OverlapIsRefused<A>(m: Mem, root: nat, phys: Word, virt: Word, size: Word, flags: Word,
                            alloc: PtAlloc<A>, log: Log<A>, r: Outcome, ctx: A, m': Mem,
                            phys': Word, virt': Word, size': Word, flags': Word, own: set<nat>, taken: set<nat>,
                              va: Word)
    requires Maps(m, log.mem, root, phys, virt, size, flags, 0) && GoodRange(phys', virt', size')
    requires Done(alloc, log, r, ctx, m', root, phys', virt', size', flags', own, taken)
    requires Canonical(va) && virt <= va < virt + size && virt' <= va < virt' + size'
    ensures r != Ret(0) && SameView(log.mem, m', root)
  {
    hide Verdict, VPageOf, RangeVerdict, GoodRange, WellFormed, FillsMissing, Missing, AgreeOn, Reached, Starved,
         SameView, Served, LastReply, SameVerdictsOutside;
    assert Walk(log.mem, root, va).Byte?;
    if r == Ret(0) {
      DoneMaps(alloc, log, r, ctx, m', root, phys', virt', size', flags', own, taken);
      SuccessMeansUnmapped(log.mem, m', root, phys', virt', size', flags', va);
    }
  }

  /** Two calls of vm_map on one range, the first of which failed, with any writes outside
      the tree in between.  The empty tables the first call left behind neither make the
      retry fail nor change what it maps: granted its tables, the retry does to the memory
      the first call found what that call would have done. */
  lemma RetryAfterFailure<A, B>(
      alloc: PtAlloc<A>, log: Log<A>, r: Outcome, ctx: A, m1: Mem,
      alloc': PtAlloc<B>, log': Log<B>, r': Outcome, ctx': B, m2: Mem, root: nat,
      phys: Word, virt: Word, size: Word, flags: Word, own: set<nat>, taken: set<nat>, taken': set<nat>)
    requires GoodRange(phys, virt, size)
    requires Done(alloc, log, r, ctx, m1, root, phys, virt, size, flags, own, taken) && r != Ret(0)
    requires AgreeOn(m1, log'.mem, own + taken) && Served(alloc', log')
    requires Done(alloc', log', r', ctx', m2, root, phys, virt, size, flags, own + taken, taken')
    ensures r'.Ret? && Maps(log.mem, m2, root, phys, virt, size, flags, r'.code)
  {
    hide GoodRange, WellFormed, FillsMissing, Missing, AgreeOn, Reached, Starved, Verdict, Translate, VPageOf, PageNo,
         Served, LastReply, RangeVerdict;
    DoneMaps(alloc', log', r', ctx', m2, root, phys, virt, size, flags, own + taken, taken');
    AgreeGrown(m1, log'.mem, root, own + taken, VPageOf(virt));
    SameRangeVerdict(log.mem, log'.mem, root, VPageOf(virt), PageNo(size), PermOf(flags));
  }

  /** Page i of a range. */
  ghost predicate MapsPage(m: Mem, m': Mem, root: nat, phys: Word, virt: Word, i: nat, flags: Word, code: int) {
    phys + 4096 * i < W64 && virt + 4096 * i < W64
    && Maps(m, m', root, phys + 4096 * i, virt + 4096 * i, 4096, flags, code)
  }

  /** k single-page calls that succeed one after the other. */
  ghost predicate MapsPages(ms: seq<Mem>, root: nat, phys: Word, virt: Word, k: nat, flags: Word) {
    |ms| == k + 1 && forall i :: 0 <= i < k ==> MapsPage(ms[i], ms[i + 1], root, phys, virt, i, flags, 0)
  }

  /** After k single-page calls the first k pages are mapped and nothing else has changed. */
  lemma {:induction false} PagesSoFar(ms: seq<Mem>, root: nat, phys: Word, virt: Word, size: Word, k: nat, flags: Word)
    requires GoodRange(phys, virt, size) && 0 < k <= PageNo(size) && MapsPages(ms, root, phys, virt, k, flags)
    ensures MapsRange(ms[0], ms[k], root, phys, virt, 4096 * k, flags)
    ensures SameVerdictsOutside(ms[0], ms[k], root, virt, 4096 * k)
    decreases k
  {
    hide Verdict, Walk, MapsPage, GoodRange, RangeVerdict;
    assert MapsPage(ms[k - 1], ms[k], root, phys, virt, k - 1, flags, 0) by {
      assert MapsPage(ms[k - 1], ms[k - 1 + 1], root, phys, virt, k - 1, flags, 0);
    }
    PageStep(ms[k - 1], ms[k], root, phys, virt, size, k - 1, flags);
    if k > 1 {
      PagesSoFar(ms[..k], root, phys, virt, size, k - 1, flags);
    }
  }

  lemma PageStep(m: Mem, m': Mem, root: nat, phys: Word, virt: Word, size: Word, i: nat, flags: Word)
    requires GoodRange(phys, virt, size) && i < PageNo(size) && MapsPage(m, m', root, phys, virt, i, flags, 0)
    ensures virt + 4096 * (i + 1) <= W64 && VPageOf(virt) + i < VPAGES
    ensures PageNo(4096 * i) == i && PageNo(4096 * (i + 1)) == i + 1
    ensures forall va: Word :: Canonical(va) ==>
      Walk(m', root, va) ==
        if virt + 4096 * i <= va < virt + 4096 * (i + 1)
        then Byte(phys + (va - virt), Rights(Writable(flags), User(flags), false), AttrsOf(flags))
        else Walk(m, root, va)
    ensures forall v: VPage, q: Perm :: v != VPageOf(virt) + i ==> Verdict(m', root, v, q) == Verdict(m, root, v, q)
  {
    hide Verdict, Walk, RangeVerdict, AttrsOf;
    Here(phys, virt, size, i, phys + 4096 * i, virt + 4096 * i, size - 4096 * i);
  }

  /** The chosen mix of 4K, 2M and 1G leaves cannot be told from mapping the range one
      page at a time: the same addresses reach the same bytes with the same rights. */
  lemma SameAsPageByPage(m': Mem, ms: seq<Mem>, root: nat, phys: Word, virt: Word, size: Word, flags: Word)
    requires MapsPages(ms, root, phys, virt, PageNo(size), flags)
    requires Maps(ms[0], m', root, phys, virt, size, flags, 0)
    ensures forall va: Word :: Canonical(va) ==> Walk(m', root, va) == Walk(ms[PageNo(size)], root, va)
  {
    hide Verdict, Walk, RangeVerdict, VPageOf, MapsPages;
    PagesSoFar(ms, root, phys, virt, size, PageNo(size), flags);
  }

  /** Mapping page by page stops at the page, and with the code, with which vm_map
      refuses the whole range. */
  lemma SameRefusal(ms: seq<Mem>, m': Mem, root: nat, phys: Word, virt: Word, size: Word, k: nat, flags: Word,
                    code: int)
    requires GoodRange(phys, virt, size) && k < PageNo(size) && MapsPages(ms, root, phys, virt, k, flags)
    requires MapsPage(ms[k], m', root, phys, virt, k, flags, code) && code != 0
    ensures VPageOf(virt) + PageNo(size) <= VPAGES
    ensures RangeVerdict(ms[0], root, VPageOf(virt), PageNo(size), PermOf(flags)) == code
  {
    hide Verdict, Walk, GoodRange, MapsRange, SameVerdictsOutside;
    var v, n, p := VPageOf(virt), PageNo(size), PermOf(flags);
    RangePages(phys, virt, size);
    PageVerdict(ms[k], m', root, phys, virt, size, k, flags, code);
    forall u: VPage | v <= u < v + k
      ensures Verdict(ms[0], root, u, p) == 0
    {
      var i := u - v;
      assert MapsPage(ms[i], ms[i + 1], root, phys, virt, i, flags, 0);
      PageVerdict(ms[i], ms[i + 1], root, phys, virt, size, i, flags, 0);
      EarlierVerdict(ms, root, phys, virt, size, k, i, flags, p);
    }
    EarlierVerdict(ms, root, phys, virt, size, k, k, flags, p);
    RangeVerdictSkip(ms[0], root, v, n, k, p);
  }

  lemma PageVerdict(m: Mem, m': Mem, root: nat, phys: Word, virt: Word, size: Word, i: nat, flags: Word, code: int)
    requires GoodRange(phys, virt, size) && i < PageNo(size) && MapsPage(m, m', root, phys, virt, i, flags, code)
    ensures VPageOf(virt) + i < VPAGES && Verdict(m, root, VPageOf(virt) + i, PermOf(flags)) == code
  {
    hide Verdict, MapsRange, SameVerdictsOutside;
    Here(phys, virt, size, i, phys + 4096 * i, virt + 4096 * i, size - 4096 * i);
    assert PageNo(4096) == 1;
    RangeVerdictSkip(m, root, VPageOf(virt) + i, 1, 0, PermOf(flags));
  }

  /** Mapping earlier pages does not change the verdict on page i. */
  lemma EarlierVerdict(ms: seq<Mem>, root: nat, phys: Word, virt: Word, size: Word, k: nat, i: nat, flags: Word,
                       p: Perm)
    requires GoodRange(phys, virt, size) && i <= k < PageNo(size) && MapsPages(ms, root, phys, virt, k, flags)
    ensures VPageOf(virt) + i < VPAGES
    ensures Verdict(ms[i], root, VPageOf(virt) + i, p) == Verdict(ms[0], root, VPageOf(virt) + i, p)
  {
    hide Verdict, Walk, MapsPage, GoodRange;
    RangePages(phys, virt, size);
    if i > 0 {
      PagesSoFar(ms[..i + 1], root, phys, virt, size, i, flags);
    }
  }
}
