/** bootmem.c: memory regions before the buddy allocator exists. */
module Bootmem {
  import opened Bits
  import opened Option
  import opened Palloc
  import opened EfiMap

  const ENOMEM := 3
  const MAX_REGIONS := 128
  const REGION_TYPE_MMIO := 1
  const REGION_TYPE_ALLOC := 2
  const NO_REGION := Region(0, 0, 0)

  /** PAGE_ALIGN_UP */
  function PageUp(x: nat): nat {
    (x + PAGE_SIZE - 1) / PAGE_SIZE * PAGE_SIZE
  }

  /** PAGE_ALIGN_DOWN */
  function PageDown(x: nat): nat {
    x / PAGE_SIZE * PAGE_SIZE
  }

  /** The pages of r are on one side of the kernel image. */
  predicate Beside(kernelStart: Word, kernelEnd: Word, r: Region) {
    PAGE_SIZE * RunEnd(r) <= kernelStart || PAGE_SIZE * RunStart(r) >= kernelEnd
  }

  predicate Inside(kernelStart: Word, kernelEnd: Word, r: Region) {
    kernelStart <= PAGE_SIZE * RunStart(r) && PAGE_SIZE * RunEnd(r) <= kernelEnd
  }

  /** r rounded to whole pages. */
  function Whole(r: Region): (r': Region)
    requires r.start + 4095 < W64
  {
    Region(PAGE_SIZE * RunStart(r), PAGE_SIZE * RunEnd(r), r.kind)
  }

  lemma WholeRun(r: Region)
    requires r.start + 4095 < W64
    ensures RunStart(Whole(r)) == RunStart(r) && RunEnd(Whole(r)) == RunEnd(r)
    ensures Whole(r).start > 0 && Whole(r).start + 4095 < W64
  {
  }

  /** Slot j of the regions replaced. */
  lemma InRunsSet(rs: seq<Region>, j: nat, r: Region, i: nat)
    requires j < |rs|
    ensures InRuns(rs[j := r], i) <==> InRun(r, i) || exists k :: 0 <= k < |rs| && k != j && InRun(rs[k], i)
  {
    hide InRun;
    var ts := rs[j := r];
    if InRuns(ts, i) {
      var k :| 0 <= k < |ts| && InRun(ts[k], i);
      assert k != j ==> InRun(rs[k], i);
    }
    if InRun(r, i) {
      assert InRun(ts[j], i);
    }
    if k :| 0 <= k < |rs| && k != j && InRun(rs[k], i) {
      assert InRun(ts[k], i);
    }
  }

  /** Filling an unused slot adds the pages of the region. */
  lemma InRunsFill(rs: seq<Region>, j: nat, r: Region)
    requires j < |rs| && rs[j] == NO_REGION
    ensures forall i: nat :: InRuns(rs[j := r], i) <==> InRuns(rs, i) || InRun(r, i)
  {
    forall i: nat
      ensures InRuns(rs[j := r], i) <==> InRuns(rs, i) || InRun(r, i)
    {
      InRunsSet(rs, j, r, i);
      assert !InRun(rs[j], i);
    }
  }

  /** The arithmetic of bootmem_insert_region. */
  lemma Rounding(r: Region, kernelStart: Word, kernelEnd: Word)
    requires r.start + 4095 < W64
    ensures Whole(r) == Region(if PageUp(r.start) == 0 then PAGE_SIZE else PageUp(r.start), PageDown(r.end), r.kind)
    ensures 0 < Whole(r).start && Whole(r).start + 4095 < W64 && PageDown(r.end) / PAGE_SIZE == RunEnd(r)
    ensures OnlyPageZero(r) <==> PageUp(r.start) == 0 && PAGE_SIZE >= PageDown(r.end)
    ensures Inside(kernelStart, kernelEnd, r) <==> Whole(r).start >= kernelStart && Whole(r).end <= kernelEnd
    ensures OnlyPageZero(r) ==> RunStart(r) >= RunEnd(r)
  {
  }

  /** GoodRegions when slot j changes to a region no other slot shares a page with. */
  lemma GoodSet(rs: seq<Region>, n: nat, j: nat, r: Region, n': nat)
    requires GoodRegions(rs, n) && j < |rs| && n' >= n && (r.kind == REGION_TYPE_RAM ==> RunEnd(r) <= n')
    requires forall i: nat, k :: InRun(r, i) && 0 <= k < |rs| && k != j ==> !InRun(rs[k], i)
    ensures GoodRegions(rs[j := r], n')
  {
    hide InRun;
  }

  /** A new region, rounded to whole pages, in an unused slot. */
  lemma Fill(rs: seq<Region>, n: nat, n': nat, j: nat, r: Region)
    requires GoodRegions(rs, n) && j < |rs| && rs[j] == NO_REGION && r.start + 4095 < W64 && n <= n' && RunEnd(r) <= n'
    requires forall i: nat :: InRun(r, i) ==> !InRuns(rs, i)
    ensures GoodRegions(rs[j := Whole(r)], n')
    ensures forall i: nat :: InRuns(rs[j := Whole(r)], i) <==> InRuns(rs, i) || InRun(r, i)
  {
    WholeRun(r);
    InRunsFill(rs, j, Whole(r));
    forall i: nat, k | InRun(Whole(r), i) && 0 <= k < |rs| && k != j
      ensures !InRun(rs[k], i)
    {
      assert InRun(r, i);
    }
    GoodSet(rs, n, j, Whole(r), n');
  }

  /** bootmem_insert_region inserts nothing: page 0 at most, or inside the kernel image. */
  predicate Ignored(kernelStart: Word, kernelEnd: Word, r: Region) {
    OnlyPageZero(r) || Inside(kernelStart, kernelEnd, r)
  }

  predicate OnlyPageZero(r: Region) {
    r.start == 0 && r.end < 2 * PAGE_SIZE
  }

  function Max(a: nat, b: nat): nat {
    if a < b then b else a
  }

  /** bootmem_alloc can take size bytes from the front of r. */
  predicate Fits(r: Region, size: nat) {
    r.kind == REGION_TYPE_RAM && r.start != 0 && PageUp(r.start) + size < PageDown(r.end)
  }

  ghost predicate AnyFits(rs: seq<Region>, size: nat) {
    exists j :: 0 <= j < |rs| && Fits(rs[j], size)
  }

  lemma NoneFit(rs: seq<Region>)
    requires forall j :: 0 <= j < |rs| ==> rs[j] == NO_REGION
    ensures forall size: nat :: !AnyFits(rs, size)
  {
  }

  lemma AnyFitsFill(rs: seq<Region>, j: nat, r: Region)
    requires j < |rs| && rs[j] == NO_REGION
    ensures forall size: nat :: AnyFits(rs[j := r], size) <==> AnyFits(rs, size) || Fits(r, size)
  {
    hide Fits;
    var ts := rs[j := r];
    forall size: nat
      ensures AnyFits(ts, size) <==> AnyFits(rs, size) || Fits(r, size)
    {
      assert !Fits(NO_REGION, size) by { NothingFits(size); }
      if AnyFits(ts, size) {
        var k :| 0 <= k < |ts| && Fits(ts[k], size);
        assert k != j ==> Fits(rs[k], size);
      }
      if k :| 0 <= k < |rs| && Fits(rs[k], size) {
        assert Fits(ts[k], size);
      }
      assert ts[j] == r;
    }
  }

  lemma NothingFits(size: nat)
    ensures !Fits(NO_REGION, size)
  {
  }

  lemma GoodMore(rs: seq<Region>, n: nat, n': nat)
    requires GoodRegions(rs, n) && n <= n'
    ensures GoodRegions(rs, n')
  {
  }

  /** A run that ends where it starts has no page. */
  lemma EmptyRun(r: Region)
    ensures RunStart(r) >= RunEnd(r) ==> forall i: nat :: !InRun(r, i)
  {
  }

  lemma WholeBeside(kernelStart: Word, kernelEnd: Word, r: Region)
    requires r.start + 4095 < W64
    ensures Beside(kernelStart, kernelEnd, Whole(r)) == Beside(kernelStart, kernelEnd, r)
  {
    WholeRun(r);
  }

  class BootMemory {
    const regions: array<Region>
    const kernelStart: Word
    const kernelEnd: Word
    var maxPfn: nat
    ghost var used: nat          // regions[..used] are the slots taken

    ghost predicate Ok()
      reads this, regions
    {
      && regions.Length == MAX_REGIONS && used <= MAX_REGIONS && kernelStart < kernelEnd
      && (forall k :: 0 <= k < used ==> regions[k].start != 0 && regions[k].start + 4095 < W64)
      && (forall k :: used <= k < MAX_REGIONS ==> regions[k] == NO_REGION)
      && (forall k :: 0 <= k < MAX_REGIONS ==> Beside(kernelStart, kernelEnd, regions[k]))
      && GoodRegions(regions[..], maxPfn)
    }

    constructor (kernelStart: Word, kernelEnd: Word)
      requires kernelStart < kernelEnd
      ensures Ok() && this.kernelStart == kernelStart && this.kernelEnd == kernelEnd && used == 0 && maxPfn == 0
      ensures fresh(regions)
      ensures forall i: nat :: !InRuns(regions[..], i)
    {
      this.kernelStart, this.kernelEnd := kernelStart, kernelEnd;
      regions := new Region[MAX_REGIONS](_ => NO_REGION);
      maxPfn, used := 0, 0;
    }

    /** bootmem_insert_region, for a range that does not overlap the kernel image in part. */
    method InsertRegion(start: Word, end: Word, kind: int) returns (err: int)
      requires Ok() && start + 4095 < W64
      requires Beside(kernelStart, kernelEnd, Region(start, end, kind))
        || Inside(kernelStart, kernelEnd, Region(start, end, kind))
      requires forall i: nat :: InRun(Region(start, end, kind), i) ==> !InRuns(regions[..], i)
      modifies this, regions
      ensures Ok()
      ensures var r := Region(start, end, kind);
        err == if old(used) == MAX_REGIONS && !Ignored(kernelStart, kernelEnd, r) then -ENOMEM else 0
      // The range, rounded to whole pages, takes the first slot that is free.
      ensures var r := Region(start, end, kind);
        if err != 0 || Ignored(kernelStart, kernelEnd, r)
        then regions[..] == old(regions[..]) && used == old(used)
        else old(used) < MAX_REGIONS && used == old(used) + 1 && regions[..] == old(regions[..])[old(used) := Whole(r)]
      ensures err == 0 ==> forall i: nat :: InRuns(regions[..], i) <==>
        || InRuns(old(regions[..]), i)
        || (InRun(Region(start, end, kind), i) && !Inside(kernelStart, kernelEnd, Region(start, end, kind)))
      ensures var r := Region(start, end, kind);
        maxPfn == if OnlyPageZero(r) then old(maxPfn) else Max(old(maxPfn), RunEnd(r))
    {
      hide InRun, InRuns, GoodRegions, Beside, Inside, RunStart, RunEnd, PageUp, PageDown, Whole, OnlyPageZero;
      var r := Region(start, end, kind);
      Rounding(r, kernelStart, kernelEnd);
      EmptyRun(r);
      var first, last := PageUp(start), PageDown(end);
      if first == 0 {
        first := PAGE_SIZE;
        if first >= last {
          return 0;
        }
      }
      assert Region(first, last, kind) == Whole(r);
      var endPgn := last / PAGE_SIZE;
      if endPgn > maxPfn {
        maxPfn := endPgn;
      }
      GoodMore(regions[..], old(maxPfn), maxPfn);
      if first >= kernelStart && last <= kernelEnd {
        return 0;
      }
      var i := 0;
      while i < MAX_REGIONS
        invariant 0 <= i <= used && regions[..] == old(regions[..])
      {
        if regions[i].start == 0 {
          Fill(regions[..], old(maxPfn), maxPfn, i, r);
          WholeBeside(kernelStart, kernelEnd, r);
          regions[i] := Region(first, last, kind);
          used := used + 1;
          assert regions[..] == old(regions[..])[i := Whole(r)];
          return 0;
        }
        i := i + 1;
      }
      return -ENOMEM;
    }

    /** The insertion of an aligned descriptor, as RAM or as MMIO. */
    method InsertDesc(d: Desc, kind: int)
      requires Ok() && used < MAX_REGIONS && GoodDesc(d, kernelStart, kernelEnd)
      requires kind == REGION_TYPE_RAM || kind == REGION_TYPE_MMIO
      requires kind == REGION_TYPE_RAM ==> forall i: nat :: Contains(d, PAGE_SIZE * i) ==>
        i == 0 || !InRuns(regions[..], i)
      modifies this, regions
      ensures Ok() && used <= old(used) + 1 && maxPfn == Max(old(maxPfn), TopOf(d))
      ensures forall i: nat :: InRuns(regions[..], i) <==>
        InRuns(old(regions[..]), i) || (kind == REGION_TYPE_RAM && i != 0 && Contains(d, PAGE_SIZE * i))
      ensures forall size: nat :: AnyFits(regions[..], size) <==>
        AnyFits(old(regions[..]), size) || (kind == REGION_TYPE_RAM && Room(d) > size)
      ensures forall e :: Listed(old(regions[..]), e) ==> Listed(regions[..], e)
      ensures kind == REGION_TYPE_MMIO && Room(d) > 0 ==> Listed(regions[..], d)
    {
      hide InRun, InRuns, AnyFits, Fits, Room, End, RunEnd, TopOf, Max, OnlyPageZero, Inside, Beside, Whole, Contains,
           GoodDesc, Ok, Listed;
      ghost var rs, j := regions[..], used;
      FreeSlot();
      OkBounds();
      DescRun(d, kernelStart, kernelEnd);
      DescBeside(d, kernelStart, kernelEnd, kind);
      DescTop(d, kernelStart, kernelEnd, kind, maxPfn);
      if kind != REGION_TYPE_RAM {
        NotRam(RegionOf(d, kind));
      }
      var err := InsertRegion(d.start, End(d), kind);
      Inserted(rs, j, regions[..], kernelStart, kernelEnd, d, kind);
      InsertedListed(rs, j, regions[..], kernelStart, kernelEnd, d, kind);
    }

    /** init_bootmem: conventional memory becomes RAM regions, mapped I/O MMIO regions. */
    method InitBootmem(map_: seq<Desc>, ghost n: nat)
      requires Ok() && used == 0 && (forall i: nat :: !InRuns(regions[..], i))
      requires GoodMap(map_, kernelStart, kernelEnd) && Plain(map_) && |map_| <= MAX_REGIONS
      requires maxPfn == 0 && forall d :: d in map_ && Relevant(d) ==> EndsWithin(d, n)
      modifies this, regions
      ensures Ok() && used <= |map_|
      ensures forall i: nat :: InRuns(regions[..], i) <==> i != 0 && UsableByte(map_, PAGE_SIZE * i)
      ensures forall size: nat :: AnyFits(regions[..], size) <==> AnyRoom(map_, size)
      ensures maxPfn == Top(map_) <= n
      // Each range of mapped I/O, page 0 aside, is a region of that kind.
      ensures forall d :: d in map_ && d.kind == 11 && 4096 * d.npages > (if d.start == 0 then 4096 else 0) ==>
        exists r :: r in regions[..] && r.kind == 1
               && r.start == (if d.start == 0 then 4096 else d.start) && r.end == d.start + 4096 * d.npages
    {
      NoneFit(regions[..]);
      OkBounds();
      hide InRun, InRuns, UsableByte, GoodMap, Ok, AnyFits, AnyRoom, Fits, Room, TopOf, Top, Max, EndsWithin, Contains,
           GoodDesc, Listed;
      NothingCovered(map_);
      for k := 0 to |map_|
        invariant Ok() && used <= k
        invariant forall i: nat :: InRuns(regions[..], i) <==> i != 0 && UsableByte(map_[..k], PAGE_SIZE * i)
        invariant forall size: nat :: AnyFits(regions[..], size) <==> AnyRoom(map_[..k], size)
        invariant maxPfn == Top(map_[..k]) <= n
        invariant forall i :: 0 <= i < k && map_[i].kind == EFI_MEMORY_MAPPED_IO && Room(map_[i]) > 0 ==>
          Listed(regions[..], map_[i])
      {
        var d := map_[k];
        TopStep(map_, k);
        RoomStep(map_, k);
        MapStep(map_, kernelStart, kernelEnd, k);
        MaxWithin(maxPfn, d, n);
        if d.kind == EFI_CONVENTIONAL_MEMORY {
          InsertDesc(d, REGION_TYPE_RAM);
        } else if d.kind == EFI_MEMORY_MAPPED_IO {
          InsertDesc(d, REGION_TYPE_MMIO);
        }
      }
      assert map_[..|map_|] == map_;
      AllListed(regions[..], map_);
    }

    lemma OkBounds()
      requires Ok()
      ensures kernelStart < kernelEnd
    {
    }

    lemma FreeSlot()
      requires Ok() && used < MAX_REGIONS
      ensures regions.Length == MAX_REGIONS && regions[..][used] == NO_REGION
    {
    }

    lemma OkGood()
      requires Ok()
      ensures GoodRegions(regions[..], maxPfn)
    {
    }

    /** bootmem_alloc with PAGE_ALIGNMENT; None is the out-of-memory panic. */
    method Alloc(size: nat) returns (r: Option<Word>)
      requires Ok()
      modifies this, regions
      ensures Ok() && maxPfn == old(maxPfn)
      // It fails just when no RAM region, its ends rounded to whole pages, has more than size bytes.
      ensures r.None? <==> !exists j ::
        && 0 <= j < MAX_REGIONS && old(regions[j].kind) == 0 && old(regions[j].start) != 0
        && old((regions[j].start + 4095) / 4096 * 4096) + size < old(regions[j].end / 4096 * 4096)
      ensures r.None? <==> !AnyFits(old(regions[..]), size)
      ensures r.None? ==> regions[..] == old(regions[..])
      // First fit.
      ensures r.Some? ==> exists j ::
        && 0 <= j < MAX_REGIONS && Fits(old(regions[j]), size) && r.value == PageUp(old(regions[j]).start)
        && forall i :: 0 <= i < j ==> !Fits(old(regions[i]), size)
      ensures r.Some? ==>
        && r.value % PAGE_SIZE == 0
        && (forall i: nat :: r.value <= PAGE_SIZE * i < r.value + size ==> InRuns(old(regions[..]), i))
        && (forall i: nat :: InRuns(regions[..], i) <==>
              InRuns(old(regions[..]), i) && !(r.value <= PAGE_SIZE * i < r.value + size))
    {
      hide InRun, InRuns, GoodRegions, Beside, Inside, OnlyPageZero, Whole, RunEnd;
      for j := 0 to MAX_REGIONS
        invariant Ok() && regions[..] == old(regions[..]) && maxPfn == old(maxPfn)
        invariant forall i :: 0 <= i < j ==> !Fits(old(regions[i]), size)
      {
        if regions[j].kind == REGION_TYPE_RAM && regions[j].start != 0 {
          var start, end := PageUp(regions[j].start), PageDown(regions[j].end);
          if start < end && end - start > size {
            assert Fits(old(regions[..])[j], size);
            ghost var rs, r' := regions[..], regions[j].(start := start + size);
            Carve(rs, maxPfn, j, start, size, kernelStart, kernelEnd);
            NotRam(Region(start, start + size, REGION_TYPE_ALLOC));
            regions[j] := regions[j].(start := start + size);
            ghost var carved := regions[..];
            assert carved == rs[j := r'];
            var err := InsertRegion(start, start + size, REGION_TYPE_ALLOC);
            forall i: nat
              ensures InRuns(regions[..], i) <==> InRuns(rs, i) && !(start <= PAGE_SIZE * i < start + size)
            {
              assert InRuns(regions[..], i) <==> InRuns(carved, i);
              assert InRuns(rs[j := r'], i) <==> InRuns(rs, i) && !(start <= PAGE_SIZE * i < start + size);
            }
            return Some(start);
          }
        }
      }
      return None;
    }
  }

  /** What the firmware promises about the map, and no overlap with the kernel image. */
  ghost predicate GoodMap(s: seq<Desc>, kernelStart: Word, kernelEnd: Word) {
    && Apart(s)
    && forall i :: 0 <= i < |s| && Relevant(s[i]) ==> GoodDesc(s[i], kernelStart, kernelEnd)
  }

  /** Page-aligned, inside the address space, and beside the kernel image. */
  ghost predicate GoodDesc(d: Desc, kernelStart: Word, kernelEnd: Word) {
    && d.start % PAGE_SIZE == 0 && d.start + PAGE_SIZE * d.npages < W64
    && forall x: nat :: Contains(d, x) ==> !(kernelStart <= x < kernelEnd)
  }

  /** Descriptors that bootmem takes up. */
  predicate Relevant(d: Desc) {
    Usable(d) || d.kind == EFI_MEMORY_MAPPED_IO
  }

  /** The bytes of d without page 0. */
  function Room(d: Desc): int {
    PAGE_SIZE * d.npages - if d.start == 0 then PAGE_SIZE else 0
  }

  /** Some usable descriptor has more than size bytes, not counting page 0. */
  ghost predicate AnyRoom(s: seq<Desc>, size: nat) {
    exists d :: d in s && Usable(d) && Room(d) > size
  }

  /** Descriptor d, without page 0, is a region of kind MMIO. */
  predicate Listed(rs: seq<Region>, d: Desc) {
    exists r :: r in rs && r.kind == REGION_TYPE_MMIO
            && r.start == (if d.start == 0 then PAGE_SIZE else d.start) && r.end == d.start + PAGE_SIZE * d.npages
  }

  /** One past the last page of d, unless d is page 0 at most. */
  function TopOf(d: Desc): nat {
    if d.start == 0 && d.npages < 2 then 0 else d.start / PAGE_SIZE + d.npages
  }

  /** One past the last page of all descriptors that bootmem takes up: max_pfn. */
  function Top(s: seq<Desc>): nat {
    if s == [] then 0
    else Max(Top(s[..|s| - 1]), if Relevant(s[|s| - 1]) then TopOf(s[|s| - 1]) else 0)
  }

  /** max_pfn in the firmware's numbers: every descriptor of kind 7 or 11 ends at or before
      that page, unless it is page 0 at most, and one ends there. */
  lemma {:induction false} TopIs(s: seq<Desc>)
    requires forall d :: d in s && Relevant(d) ==> d.start % PAGE_SIZE == 0
    requires Plain(s)
    ensures forall d :: d in s && (d.kind == 7 || d.kind == 11) && !(d.start == 0 && d.npages < 2) ==>
      d.start + 4096 * d.npages <= 4096 * Top(s)
    ensures Top(s) > 0 ==> exists d ::
      d in s && (d.kind == 7 || d.kind == 11) && d.start + 4096 * d.npages == 4096 * Top(s)
  {
    if s != [] {
      var t, l := s[..|s| - 1], s[|s| - 1];
      TopIs(t);
      assert s == t + [l];
    }
  }

  lemma TopStep(s: seq<Desc>, k: nat)
    requires k < |s|
    ensures Top(s[..k + 1]) == if Relevant(s[k]) then Max(Top(s[..k]), TopOf(s[k])) else Top(s[..k])
  {
    assert s[..k + 1][..k] == s[..k];
  }

  lemma RoomStep(s: seq<Desc>, k: nat)
    requires k < |s|
    ensures forall size: nat :: AnyRoom(s[..k + 1], size) <==>
      AnyRoom(s[..k], size) || (Usable(s[k]) && Room(s[k]) > size)
  {
    hide Room;
    assert s[..k + 1] == s[..k] + [s[k]];
  }

  /** Insertion of an aligned descriptor in slot j adds its room. */
  lemma Inserted(rs: seq<Region>, j: nat, rs': seq<Region>, kernelStart: Word, kernelEnd: Word, d: Desc, kind: int)
    requires GoodDesc(d, kernelStart, kernelEnd) && kernelStart < kernelEnd && d.start + 4095 < W64
    requires j < |rs| && rs[j] == NO_REGION
    requires rs' == if Ignored(kernelStart, kernelEnd, RegionOf(d, kind)) then rs else rs[j := Whole(RegionOf(d, kind))]
    ensures forall size: nat :: AnyFits(rs', size) <==> AnyFits(rs, size) || (kind == REGION_TYPE_RAM && Room(d) > size)
  {
    hide AnyFits, Ignored, GoodDesc, Fits, Room, Whole;
    var r := Whole(RegionOf(d, kind));
    AnyFitsFill(rs, j, r);
    DescRoom(d, kernelStart, kernelEnd, kind);
    forall size: nat
      ensures AnyFits(rs', size) <==> AnyFits(rs, size) || (kind == REGION_TYPE_RAM && Room(d) > size)
    {
      assert Fits(r, size) <==> kind == REGION_TYPE_RAM && Room(d) > size;
      assert AnyFits(rs[j := r], size) <==> AnyFits(rs, size) || Fits(r, size);
    }
  }

  /** .. and lists it if it is mapped I/O. */
  lemma InsertedListed(rs: seq<Region>, j: nat, rs': seq<Region>, kernelStart: Word, kernelEnd: Word, d: Desc,
                       kind: int)
    requires GoodDesc(d, kernelStart, kernelEnd) && kernelStart < kernelEnd && d.start + 4095 < W64
    requires j < |rs| && rs[j] == NO_REGION
    requires rs' == if Ignored(kernelStart, kernelEnd, RegionOf(d, kind)) then rs else rs[j := Whole(RegionOf(d, kind))]
    ensures forall e :: Listed(rs, e) ==> Listed(rs', e)
    ensures kind == REGION_TYPE_MMIO && Room(d) > 0 ==> Listed(rs', d)
  {
    DescRoom(d, kernelStart, kernelEnd, kind);
    WholeDesc(d, kernelStart, kernelEnd, kind);
    hide Ignored, GoodDesc, Whole, End, Room;
    forall e | Listed(rs, e)
      ensures Listed(rs', e)
    {
      var r :| r in rs && r.kind == REGION_TYPE_MMIO
        && r.start == (if e.start == 0 then PAGE_SIZE else e.start) && r.end == e.start + PAGE_SIZE * e.npages;
      var i :| 0 <= i < |rs| && rs[i] == r;
      assert rs'[i] == r;
    }
    if kind == REGION_TYPE_MMIO && Room(d) > 0 {
      assert rs'[j] in rs';
    }
  }

  /** An aligned descriptor as a region, page 0 taken off. */
  lemma WholeDesc(d: Desc, kernelStart: Word, kernelEnd: Word, kind: int)
    requires GoodDesc(d, kernelStart, kernelEnd) && d.start + 4095 < W64
    ensures var r := Whole(RegionOf(d, kind));
      && r.start == (if d.start == 0 then PAGE_SIZE else d.start) && r.end == d.start + PAGE_SIZE * d.npages
      && r.kind == kind
  {
    assert End(d) == d.start + PAGE_SIZE * d.npages;
  }

  lemma AllListed(rs: seq<Region>, s: seq<Desc>)
    requires forall i :: 0 <= i < |s| && s[i].kind == EFI_MEMORY_MAPPED_IO && Room(s[i]) > 0 ==> Listed(rs, s[i])
    ensures forall d :: d in s && d.kind == 11 && 4096 * d.npages > (if d.start == 0 then 4096 else 0) ==>
      exists r :: r in rs && r.kind == 1
             && r.start == (if d.start == 0 then 4096 else d.start) && r.end == d.start + 4096 * d.npages
  {
    forall d | d in s && d.kind == 11 && 4096 * d.npages > (if d.start == 0 then 4096 else 0)
      ensures Listed(rs, d)
    {
      var i :| 0 <= i < |s| && s[i] == d;
    }
  }

  /** The room of an aligned descriptor iss that of its region, and one that is not
      inserted has none. */
  lemma DescRoom(d: Desc, kernelStart: Word, kernelEnd: Word, kind: int)
    requires GoodDesc(d, kernelStart, kernelEnd) && kernelStart < kernelEnd && d.start + 4095 < W64
    ensures End(d) == d.start + PAGE_SIZE * d.npages
    ensures forall size: nat :: Fits(Whole(RegionOf(d, kind)), size) <==> kind == REGION_TYPE_RAM && Room(d) > size
    ensures Ignored(kernelStart, kernelEnd, RegionOf(d, kind)) ==> Room(d) <= 0
  {
    var s, e := d.start, d.start + PAGE_SIZE * d.npages;
    assert End(d) == e;
    var x := if s < kernelStart then kernelStart else s;
    assert Contains(d, x) ==> !(kernelStart <= x < kernelEnd);
  }

  /** One past the last page of an aligned descriptor, as insertion counts it. */
  lemma DescTop(d: Desc, kernelStart: Word, kernelEnd: Word, kind: int, m: nat)
    requires GoodDesc(d, kernelStart, kernelEnd)
    ensures Max(m, TopOf(d)) == if OnlyPageZero(RegionOf(d, kind)) then m else Max(m, RunEnd(RegionOf(d, kind)))
  {
    assert End(d) == d.start + PAGE_SIZE * d.npages;
  }

  lemma NothingCovered(s: seq<Desc>)
    ensures forall x: nat :: !UsableByte(s[..0], x)
  {
  }

  /** Cutting size bytes off the front of region j takes exactly the pages they touch. */
  lemma Carve(rs: seq<Region>, n: nat, j: nat, start: nat, size: nat, kernelStart: Word, kernelEnd: Word)
    requires GoodRegions(rs, n) && j < |rs| && rs[j].kind == REGION_TYPE_RAM && rs[j].start > 0
    requires rs[j].start + 4095 < W64
    requires start == PageUp(rs[j].start) && start + size < PageDown(rs[j].end) && Beside(kernelStart, kernelEnd, rs[j])
    ensures start % PAGE_SIZE == 0 && 0 < start + size < W64 && start + size + 4095 < W64
    ensures var r := rs[j].(start := start + size);
      && GoodRegions(rs[j := r], n) && Beside(kernelStart, kernelEnd, r)
      && (forall i: nat :: InRuns(rs[j := r], i) <==> InRuns(rs, i) && !(start <= PAGE_SIZE * i < start + size))
    ensures forall i: nat :: start <= PAGE_SIZE * i < start + size ==> InRuns(rs, i)
    ensures Beside(kernelStart, kernelEnd, Region(start, start + size, REGION_TYPE_ALLOC))
    ensures RunEnd(Region(start, start + size, REGION_TYPE_ALLOC)) <= n
  {
    var r := rs[j].(start := start + size);
    CarveRun(rs[j], start, size);
    GoodSet(rs, n, j, r, n) by {
      forall i: nat, k | InRun(r, i) && 0 <= k < |rs| && k != j
        ensures !InRun(rs[k], i)
      {
        assert InRun(rs[j], i);
      }
    }
    forall i: nat
      ensures InRuns(rs[j := r], i) <==> InRuns(rs, i) && !(start <= PAGE_SIZE * i < start + size)
    {
      InRunsSet(rs, j, r, i);
      if InRuns(rs, i) && !InRun(rs[j], i) {
        assert exists k :: 0 <= k < |rs| && k != j && InRun(rs[k], i);
      }
      assert InRun(rs[j], i) ==> forall k :: 0 <= k < |rs| && k != j ==> !InRun(rs[k], i);
    }
  }

  lemma CarveRun(r: Region, start: nat, size: nat)
    requires r.kind == REGION_TYPE_RAM && r.start > 0 && r.start + 4095 < W64
    requires start == PageUp(r.start) && start + size < PageDown(r.end)
    ensures start % PAGE_SIZE == 0 && 0 < start && start + size + 4095 < W64
    ensures forall i: nat :: InRun(r.(start := start + size), i) <==>
      InRun(r, i) && !(start <= PAGE_SIZE * i < start + size)
    ensures forall i: nat :: start <= PAGE_SIZE * i < start + size ==> InRun(r, i)
  {
  }

  lemma NotRam(r: Region)
    requires r.kind != REGION_TYPE_RAM
    ensures forall i: nat :: !InRun(r, i)
  {
  }

  /** Descriptor d ends within n pages. */
  predicate EndsWithin(d: Desc, n: nat) {
    d.start + PAGE_SIZE * d.npages <= PAGE_SIZE * n
  }

  lemma MaxWithin(m: nat, d: Desc, n: nat)
    requires m <= n
    ensures EndsWithin(d, n) ==> Max(m, TopOf(d)) <= n
  {
  }

  function RegionOf(d: Desc, kind: int): Region {
    Region(d.start, End(d), kind)
  }

  /** The pages of an aligned descriptor. */
  lemma DescRun(d: Desc, kernelStart: Word, kernelEnd: Word)
    requires GoodDesc(d, kernelStart, kernelEnd)
    ensures d.start + 4095 < W64 && End(d) == d.start + PAGE_SIZE * d.npages
    ensures forall i: nat :: InRun(RegionOf(d, REGION_TYPE_RAM), i) <==> i != 0 && Contains(d, PAGE_SIZE * i)
  {
  }

  lemma DescBeside(d: Desc, kernelStart: Word, kernelEnd: Word, kind: int)
    requires GoodDesc(d, kernelStart, kernelEnd) && kernelStart < kernelEnd
    ensures Beside(kernelStart, kernelEnd, RegionOf(d, kind)) || Inside(kernelStart, kernelEnd, RegionOf(d, kind))
    ensures Inside(kernelStart, kernelEnd, RegionOf(d, kind)) ==> forall i: nat :: !InRun(RegionOf(d, kind), i)
  {
    var s, e := d.start, d.start + PAGE_SIZE * d.npages;
    assert End(d) == e;
    if s < e {
      var x := if s < kernelStart then kernelStart else s;
      assert Contains(d, x) ==> !(kernelStart <= x < kernelEnd);
      assert e <= kernelStart || s >= kernelEnd;
    }
  }

  /** The next descriptor of the map. */
  lemma MapStep(s: seq<Desc>, kernelStart: Word, kernelEnd: Word, k: nat)
    requires GoodMap(s, kernelStart, kernelEnd) && Plain(s) && k < |s| && kernelStart < kernelEnd
    ensures s[k].kind == EFI_CONVENTIONAL_MEMORY || s[k].kind == EFI_MEMORY_MAPPED_IO ==>
      GoodDesc(s[k], kernelStart, kernelEnd)
    ensures forall x: nat :: UsableByte(s[..k + 1], x) <==>
      UsableByte(s[..k], x) || (s[k].kind == EFI_CONVENTIONAL_MEMORY && Contains(s[k], x))
    ensures s[k].kind == EFI_CONVENTIONAL_MEMORY ==> forall x: nat :: Contains(s[k], x) ==> !UsableByte(s[..k], x)
  {
    var t := s[..k + 1];
    forall x: nat
      ensures UsableByte(t, x) <==> UsableByte(s[..k], x) || (s[k].kind == EFI_CONVENTIONAL_MEMORY && Contains(s[k], x))
    {
      CoversLast(t, x);
      assert t[..k] == s[..k];
    }
    forall x: nat | s[k].kind == EFI_CONVENTIONAL_MEMORY && Contains(s[k], x)
      ensures !UsableByte(s[..k], x)
    {
      forall i | 0 <= i < k && Usable(s[..k][i])
        ensures !Contains(s[..k][i], x)
      {
        assert s[..k][i] == s[i];
      }
    }
  }
}
