/** The hand-over of memory at boot: from the firmware's map to the buddy allocator. */
module Boot {
  import opened Bits
  import opened Option
  import opened Lists
  import opened BuddyModel
  import opened BuddyMemory
  import opened Palloc
  import opened EfiMap
  import opened Bootmem

  /** A map the firmware may hand over: no overlaps, at most n pages, and after compaction
      no more descriptors than bootmem has slots. */
  ghost predicate GoodFirmwareMap(s: seq<Desc>, kernelStart: Word, kernelEnd: Word, n: nat) {
    && GoodMap(s, kernelStart, kernelEnd) && |Cleaned(s)| <= MAX_REGIONS
    && forall i :: 0 <= i < |s| && Relevant(s[i]) ==> EndsWithin(s[i], n)
  }

  ghost predicate StartsAt(s: seq<Desc>, x: nat) {
    exists e :: e in s && Usable(e) && e.start == x
  }

  ghost predicate EndsAt(s: seq<Desc>, x: nat) {
    exists e :: e in s && Usable(e) && e.start + PAGE_SIZE * e.npages == x
  }

  /** d is a descriptor of s, or a usable one that starts and ends where ones of s do. */
  ghost predicate Stems(s: seq<Desc>, d: Desc) {
    if Usable(d) then StartsAt(s, d.start) && EndsAt(s, d.start + PAGE_SIZE * d.npages) else d in s
  }

  lemma StemsMore(t: seq<Desc>, s: seq<Desc>, d: Desc)
    requires Stems(t, d) && forall e :: e in t ==> e in s
    ensures Stems(s, d)
  {
  }

  lemma StemsItself(s: seq<Desc>, e: Desc, d: Desc)
    requires e in s && (d == e || (Usable(e) && d == e.(kind := EFI_CONVENTIONAL_MEMORY)))
    ensures Stems(s, d)
  {
  }

  /** The descriptors of a compacted map come from the map. */
  lemma {:induction false} CleanedStems(s: seq<Desc>)
    requires NoWrap(s)
    ensures forall d :: d in Cleaned(s) ==> Stems(s, d)
  {
    hide Stems, NoWrap;
    if s != [] {
      var t, l := s[..|s| - 1], s[|s| - 1];
      var c := Compact(t);
      NoWrapPrefix(s);
      CleanedStems(t);
      LastIsFree(t);
      forall d | d in Cleaned(s)
        ensures Stems(s, d)
      {
        if d in c.out {
          StemsMore(t, s, d);
        } else if Usable(l) && c.last >= 0 && l.start == End(c.out[c.last]) {
          StemsExtended(s, t, c.out[c.last], l);
        } else {
          StemsItself(s, l, d);
        }
      }
    }
  }

  lemma NoWrapPrefix(s: seq<Desc>)
    requires s != [] && NoWrap(s)
    ensures NoWrap(s[..|s| - 1]) && NoWrap(Cleaned(s[..|s| - 1]))
  {
    CleanCovers(s[..|s| - 1]);
  }

  lemma StemsExtended(s: seq<Desc>, t: seq<Desc>, f: Desc, l: Desc)
    requires s != [] && t == s[..|s| - 1] && l == s[|s| - 1] && Usable(l) && Usable(f) && l.start == End(f)
    requires f in Cleaned(t) && Stems(t, f) && NoWrap(s) && NoWrap(Cleaned(t))
    ensures Stems(s, Extend(f, l))
  {
    ExtendContains(f, l);
    StemsMore(t, s, f);
    assert l in s;
    assert Extend(f, l).start + PAGE_SIZE * Extend(f, l).npages == l.start + PAGE_SIZE * l.npages;
  }

  /** Compaction keeps everything bootmem relies on. */
  lemma CleanedGood(s: seq<Desc>, kernelStart: Word, kernelEnd: Word, n: nat)
    requires GoodFirmwareMap(s, kernelStart, kernelEnd, n)
    ensures GoodMap(Cleaned(s), kernelStart, kernelEnd) && Plain(Cleaned(s)) && |Cleaned(s)| <= MAX_REGIONS
    ensures forall d :: d in Cleaned(s) && Relevant(d) ==> EndsWithin(d, n)
    ensures forall x: nat :: UsableByte(Cleaned(s), x) <==> UsableByte(s, x)
  {
    CleanCovers(s);
    CleanApart(s);
    LastIsFree(s);
    CleanedStems(s);
    forall d | d in Cleaned(s) && Relevant(d)
      ensures GoodDesc(d, kernelStart, kernelEnd) && EndsWithin(d, n)
    {
      StemGood(s, d, kernelStart, kernelEnd, n);
    }
  }

  lemma StemGood(s: seq<Desc>, d: Desc, kernelStart: Word, kernelEnd: Word, n: nat)
    requires GoodFirmwareMap(s, kernelStart, kernelEnd, n) && d in Cleaned(s) && Stems(s, d) && NoWrap(Cleaned(s))
    requires forall x: nat :: UsableByte(Cleaned(s), x) <==> UsableByte(s, x)
    requires Relevant(d)
    ensures GoodDesc(d, kernelStart, kernelEnd) && EndsWithin(d, n)
  {
    if Usable(d) {
      forall x: nat | Contains(d, x)
        ensures !(kernelStart <= x < kernelEnd)
      {
        assert UsableByte(Cleaned(s), x);
      }
    }
  }

  /** The room of a compacted map in the firmware's numbers. */
  lemma RoomIs(s: seq<Desc>, size: nat)
    requires Plain(s)
    ensures AnyRoom(s, size) <==> exists d ::
      d in s && d.kind == 7 && 4096 * d.npages - (if d.start == 0 then 4096 else 0) > size
  {
  }

  lemma UsableIs(s: seq<Desc>, x: nat)
    ensures UsableByte(s, x) <==> exists d ::
      d in s && (d.kind == 3 || d.kind == 4 || d.kind == 7) && d.start <= x < d.start + 4096 * d.npages
  {
    if d :| d in s && (d.kind == 3 || d.kind == 4 || d.kind == 7) && d.start <= x < d.start + 4096 * d.npages {
      var i :| 0 <= i < |s| && s[i] == d;
      assert Usable(s[i]) && Contains(s[i], x);
    }
    if UsableByte(s, x) {
      var i :| 0 <= i < |s| && Usable(s[i]) && Contains(s[i], x);
      assert s[i] in s;
    }
  }

  /** From the firmware's map to a running buddy allocator.  pageSize is sizeof(struct page);
      None is bootmem's out-of-memory panic. */
  method BootAllocator(map_: array<Desc>, size: nat, kernelStart: Word, kernelEnd: Word, pageSize: nat,
                       ram: array<Word>, maps: Addr,
                       ghost n: nat)
    returns (r: Option<BuddyAllocator>, pageArray: Word, ghost arrayBytes: nat)
    requires size <= map_.Length && kernelStart < kernelEnd && GoodFirmwareMap(map_[..size], kernelStart, kernelEnd, n)
    requires n < 0x800_0000 && 512 * n <= ram.Length <= DIRECT_WORDS && maps + MAPS_WORDS <= ram.Length
    requires kernelStart % 4096 == 0 && kernelStart <= 8 * maps && 8 * (maps + MAPS_WORDS) <= kernelEnd + 1
    modifies map_, ram
    ensures r.Some? ==> r.value.Ok() && Valid(r.value.blocks) && Coalesced(r.value.blocks)
    // The page array has an entry for every page up to the last one in the map, and boot
    // fails just when no usable run of the compacted map, page 0 aside, has more room.
    ensures arrayBytes == Top(Cleaned(old(map_[..size]))) * pageSize && Top(Cleaned(old(map_[..size]))) <= n
    ensures r.None? <==> !exists d ::
      d in Cleaned(old(map_[..size])) && d.kind == 7
      && 4096 * d.npages - (if d.start == 0 then 4096 else 0) > arrayBytes
    ensures r.Some? ==> r.value.pages.Length == Top(Cleaned(old(map_[..size])))
    // Free are exactly the pages in memory of kind 3, 4 or 7 of the firmware's map, without
    // page 0, the pages that hold a byte of the kernel image (its end included) and those of the
    // page array.
    ensures r.Some? ==> forall i: nat :: FreePage(r.value.blocks, i) <==>
      && i != 0 && (4096 * i + 4096 <= kernelStart || 4096 * i > kernelEnd)
      && !(pageArray <= 4096 * i < pageArray + arrayBytes)
      && (exists d :: d in old(map_[..size]) && (d.kind == 3 || d.kind == 4 || d.kind == 7)
                  && d.start <= 4096 * i < d.start + 4096 * d.npages)
    // The page array lies in usable memory.
    ensures r.Some? ==> forall i: nat :: pageArray <= PAGE_SIZE * i < pageArray + arrayBytes ==>
      i != 0 && old(UsableByte(map_[..size], PAGE_SIZE * i))
  {
    hide GoodFirmwareMap, UsableByte, GoodMap, Cleaned, Plain, InRuns, FreePage, Valid, Coalesced,
         LivePage, EndsWithin, GoodRegions, Sound, InRun, Beside, Top, AnyRoom, AnyFits, Fits, Relevant;
    ghost var s := map_[..size];
    CleanedGood(s, kernelStart, kernelEnd, n);
    var newSize := CleanMap(map_, size);
    var boot := new BootMemory(kernelStart, kernelEnd);
    boot.InitBootmem(map_[..newSize], n);
    ghost var before := boot.regions[..];
    forall i: nat
      ensures InRuns(before, i) <==> i != 0 && UsableByte(s, PAGE_SIZE * i)
    {
      assert UsableByte(Cleaned(s), PAGE_SIZE * i) <==> UsableByte(s, PAGE_SIZE * i);
    }
    var pageCount := boot.maxPfn;
    arrayBytes := pageCount * pageSize;
    RoomIs(Cleaned(s), arrayBytes);
    var a := boot.Alloc(pageCount * pageSize);
    if a.None? {
      return None, 0, arrayBytes;
    }
    pageArray := a.value;
    forall i: nat | pageArray <= PAGE_SIZE * i < pageArray + arrayBytes
      ensures i != 0 && UsableByte(s, PAGE_SIZE * i)
    {
      assert InRuns(before, i);
    }
    boot.OkGood();
    var buddy := new BuddyAllocator(ram, maps, pageCount, boot.regions[..], kernelStart, kernelEnd);
    forall i: nat
      ensures FreePage(buddy.blocks, i) <==>
        && i != 0 && (4096 * i + 4096 <= kernelStart || 4096 * i > kernelEnd)
        && !(pageArray <= 4096 * i < pageArray + arrayBytes)
        && (exists d :: d in s && (d.kind == 3 || d.kind == 4 || d.kind == 7)
                    && d.start <= 4096 * i < d.start + 4096 * d.npages)
    {
      InRunsAre(boot.regions[..], i);
      UsableIs(s, 4096 * i);
      assert InRuns(before, i) <==> i != 0 && UsableByte(s, PAGE_SIZE * i);
    }
    return Some(buddy), pageArray, arrayBytes;
  }
}
