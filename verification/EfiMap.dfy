/** init.c: compacting the firmware's memory map in place. */
module EfiMap {
  import opened Bits

  const PAGE_SIZE := 4096

  const EFI_BOOT_SERVICES_CODE := 3
  const EFI_BOOT_SERVICES_DATA := 4
  const EFI_CONVENTIONAL_MEMORY := 7
  const EFI_MEMORY_MAPPED_IO := 11

  /** struct efi_memory_descriptor; `other` stands for the fields that are only copied. */
  datatype Desc = Desc(kind: int, start: Word, npages: Word, other: Word)

  /** Memory the kernel may use once the firmware is gone. */
  predicate Usable(d: Desc) {
    d.kind == EFI_CONVENTIONAL_MEMORY || d.kind == EFI_BOOT_SERVICES_CODE || d.kind == EFI_BOOT_SERVICES_DATA
  }

  /** The first address past a descriptor, in 64-bit arithmetic. */
  function End(d: Desc): Word {
    (d.start + d.npages * PAGE_SIZE) % W64
  }

  predicate Contains(d: Desc, x: nat) {
    d.start <= x < d.start + PAGE_SIZE * d.npages
  }

  // -------------------------------------------------------------- the compaction

  /** The descriptors written so far, and the index last_free points at (-1 for NULL). */
  datatype Compaction = Compaction(out: seq<Desc>, last: int)

  predicate LastInRange(c: Compaction) {
    -1 <= c.last < |c.out|
  }

  /** One descriptor: start a new free run, extend the last one, or keep it as it is. */
  function Step(c: Compaction, d: Desc): (c': Compaction)
    requires LastInRange(c)
    ensures LastInRange(c') && |c.out| <= |c'.out| <= |c.out| + 1
  {
    if !Usable(d) then Compaction(c.out + [d], c.last)
    else if c.last == -1 || d.start != End(c.out[c.last]) then
      Compaction(c.out + [d.(kind := EFI_CONVENTIONAL_MEMORY)], |c.out|)
    else
      Compaction(c.out[c.last := Extend(c.out[c.last], d)], c.last)
  }

  function Extend(f: Desc, d: Desc): Desc {
    f.(npages := (f.npages + d.npages) % W64)
  }

  function Compact(s: seq<Desc>): (c: Compaction)
    ensures LastInRange(c) && |c.out| <= |s|
  {
    if s == [] then Compaction([], -1) else Step(Compact(s[..|s| - 1]), s[|s| - 1])
  }

  function Cleaned(s: seq<Desc>): seq<Desc> {
    Compact(s).out
  }

  lemma CompactStart(s: seq<Desc>)
    ensures Compact(s[..0]) == Compaction([], -1)
  {
  }

  lemma CompactNext(s: seq<Desc>, i: nat)
    requires i < |s|
    ensures Compact(s[..i + 1]) == Step(Compact(s[..i]), s[i])
  {
    hide Step;
    assert s[..i + 1][..i] == s[..i];
  }

  /** clean_efi_memory_map.  Descriptors not yet read are never overwritten. */
  method CleanMap(map_: array<Desc>, size: nat) returns (newSize: nat)
    requires size <= map_.Length
    modifies map_
    ensures newSize <= size && map_[..newSize] == Cleaned(old(map_[..size]))
    ensures forall i :: size <= i < map_.Length ==> map_[i] == old(map_[i])
  {
    hide End, Extend, Compact;
    ghost var s := map_[..size];
    CompactStart(s);
    var last: int := -1;
    newSize := 0;
    for i := 0 to size
      invariant newSize <= i && Compaction(map_[..newSize], last) == Compact(s[..i])
      invariant forall k :: i <= k < map_.Length ==> map_[k] == old(map_[k])
    {
      var current := map_[i];
      ghost var c := Compact(s[..i]);
      CompactNext(s, i);
      if Usable(current) {
        if last == -1 || current.start != End(map_[last]) {
          last := newSize;
          map_[newSize] := current.(kind := EFI_CONVENTIONAL_MEMORY);
          newSize := newSize + 1;
          assert map_[..newSize] == c.out + [current.(kind := EFI_CONVENTIONAL_MEMORY)];
        } else {
          map_[last] := Extend(map_[last], current);
          assert map_[..newSize] == c.out[last := Extend(c.out[last], current)];
        }
      } else {
        map_[newSize] := current;
        newSize := newSize + 1;
        assert map_[..newSize] == c.out + [current];
      }
    }
    assert s[..size] == s;
  }

  // --------------------------------------------------------- what it preserves

  /** Byte x is usable. */
  ghost predicate UsableByte(s: seq<Desc>, x: nat) {
    exists i :: 0 <= i < |s| && Usable(s[i]) && Contains(s[i], x)
  }

  /** No free descriptor runs past the end of the address space. */
  ghost predicate NoWrap(s: seq<Desc>) {
    forall i :: 0 <= i < |s| && Usable(s[i]) ==> s[i].start + PAGE_SIZE * s[i].npages < W64
  }

  ghost predicate Apart(s: seq<Desc>) {
    forall i, j, x: nat :: 0 <= i < j < |s| && Usable(s[i]) && Usable(s[j]) && Contains(s[i], x) ==> !Contains(s[j], x)
  }

  /** All free descriptors are marked conventional. */
  ghost predicate Plain(s: seq<Desc>) {
    forall i :: 0 <= i < |s| && Usable(s[i]) ==> s[i].kind == EFI_CONVENTIONAL_MEMORY
  }

  /** The descriptors of other types, in order. */
  function Others(s: seq<Desc>): seq<Desc> {
    if s == [] then [] else Others(s[..|s| - 1]) + if Usable(s[|s| - 1]) then [] else [s[|s| - 1]]
  }

  lemma ExtendContains(f: Desc, d: Desc)
    requires d.start == End(f) && f.start + PAGE_SIZE * f.npages < W64 && d.start + PAGE_SIZE * d.npages < W64
    ensures forall x: nat :: Contains(Extend(f, d), x) <==> Contains(f, x) || Contains(d, x)
    ensures Extend(f, d).start + PAGE_SIZE * Extend(f, d).npages < W64
  {
  }

  lemma LastIsFree(s: seq<Desc>)
    ensures var c := Compact(s); c.last >= 0 ==> Usable(c.out[c.last])
    ensures Plain(Compact(s).out)
  {
    if s != [] {
      LastIsFree(s[..|s| - 1]);
    }
  }

  lemma CoversLast(s: seq<Desc>, x: nat)
    requires s != []
    ensures UsableByte(s, x) <==> UsableByte(s[..|s| - 1], x) || (Usable(s[|s| - 1]) && Contains(s[|s| - 1], x))
  {
    var t := s[..|s| - 1];
    if UsableByte(s, x) {
      var i :| 0 <= i < |s| && Usable(s[i]) && Contains(s[i], x);
      assert i < |t| ==> t[i] == s[i];
    }
    if UsableByte(t, x) {
      var i :| 0 <= i < |t| && Usable(t[i]) && Contains(t[i], x);
      assert s[i] == t[i];
    }
  }

  /** What one step does to the covered bytes. */
  lemma StepCovers(c: Compaction, d: Desc, x: nat)
    requires LastInRange(c) && (c.last >= 0 ==> Usable(c.out[c.last])) && NoWrap(c.out)
    requires Usable(d) ==> d.start + PAGE_SIZE * d.npages < W64
    ensures UsableByte(Step(c, d).out, x) <==> UsableByte(c.out, x) || (Usable(d) && Contains(d, x))
  {
    var t := Step(c, d).out;
    if Usable(d) && c.last >= 0 && d.start == End(c.out[c.last]) {
      ExtendContains(c.out[c.last], d);
      if UsableByte(t, x) {
        var i :| 0 <= i < |t| && Usable(t[i]) && Contains(t[i], x);
        assert i != c.last ==> c.out[i] == t[i];
      }
      if UsableByte(c.out, x) {
        var i :| 0 <= i < |c.out| && Usable(c.out[i]) && Contains(c.out[i], x);
        assert Usable(t[i]) && Contains(t[i], x);
      }
      if Contains(d, x) {
        assert Usable(t[c.last]) && Contains(t[c.last], x);
      }
    } else {
      CoversLast(t, x);
      assert t[..|t| - 1] == c.out;
    }
  }

  lemma StepNoWrap(c: Compaction, d: Desc)
    requires LastInRange(c) && (c.last >= 0 ==> Usable(c.out[c.last])) && NoWrap(c.out)
    requires Usable(d) ==> d.start + PAGE_SIZE * d.npages < W64
    ensures NoWrap(Step(c, d).out)
  {
    if Usable(d) && c.last >= 0 && d.start == End(c.out[c.last]) {
      ExtendContains(c.out[c.last], d);
    }
  }

  /** Compaction keeps exactly the usable bytes. */
  lemma {:induction false} CleanCovers(s: seq<Desc>)
    requires NoWrap(s)
    ensures NoWrap(Cleaned(s)) && forall x: nat :: UsableByte(Cleaned(s), x) <==> UsableByte(s, x)
  {
    if s != [] {
      var t, d := s[..|s| - 1], s[|s| - 1];
      CleanCovers(t);
      LastIsFree(t);
      StepNoWrap(Compact(t), d);
      forall x: nat
        ensures UsableByte(Cleaned(s), x) <==> UsableByte(s, x)
      {
        StepCovers(Compact(t), d, x);
        CoversLast(s, x);
      }
    }
  }

  /** Descriptors that do not overlap still do not after a step. */
  lemma StepApart(c: Compaction, d: Desc)
    requires LastInRange(c) && (c.last >= 0 ==> Usable(c.out[c.last])) && NoWrap(c.out) && Apart(c.out)
    requires Usable(d) ==> d.start + PAGE_SIZE * d.npages < W64
    requires Usable(d) ==> forall x: nat :: UsableByte(c.out, x) ==> !Contains(d, x)
    ensures Apart(Step(c, d).out)
  {
    var t := Step(c, d).out;
    if Usable(d) && c.last >= 0 && d.start == End(c.out[c.last]) {
      ExtendContains(c.out[c.last], d);
    }
    forall i, j, x: nat | 0 <= i < j < |t| && Usable(t[i]) && Usable(t[j]) && Contains(t[i], x)
      ensures !Contains(t[j], x)
    {
      assert i < |c.out| && Usable(c.out[i]);
      assert Contains(c.out[i], x) ==> UsableByte(c.out, x);
      assert j < |c.out| ==> Usable(c.out[j]) && (Contains(c.out[j], x) ==> UsableByte(c.out, x));
    }
  }

  lemma {:induction false} CleanApart(s: seq<Desc>)
    requires NoWrap(s) && Apart(s)
    ensures Apart(Cleaned(s))
  {
    if s != [] {
      var t, d := s[..|s| - 1], s[|s| - 1];
      CleanApart(t);
      CleanCovers(t);
      LastIsFree(t);
      StepApart(Compact(t), d);
    }
  }

  /** Descriptors of other types stay, in their order. */
  lemma {:induction false} CleanOthers(s: seq<Desc>)
    ensures Others(Cleaned(s)) == Others(s)
  {
    if s != [] {
      var t, d := s[..|s| - 1], s[|s| - 1];
      CleanOthers(t);
      LastIsFree(t);
      var c := Compact(t);
      if Usable(d) && c.last >= 0 && d.start == End(c.out[c.last]) {
        OthersSet(c.out, c.last, Extend(c.out[c.last], d));
      } else {
        assert Cleaned(s)[..|Cleaned(s)| - 1] == c.out;
      }
    }
  }

  lemma {:induction false} OthersSet(s: seq<Desc>, i: nat, f: Desc)
    requires i < |s| && Usable(s[i]) && Usable(f)
    ensures Others(s[i := f]) == Others(s)
  {
    var t := s[i := f];
    if i == |s| - 1 {
      assert t[..|s| - 1] == s[..|s| - 1];
    } else {
      assert t[..|s| - 1] == s[..|s| - 1][i := f];
      OthersSet(s[..|s| - 1], i, f);
    }
  }

  // ---------------------------------------------------------------- idempotence

  /** The index of the last free descriptor, or -1. */
  function LastFree(s: seq<Desc>): (i: int)
    ensures -1 <= i < |s| && (i >= 0 ==> Usable(s[i]))
  {
    if s == [] then -1 else if Usable(s[|s| - 1]) then |s| - 1 else LastFree(s[..|s| - 1])
  }

  /** Every free descriptor is conventional and does not continue the one before it. */
  ghost predicate Tight(s: seq<Desc>) {
    s != [] ==>
      var t, d := s[..|s| - 1], s[|s| - 1];
      && Tight(t)
      && (Usable(d) ==> d.kind == EFI_CONVENTIONAL_MEMORY && (LastFree(t) >= 0 ==> d.start != End(t[LastFree(t)])))
  }

  lemma {:induction false} TightExtend(s: seq<Desc>, n: Word)
    requires Tight(s) && LastFree(s) >= 0
    ensures var t := s[LastFree(s) := s[LastFree(s)].(npages := n)]; Tight(t) && LastFree(t) == LastFree(s)
  {
    var i := LastFree(s);
    var t := s[i := s[i].(npages := n)];
    if Usable(s[|s| - 1]) {
      assert t[..|s| - 1] == s[..|s| - 1];
    } else {
      assert t[..|s| - 1] == s[..|s| - 1][i := s[i].(npages := n)];
      TightExtend(s[..|s| - 1], n);
    }
  }

  lemma TightAppend(t: seq<Desc>, d: Desc)
    requires Tight(t)
    requires Usable(d) ==> d.kind == EFI_CONVENTIONAL_MEMORY && (LastFree(t) >= 0 ==> d.start != End(t[LastFree(t)]))
    ensures Tight(t + [d]) && LastFree(t + [d]) == if Usable(d) then |t| else LastFree(t)
  {
    assert (t + [d])[..|t|] == t;
  }

  lemma StepTight(c: Compaction, d: Desc)
    requires LastInRange(c) && Tight(c.out) && c.last == LastFree(c.out)
    ensures Tight(Step(c, d).out) && Step(c, d).last == LastFree(Step(c, d).out)
  {
    hide Tight, LastFree, End;
    if !Usable(d) {
      TightAppend(c.out, d);
    } else if c.last == -1 || d.start != End(c.out[c.last]) {
      TightAppend(c.out, d.(kind := EFI_CONVENTIONAL_MEMORY));
    } else {
      TightExtend(c.out, Extend(c.out[c.last], d).npages);
    }
  }

  lemma {:induction false} CompactTight(s: seq<Desc>)
    ensures Tight(Cleaned(s)) && Compact(s).last == LastFree(Cleaned(s))
  {
    hide Step;
    if s != [] {
      CompactTight(s[..|s| - 1]);
      StepTight(Compact(s[..|s| - 1]), s[|s| - 1]);
    }
  }

  lemma LastOfNone()
    ensures LastFree([]) == -1
  {
  }

  /** The last descriptor of a tight map is kept as it is. */
  lemma TightPrefix(t: seq<Desc>, d: Desc)
    requires Tight(t + [d])
    ensures Tight(t) && Step(Compaction(t, LastFree(t)), d) == Compaction(t + [d], LastFree(t + [d]))
  {
    hide End, Extend;
    assert (t + [d])[..|t|] == t;
    assert Usable(d) ==> d.(kind := EFI_CONVENTIONAL_MEMORY) == d;
  }

  lemma {:induction false} TightFixed(s: seq<Desc>)
    requires Tight(s)
    ensures Compact(s) == Compaction(s, LastFree(s))
  {
    hide Compact, Step, Tight, LastFree;
    if s == [] {
      CompactStart(s);
      LastOfNone();
    } else {
      var t, d := s[..|s| - 1], s[|s| - 1];
      assert s == t + [d];
      TightPrefix(t, d);
      TightFixed(t);
      assert s[..|t| + 1] == s && s[..|t|] == t;
      CompactNext(s, |t|);
    }
  }

  /** Compacting twice is compacting once. */
  lemma CleanIdempotent(s: seq<Desc>)
    ensures Cleaned(Cleaned(s)) == Cleaned(s)
  {
    CompactTight(s);
    TightFixed(Cleaned(s));
  }

  // ------------------------------------------------------------- what is left

  /** Of two free descriptors with none between them the second does not continue the first. */
  lemma {:induction false} TightGaps(s: seq<Desc>, i: nat, j: nat)
    requires Tight(s) && i < j < |s| && Usable(s[i]) && Usable(s[j]) && forall k :: i < k < j ==> !Usable(s[k])
    ensures s[j].start != End(s[i])
  {
    hide End;
    var t := s[..|s| - 1];
    if j == |s| - 1 {
      LastFreeIs(t, i);
    } else {
      TightGaps(t, i, j);
    }
  }

  lemma {:induction false} LastFreeIs(s: seq<Desc>, i: nat)
    requires i < |s| && Usable(s[i]) && forall k :: i < k < |s| ==> !Usable(s[k])
    ensures LastFree(s) == i
  {
    if i < |s| - 1 {
      LastFreeIs(s[..|s| - 1], i);
    }
  }

  /** In the firmware's numbers: a byte is in a descriptor of kind 7, conventional memory, after
      the compaction just when it was in one of kind 7, or in boot services code or data, kinds
      3 and 4, before. */
  lemma CleanBytes(s: seq<Desc>, x: nat)
    requires NoWrap(s)
    ensures (exists d :: d in Cleaned(s) && d.kind == 7 && d.start <= x < d.start + 4096 * d.npages)
       <==> (exists d :: d in s && (d.kind == 7 || d.kind == 3 || d.kind == 4)
                         && d.start <= x < d.start + 4096 * d.npages)
  {
    hide Compact, Cleaned;
    var c := Cleaned(s);
    CleanCovers(s);
    CleanKinds(s);
    if d :| d in c && d.kind == 7 && d.start <= x < d.start + 4096 * d.npages {
      assert UsableByte(c, x);
      var i :| 0 <= i < |s| && Usable(s[i]) && Contains(s[i], x);
      assert s[i] in s;
    }
    if d :| d in s && (d.kind == 7 || d.kind == 3 || d.kind == 4) && d.start <= x < d.start + 4096 * d.npages {
      assert UsableByte(s, x);
      var i :| 0 <= i < |c| && Usable(c[i]) && Contains(c[i], x);
      assert c[i] in c;
    }
  }

  lemma CleanKinds(s: seq<Desc>)
    ensures forall d :: d in Cleaned(s) ==> d.kind != 3 && d.kind != 4
  {
    LastIsFree(s);
  }

  /** No boot services memory is left, and no descriptor of kind 7 continues the one before it:
      every run of neighbours in the map has become one descriptor. */
  lemma CleanMaximal(s: seq<Desc>, i: nat, j: nat)
    requires NoWrap(s) && i < j < |Cleaned(s)| && Cleaned(s)[i].kind == 7 && Cleaned(s)[j].kind == 7
    requires forall k :: i < k < j ==> Cleaned(s)[k].kind != 7
    ensures Cleaned(s)[j].start != Cleaned(s)[i].start + 4096 * Cleaned(s)[i].npages
  {
    hide Compact, Cleaned, Tight, LastFree;
    CleanCovers(s);
    CleanKinds(s);
    CompactTight(s);
    TightGaps(Cleaned(s), i, j);
  }
}
