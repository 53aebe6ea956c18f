/** The masks and shifts of paging.h and paging.c in terms of the page-table model. */
module PagingBits {
  import opened Bits
  import opened PageTables

  const PAGE_SIZE := 0x1000
  const PHYS_ADDR_MASK := 0x000F_FFFF_FFFF_F000
  const PAGE_FLAG_PRESENT := 0x1
  const PAGE_FLAG_READWRITE := 0x2
  const PAGE_FLAG_USER := 0x4
  const PAGE_FLAG_PAGESIZE := 0x80
  const PAGE_FLAG_GLOBAL := 0x100
  const PAGE_FLAG_NOCACHE := 0x18

  function Shift(l: Level): nat {
    12 + 9 * l
  }

  /** A 64-bit address on a page boundary. */
  predicate PageAligned(x: Word) {
    x % PAGE_SIZE == 0
  }

  lemma Powers()
    ensures Pow2(0) == 1 && Pow2(1) == 2 && Pow2(2) == 4 && Pow2(7) == 0x80
    ensures Pow2(5) == 0x20 && Pow2(9) == 0x200 && Pow2(12) == 0x1000 && Pow2(21) == 0x20_0000
    ensures Pow2(30) == 0x4000_0000 && Pow2(39) == 0x80_0000_0000
    ensures Pow2(40) == FRAMES && Pow2(47) == 0x8000_0000_0000 && Pow2(52) == 0x10_0000_0000_0000
    ensures Pow2(55) == 0x80_0000_0000_0000 && Pow2(63) == 0x8000_0000_0000_0000 && Pow2(64) == W64
  {
  }

  lemma SpanIsPages(l: Level)
    ensures Pow2(Shift(l)) == 4096 * Pages(l)
  {
    hide Pow2;
    Powers();
  }

  /** Shifting out the lower levels and keeping nine bits gives the index of the page of va. */
  lemma IndexOf(va: Word, l: Level)
    ensures And(Shr(va, Shift(l)), 511) == Idx(VPageOf(va), l)
  {
    hide And, Pow2, Shr;
    Powers();
    AndLow(Shr(va, Shift(l)), 9);
    ShrIs(va, Shift(l));
    SpanIsPages(l);
    IndexDigit(va, Pages(l), VPAGES / Pages(l) / 512);
  }

  lemma IndexDigit(va: nat, n: nat, c: nat)
    requires n > 0 && c > 0 && n * (512 * c) == VPAGES
    ensures va / (4096 * n) % 512 == va / 4096 % VPAGES / n % 512
  {
    DivDiv(va, 4096, n);
    ModDiv(va / 4096, n, 512 * c);
    ModDiv(va / 4096 / n, 512, c);
  }

  /** One mask test finds out whether both addresses are aligned to a large page. */
  lemma BothAligned(pa: Word, va: Word, l: Level)
    requires PageAligned(pa) && PageAligned(va) && l <= 2
    ensures And(Or(pa, va), Pow2(Shift(l)) - 1) == 0
       <==> Offset(pa / 4096, l) == 0 && Offset(VPageOf(va), l) == 0
  {
    SpanIsPages(l);
    OrAligned(pa, va, Shift(l));
    var n := Pages(l);
    DivDiv(pa, 4096, n);
    DivDiv(va, 4096, n);
    ModDiv(va / 4096, n, VPAGES / n);
    assert n * (VPAGES / n) == VPAGES;
  }

  lemma EntryTests(e: Word)
    ensures And(e, PAGE_FLAG_PRESENT) != 0 <==> Present(e)
    ensures And(e, PAGE_FLAG_PAGESIZE) != 0 <==> Bit7(e)
    ensures And(e, 0x8000_0000_0000_0000) != 0 <==> ExecuteDisable(e)
    ensures And(e, PHYS_ADDR_MASK) == 4096 * Frame(e)
  {
    hide And, Pow2, Shr;
    Powers();
    AndBit(e, 0);
    AndBit(e, 7);
    AndBit(e, 63);
    ShrIs(e, 0);
    ShrIs(e, 7);
    ShrIs(e, 63);
    AddressBits(e);
  }

  lemma AddressBits(e: Word)
    ensures And(e, PHYS_ADDR_MASK) == 4096 * Frame(e)
  {
    hide And, Pow2, Shr, Shl;
    Powers();
    ShlMul(FRAMES - 1, 12);
    AndHigh(e, FRAMES - 1, 12);
    AndLow(Shr(e, 12), 40);
    ShrIs(e, 12);
    ShlMul(Frame(e), 12);
  }

  /** The permissions in a flags word. */
  function PermOf(flags: Word): Perm {
    Perm(Writable(flags), User(flags))
  }

  /** Masking an entry with the wanted rights leaves them all just when it grants them all. */
  lemma PermissionTest(e: Word, flags: Word)
    ensures And(e, And(flags, 6)) == And(flags, 6) <==>
            (PermOf(flags).write ==> Writable(e)) && (PermOf(flags).user ==> User(e))
  {
    hide And, Pow2, Shr;
    Powers();
    AndSix(flags);
    AndSix(e);
    AndBit(e, 1);
    AndBit(e, 2);
    ShrIs(e, 1);
    ShrIs(e, 2);
    AndZero(e);
    TwoBits(flags);
    TwoBits(e);
  }

  lemma TwoBits(x: nat)
    ensures x / 2 % 4 == x / 2 % 2 + 2 * (x / 4 % 2)
  {
    HalveDivMod(x / 2, 2);
    DivDiv(x, 2, 2);
  }

  lemma AndSix(x: nat)
    ensures And(x, 6) == 2 * (x / 2 % 4)
  {
    assert Pow2(2) == 4;
    AndStep(x, 6);
    hide And, Pow2;
    AndLow(x / 2, 2);
  }

  /** The digits below a page-aligned address are those of the number added to it. */
  lemma LowDigits(f: nat, p: nat)
    requires f < 4096
    ensures var w := f + 4096 * p;
      && w / 4096 == p && w % 2 == f % 2 && w / 2 % 2 == f / 2 % 2 && w / 4 % 2 == f / 4 % 2 && w / 8 % 2 == f / 8 % 2
      && w / 16 % 2 == f / 16 % 2 && w / 128 % 2 == f / 128 % 2 && w / 256 % 2 == f / 256 % 2
  {
    SameDigit(f, 1, 2048 * p);
    SameDigit(f, 2, 1024 * p);
    SameDigit(f, 4, 512 * p);
    SameDigit(f, 8, 256 * p);
    SameDigit(f, 16, 128 * p);
    SameDigit(f, 128, 16 * p);
    SameDigit(f, 256, 8 * p);
  }

  /** Bit 7 can be cleared without touching the other flag bits. */
  lemma DropBit7(f: nat)
    requires f < 512 && f / 128 % 2 == 1
    ensures f >= 128
    ensures var g := f - 128;
      && g % 2 == f % 2 && g / 2 % 2 == f / 2 % 2 && g / 4 % 2 == f / 4 % 2 && g / 8 % 2 == f / 8 % 2
      && g / 16 % 2 == f / 16 % 2 && g / 128 % 2 == 0 && g / 256 % 2 == f / 256 % 2
  {
    var g := f - 128;
    SameDigit(g, 2, 32);
    SameDigit(g, 4, 16);
    SameDigit(g, 8, 8);
    SameDigit(g, 16, 4);
  }

  /** The entry of a new table in frame q. */
  function TableWord(q: nat): (w: Word)
    requires q < FRAMES
    ensures Frame(w) == q && Pointer(w) && Writable(w) && User(w) && !ExecuteDisable(w)
  {
    LowDigits(7, q);
    4096 * q + 7
  }

  /** The entry written for a new table. */
  lemma TableEntry(q: nat)
    requires q < FRAMES
    ensures Or(Or(Or(4096 * q, PAGE_FLAG_PRESENT), PAGE_FLAG_READWRITE), PAGE_FLAG_USER) == TableWord(q)
  {
    OrDigit(0, q, 0);
    OrDigit(1, q, 1);
    OrDigit(3, q, 2);
  }

  lemma OrDigit(f: nat, q: nat, k: nat)
    requires k <= 2 && f == Pow2(k) - 1
    ensures Pow2(k) == (if k == 0 then 1 else if k == 1 then 2 else 4)
    ensures Or(4096 * q + f, Pow2(k)) == 4096 * q + f + Pow2(k)
  {
    hide Or, Pow2, Shr;
    Powers();
    LowDigits(f, q);
    OrBit(4096 * q + f, k);
    ShrIs(4096 * q + f, k);
  }

  /** The flag bits vm_map accepts: all but accessed and dirty, and nothing above GLOBAL. */
  predicate FlagsAllowed(flags: Word) {
    flags < 512 && flags / 32 % 4 == 0
  }

  /** The flag bits vm_map does not know. */
  lemma FlagsTest(flags: Word)
    ensures And(flags, Not(0x19F)) == 0 <==> FlagsAllowed(flags)
  {
    hide And, Shl, Pow2, Shr;
    Powers();
    ShrIs(flags, 5);
    var x := flags / 32;
    ShlMul(0x7FF_FFFF_FFFF_FFF3, 5);
    AndHigh(flags, 0x7FF_FFFF_FFFF_FFF3, 5);
    ShlMul(And(x, 0x7FF_FFFF_FFFF_FFF3), 5);
    HighFlags(x);
    DivDiv(flags, 32, 16);
  }

  lemma HighFlags(x: nat)
    requires x < 0x800_0000_0000_0000
    ensures And(x, 0x7FF_FFFF_FFFF_FFF3) == x % 4 + 16 * (x / 16)
  {
    hide And, Pow2;
    Halvings(x);
    AndOdd(x, 0x3FF_FFFF_FFFF_FFF9);
    AndOdd(x / 2, 0x1FF_FFFF_FFFF_FFFC);
    AndEven(x / 4, 0xFF_FFFF_FFFF_FFFE);
    AndEven(x / 8, 0x7F_FFFF_FFFF_FFFF);
    Powers();
    AndAll(x / 16, 55);
  }

  lemma AndOdd(x: nat, y: nat)
    ensures And(x, 2 * y + 1) == x % 2 + 2 * And(x / 2, y)
  {
    hide And;
    AndStep(x, 2 * y + 1);
  }

  lemma AndEven(x: nat, y: nat)
    ensures And(x, 2 * y) == 2 * And(x / 2, y)
  {
    hide And;
    AndStep(x, 2 * y);
  }

  lemma Halvings(x: nat)
    ensures x / 2 / 2 == x / 4 && x / 4 / 2 == x / 8 && x / 8 / 2 == x / 16
    ensures x % 4 == x % 2 + 2 * (x / 2 % 2)
    ensures x < 0x800_0000_0000_0000 ==> x / 16 < 0x80_0000_0000_0000
  {
    DivDiv(x, 2, 2);
    DivDiv(x, 4, 2);
    DivDiv(x, 8, 2);
    HalveDivMod(x, 2);
  }

  lemma SetBit0(f: nat)
    requires f < 512 && f % 2 == 0
    ensures var g := f + 1;
      && g % 2 == 1 && g / 2 % 2 == f / 2 % 2 && g / 4 % 2 == f / 4 % 2 && g / 8 % 2 == f / 8 % 2
      && g / 16 % 2 == f / 16 % 2 && g / 128 % 2 == f / 128 % 2 && g / 256 % 2 == f / 256 % 2
  {
    assert (f + 1) / 2 == f / 2;
    DivDiv(f, 2, 2); DivDiv(f + 1, 2, 2);
    DivDiv(f, 2, 4); DivDiv(f + 1, 2, 4);
    DivDiv(f, 2, 8); DivDiv(f + 1, 2, 8);
    DivDiv(f, 2, 64); DivDiv(f + 1, 2, 64);
    DivDiv(f, 2, 128); DivDiv(f + 1, 2, 128);
  }

  function WithoutBit7(flags: Word): (f: Word)
    requires flags < 512
    ensures f < 512 && !Bit7(f) && Present(f) == Present(flags)
    ensures Writable(f) == Writable(flags) && User(f) == User(flags) && Global(f) == Global(flags)
    ensures WriteThrough(f) == WriteThrough(flags) && CacheDisable(f) == CacheDisable(flags)
  {
    if Bit7(flags) then DropBit7(flags); flags - 128 else flags
  }

  /** The flags of a leaf: PAGESIZE off, PRESENT on. */
  function LeafFlags(flags: Word): (f: Word)
    requires FlagsAllowed(flags)
    ensures f < 512 && Present(f) && !Bit7(f)
    ensures Writable(f) == Writable(flags) && User(f) == User(flags) && Global(f) == Global(flags)
    ensures WriteThrough(f) == WriteThrough(flags) && CacheDisable(f) == CacheDisable(flags)
  {
    var f := WithoutBit7(flags);
    if Present(f) then f else SetBit0(f); f + 1
  }

  /** The page-size bit taken out of the flags and the present bit put in. */
  lemma NormalizeFlags(flags: Word)
    requires FlagsAllowed(flags)
    ensures Or(And(flags, Not(PAGE_FLAG_PAGESIZE)), PAGE_FLAG_PRESENT) == LeafFlags(flags)
  {
    hide And, Or, Pow2, Shr;
    Powers();
    ShrIs(flags, 7);
    ShrIs(WithoutBit7(flags), 0);
    AndClear(flags, 7, 64, Not(PAGE_FLAG_PAGESIZE));
    OrBit(WithoutBit7(flags), 0);
  }

  function AttrsOf(flags: Word): Attrs {
    Attrs(false, WriteThrough(flags), CacheDisable(flags), Global(flags))
  }

  /** The entry of a leaf of level l for the page at pa. */
  function LeafWord(pa: Word, flags: Word, l: Level): (w: Word)
    requires FlagsAllowed(flags) && PageAligned(pa) && pa / 4096 < FRAMES
    ensures Present(w) && Bit7(w) == (l != 0) && Frame(w) == pa / 4096
    ensures Writable(w) == Writable(flags) && User(w) == User(flags) && !ExecuteDisable(w)
    ensures WriteThrough(w) == WriteThrough(flags) && CacheDisable(w) == CacheDisable(flags)
    ensures Global(w) == Global(flags)
  {
    LeafBits(pa, LeafFlags(flags), l);
    pa + LeafFlags(flags) + (if l == 0 then 0 else 128)
  }

  /** What the walk makes of such a leaf. */
  lemma LeafMeaning(pa: Word, flags: Word, l: Level, v: VPage, r: Rights)
    requires FlagsAllowed(flags) && l <= 2 && PageAligned(pa) && pa / 4096 < FRAMES && Offset(pa / 4096, l) == 0
    ensures Leaf(LeafWord(pa, flags, l), v, l, r) == Mapped(pa / 4096 + Offset(v, l), r, AttrsOf(flags))
  {
    var f := pa / 4096;
    EvenFrame(f, l);
    assert Frame(LeafWord(pa, flags, l)) == f;
    hide Offset, Frame, FlagsAllowed;
  }

  lemma EvenFrame(f: nat, l: Level)
    requires Offset(f, l) == 0
    ensures l > 0 ==> f % 2 == 0
  {
    match l
    case 0 =>
    case 1 => ModDiv(f, 2, 0x100);
    case 2 => ModDiv(f, 2, 0x2_0000);
    case 3 => ModDiv(f, 2, 0x400_0000);
  }

  /** The entry written for a leaf. */
  lemma LeafEntry(pa: Word, flags: Word, l: Level)
    requires FlagsAllowed(flags) && PageAligned(pa) && pa / 4096 < FRAMES
    ensures Or(Or(pa, LeafFlags(flags)), if l == 0 then 0 else PAGE_FLAG_PAGESIZE) == LeafWord(pa, flags, l)
  {
    LeafBits(pa, LeafFlags(flags), l);
    LeafOr(pa, LeafFlags(flags));
  }

  lemma LeafOr(pa: Word, f: Word)
    requires f < 512 && PageAligned(pa) && Shr(pa + f, 7) % 2 == 0
    ensures Or(pa, f) == pa + f
    ensures Or(pa + f, 0) == pa + f && Or(pa + f, PAGE_FLAG_PAGESIZE) == pa + f + 128
  {
    hide Or, Pow2, Shr;
    Powers();
    OrDisjoint(pa, f, 12);
    OrZero(pa + f);
    OrBit(pa + f, 7);
  }

  lemma LeafBits(pa: Word, f: Word, l: Level)
    requires f < 512 && Present(f) && !Bit7(f) && PageAligned(pa) && pa / 4096 < FRAMES
    ensures Shr(pa + f, 7) % 2 == 0
    ensures var w: nat := pa + f + (if l == 0 then 0 else 128);
      && w < W64 && w / 4096 % FRAMES == pa / 4096
      && w % 2 == 1 && w / 2 % 2 == f / 2 % 2 && w / 4 % 2 == f / 4 % 2 && w / 8 % 2 == f / 8 % 2
      && w / 16 % 2 == f / 16 % 2 && (w / 128 % 2 == 1 <==> l != 0) && w / 256 % 2 == f / 256 % 2
  {
    hide Pow2, Shr;
    Powers();
    ShrIs(pa + f, 7);
    LowDigits(f, pa / 4096);
    FitsFrame(f, pa / 4096);
    if l != 0 {
      FlagHole(f);
      DropBit7(f + 128);
      LowDigits(f + 128, pa / 4096);
      FitsFrame(f + 128, pa / 4096);
    }
  }

  lemma FitsFrame(g: nat, p: nat)
    requires g < 4096 && p < FRAMES
    ensures g + 4096 * p < W64 && p % FRAMES == p
  {
  }

  lemma FlagHole(f: nat)
    requires f < 512 && f / 128 % 2 == 0
    ensures f + 128 < 512 && (f + 128) / 128 % 2 == 1
  {
  }

  lemma FlagRanges(f: nat)
    requires f < 512
    ensures f / 32 % 4 == 0 <==> f < 32 || 128 <= f < 160 || 256 <= f < 288 || 384 <= f < 416
    ensures f / 128 % 2 == 1 <==> 128 <= f < 256 || 384 <= f
  {
  }

  /** Normalizing the flags sets neither the accessed nor the dirty bit. */
  lemma NoDirty(flags: Word)
    requires FlagsAllowed(flags)
    ensures FlagsAllowed(LeafFlags(flags)) && LeafFlags(LeafFlags(flags)) == LeafFlags(flags)
  {
    FlagRanges(flags);
    FlagRanges(LeafFlags(flags));
  }
}
