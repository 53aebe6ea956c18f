/** The four-level page tables of an x86-64 address space, as words of physical
    memory, and the processor's walk over them (Intel SDM vol. 3A, sections 4.5
    and 4.6).

    Memory is a sequence of 64-bit words; the table in page frame t occupies
    words 512*t .. 512*t+511.  A virtual page is the 36-bit number made of the
    four table indices.  Level 3 is the top table, level 0 holds 4K leaves, so
    the shift of level L is 12 + 9*L.
 */
module PageTables {
  import opened Bits
  import opened Option

  type Mem = seq<Word>

  const VPAGES := 0x10_0000_0000 // 2^36 virtual pages
  const FRAMES := 0x100_0000_0000 // 2^40 page frames

  type VPage = v: int | 0 <= v < VPAGES
  type Level = l: int | 0 <= l <= 3
  type Index = i: int | 0 <= i < 512

  /** Pages covered by one slot of level L (and, for L = 4, by the whole space). */
  function Pages(l: nat): (n: nat)
    requires l <= 4
    ensures n > 0
  {
    match l
    case 0 => 1
    case 1 => 0x200
    case 2 => 0x4_0000
    case 3 => 0x800_0000
    case 4 => VPAGES
  }

  /** The slots of level L in address order; slot s lies in slot s / 512 above it. */
  function Slot(v: VPage, l: nat): nat
    requires l <= 4
  {
    match l
    case 0 => v
    case 1 => v / 0x200
    case 2 => v / 0x4_0000
    case 3 => v / 0x800_0000
    case 4 => 0
  }

  /** The position of page (or frame) x within a slot of level L. */
  function Offset(x: nat, l: Level): (o: nat)
    ensures o < Pages(l) && o <= x
  {
    match l
    case 0 => 0
    case 1 => x % 0x200
    case 2 => x % 0x4_0000
    case 3 => x % 0x800_0000
  }

  function Idx(v: VPage, l: Level): Index {
    Slot(v, l) % 512
  }

  lemma SlotUp(v: VPage, l: Level)
    ensures Slot(v, l) == 512 * Slot(v, l + 1) + Idx(v, l)
    ensures Slot(v, 4) == 0
  {
  }

  function Entry(m: Mem, t: nat, i: Index): Word {
    if 512 * t + i < |m| then m[512 * t + i] else 0
  }

  // ---------------------------------------------------------- entry decoding

  predicate Present(e: Word) { e % 2 == 1 }                     // bit 0, P
  predicate Writable(e: Word) { e / 2 % 2 == 1 }                // bit 1, R/W
  predicate User(e: Word) { e / 4 % 2 == 1 }                    // bit 2, U/S
  predicate WriteThrough(e: Word) { e / 8 % 2 == 1 }            // bit 3, PWT
  predicate CacheDisable(e: Word) { e / 16 % 2 == 1 }           // bit 4, PCD
  predicate Bit7(e: Word) { e / 128 % 2 == 1 }                  // PS, or PAT in a 4K leaf
  predicate Global(e: Word) { e / 256 % 2 == 1 }                // bit 8, G
  predicate ExecuteDisable(e: Word) { e >= 0x8000_0000_0000_0000 } // bit 63, XD
  function Frame(e: Word): (f: nat) ensures f < FRAMES { e / 4096 % FRAMES }

  predicate Pointer(e: Word) { Present(e) && !Bit7(e) }

  // -------------------------------------------------------------- the walk

  datatype Rights = Rights(write: bool, user: bool, noexec: bool)
  datatype Attrs = Attrs(pat: bool, pwt: bool, pcd: bool, global: bool)
  datatype Translation =
    | NotPresent
    | ReservedBit
    | Mapped(frame: nat, rights: Rights, attrs: Attrs)

  const ALL := Rights(true, true, false)

  /** Access rights are the AND of R/W and U/S and the OR of XD over the walk. */
  function Narrow(acc: Rights, e: Word): Rights {
    Rights(acc.write && Writable(e), acc.user && User(e), acc.noexec || ExecuteDisable(e))
  }

  /** What a leaf entry of level L says about page v: bit 7 is reserved at the top,
      and a large leaf keeps PAT in bit 12 and has its other low address bits reserved. */
  function Leaf(e: Word, v: VPage, l: Level, acc: Rights): Translation {
    if l == 3 || Offset(Frame(e), l) > 1 then ReservedBit
    else Mapped(
           Frame(e) - Offset(Frame(e), l) + Offset(v, l), acc,
           Attrs(if l == 0 then Bit7(e) else Frame(e) % 2 == 1, WriteThrough(e), CacheDisable(e), Global(e)))
  }

  function TranslateFrom(m: Mem, t: nat, v: VPage, l: Level, acc: Rights): Translation
    decreases l
  {
    var e := Entry(m, t, Idx(v, l));
    if !Present(e) then NotPresent
    else if l == 0 || Bit7(e) then Leaf(e, v, l, Narrow(acc, e))
    else TranslateFrom(m, Frame(e), v, l - 1, Narrow(acc, e))
  }

  function Translate(m: Mem, root: nat, v: VPage): Translation {
    TranslateFrom(m, root, v, 3, ALL)
  }

  // ------------------------------------------------------- canonical addresses

  predicate Canonical(va: Word) {
    va < 0x8000_0000_0000 || va >= 0xFFFF_8000_0000_0000
  }

  function VPageOf(va: Word): VPage {
    va / 4096 % VPAGES
  }

  datatype Access = Fault(reserved: bool) | Byte(pa: nat, rights: Rights, attrs: Attrs)

  /** The physical byte behind a canonical virtual address. */
  function Walk(m: Mem, root: nat, va: Word): Access {
    match Translate(m, root, VPageOf(va))
    case NotPresent => Fault(false)
    case ReservedBit => Fault(true)
    case Mapped(f, r, a) => Byte(4096 * f + va % 4096, r, a)
  }

  // ----------------------------------------------------------- tables in use

  /** The frame of the level-L table on the walk of page v, if the walk gets there. */
  ghost function TableAt(m: Mem, root: nat, v: VPage, l: Level): Option<nat>
    decreases 3 - l
  {
    if l == 3 then Some(root)
    else match TableAt(m, root, v, l + 1)
         case None => None
         case Some(t) =>
           var e := Entry(m, t, Idx(v, l + 1));
           if Pointer(e) then Some(Frame(e)) else None
  }

  ghost function EntryAt(m: Mem, root: nat, v: VPage, l: Level): Word {
    match TableAt(m, root, v, l)
    case None => 0
    case Some(t) => Entry(m, t, Idx(v, l))
  }

  /** Every table in use lies in memory, in a frame of `used`. */
  ghost predicate TablesIn(m: Mem, root: nat, used: set<nat>) {
    forall v: VPage, l: Level :: var o := TableAt(m, root, v, l);
      o.Some? ==> o.value in used && 512 * o.value + 512 <= |m|
  }

  /** The tables form a tree: no frame serves two slots or two levels. */
  ghost predicate IsTree(m: Mem, root: nat) {
    forall v: VPage, l: Level, v': VPage, l': Level ::
      Meet(m, root, v, l, v', l') ==> l == l' && Slot(v, l + 1) == Slot(v', l' + 1)
  }

  /** The walks of v and v' read one table, at levels l and l'. */
  ghost predicate Meet(m: Mem, root: nat, v: VPage, l: Level, v': VPage, l': Level) {
    TableAt(m, root, v, l).Some? && TableAt(m, root, v, l) == TableAt(m, root, v', l')
  }

  ghost predicate WellFormed(m: Mem, root: nat, used: set<nat>) {
    TablesIn(m, root, used) && IsTree(m, root)
  }

  // ------------------------------------------------- memories that look alike

  ghost predicate AgreeOn(m: Mem, m': Mem, frames: set<nat>) {
    && |m| == |m'|
    && forall t: nat, i: Index :: t in frames ==> Entry(m', t, i) == Entry(m, t, i)
  }

  /** m' has the tables of m, entry for entry. */
  ghost predicate SameTables(m: Mem, m': Mem, root: nat) {
    forall v: VPage, l: Level ::
      TableAt(m', root, v, l) == TableAt(m, root, v, l) && EntryAt(m', root, v, l) == EntryAt(m, root, v, l)
  }

  lemma {:induction false} AgreeSame(m: Mem, m': Mem, root: nat, used: set<nat>, v: VPage, l: Level)
    requires TablesIn(m, root, used) && AgreeOn(m, m', used)
    ensures TableAt(m', root, v, l) == TableAt(m, root, v, l)
    ensures EntryAt(m', root, v, l) == EntryAt(m, root, v, l)
    decreases 3 - l
  {
    if l < 3 {
      AgreeSame(m, m', root, used, v, l + 1);
    }
  }

  lemma SameTree(m: Mem, m': Mem, root: nat)
    requires IsTree(m, root)
    requires forall v: VPage, l: Level :: TableAt(m', root, v, l) == TableAt(m, root, v, l)
    ensures IsTree(m', root)
  {
    forall v: VPage, l: Level, v': VPage, l': Level | Meet(m', root, v, l, v', l')
      ensures l == l' && Slot(v, l + 1) == Slot(v', l' + 1)
    {
      assert Meet(m, root, v, l, v', l');
    }
  }

  lemma AgreeSameTables(m: Mem, m': Mem, root: nat, used: set<nat>)
    requires WellFormed(m, root, used) && AgreeOn(m, m', used)
    ensures SameTables(m, m', root) && WellFormed(m', root, used)
  {
    forall v: VPage, l: Level
      ensures TableAt(m', root, v, l) == TableAt(m, root, v, l) && EntryAt(m', root, v, l) == EntryAt(m, root, v, l)
    {
      AgreeSame(m, m', root, used, v, l);
    }
    SameTree(m, m', root);
  }

  // ------------------------------------------------------ what a check decides

  const EEXIST := 1
  const ENOMEM := 3
  const EINVAL := 4

  /** The permission bits R/W and U/S a caller asks for. */
  datatype Perm = Perm(write: bool, user: bool)

  predicate Permits(e: Word, p: Perm) {
    (p.write ==> Writable(e)) && (p.user ==> User(e)) && !ExecuteDisable(e)
  }

  /** Whether page v can be mapped with permissions p, told from the tables alone:
      0 when its walk ends in an empty entry after permissive pointers. */
  function VerdictFrom(m: Mem, t: nat, v: VPage, l: Level, p: Perm): int
    decreases l
  {
    var e := Entry(m, t, Idx(v, l));
    if e == 0 then 0
    else if l == 0 || !Pointer(e) then -EEXIST
    else if !Permits(e, p) then -EINVAL
    else VerdictFrom(m, Frame(e), v, l - 1, p)
  }

  function Verdict(m: Mem, root: nat, v: VPage, p: Perm): int {
    VerdictFrom(m, root, v, 3, p)
  }

  /** Entry e points to a table and lets page accesses with permissions p through. */
  predicate Passes(e: Word, p: Perm) {
    && e % 2 == 1 && e / 0x80 % 2 == 0 && e < 0x8000_0000_0000_0000
    && (p.write ==> e / 2 % 2 == 1) && (p.user ==> e / 4 % 2 == 1)
  }

  /** The verdict told from the entries the processor's walk of v reads: at the first one that does
      not let the page through, of level l, it is 0 if that entry is 0; EINVAL if it points to a
      table but without the permissions asked for; and EEXIST if it is anything else. */
  lemma VerdictIs(m: Mem, root: nat, v: VPage, p: Perm) returns (l: Level)
    ensures forall k: Level :: k > l ==> Passes(EntryAt(m, root, v, k), p)
    ensures l > 0 ==> !Passes(EntryAt(m, root, v, l), p)
    ensures var e := EntryAt(m, root, v, l);
      Verdict(m, root, v, p) ==
        if e == 0 then 0 else if l > 0 && e % 2 == 1 && e / 0x80 % 2 == 0 then -4 else -1
  {
    l := VerdictFromIs(m, root, root, v, 3, p);
  }

  lemma {:induction false} VerdictFromIs(m: Mem, root: nat, t: nat, v: VPage, h: Level, p: Perm) returns (l: Level)
    requires TableAt(m, root, v, h) == Some(t) && forall k: Level :: k > h ==> Passes(EntryAt(m, root, v, k), p)
    ensures forall k: Level :: k > l ==> Passes(EntryAt(m, root, v, k), p)
    ensures l > 0 ==> !Passes(EntryAt(m, root, v, l), p)
    ensures var e := EntryAt(m, root, v, l);
      VerdictFrom(m, t, v, h, p) ==
        if e == 0 then 0 else if l > 0 && e % 2 == 1 && e / 0x80 % 2 == 0 then -4 else -1
    decreases h
  {
    var e := Entry(m, t, Idx(v, h));
    assert EntryAt(m, root, v, h) == e;
    if h > 0 && Passes(e, p) {
      assert TableAt(m, root, v, h - 1) == Some(Frame(e));
      l := VerdictFromIs(m, root, Frame(e), v, h - 1, p);
    } else {
      l := h;
    }
  }

  /** A page that can be mapped is not mapped yet. */
  lemma {:induction false} MappableIsUnmapped(m: Mem, t: nat, v: VPage, l: Level, p: Perm, acc: Rights)
    requires VerdictFrom(m, t, v, l, p) == 0
    ensures TranslateFrom(m, t, v, l, acc) == NotPresent
    decreases l
  {
    var e := Entry(m, t, Idx(v, l));
    if e != 0 {
      MappableIsUnmapped(m, Frame(e), v, l - 1, p, Narrow(acc, e));
    }
  }

  /** The walk of v from level l down reads the same entries in m and m'. */
  ghost predicate SamePath(m: Mem, m': Mem, root: nat, v: VPage, l: Level) {
    forall k: Level :: k <= l ==>
      TableAt(m', root, v, k) == TableAt(m, root, v, k) && EntryAt(m', root, v, k) == EntryAt(m, root, v, k)
  }

  lemma {:induction false} SamePathSameWalk(m: Mem, m': Mem, root: nat, t: nat, v: VPage, l: Level, acc: Rights,
                                            p: Perm)
    requires SamePath(m, m', root, v, l) && TableAt(m, root, v, l) == Some(t)
    ensures TranslateFrom(m', t, v, l, acc) == TranslateFrom(m, t, v, l, acc)
    ensures VerdictFrom(m', t, v, l, p) == VerdictFrom(m, t, v, l, p)
    decreases l
  {
    assert TableAt(m', root, v, l) == Some(t);
    var e := Entry(m, t, Idx(v, l));
    assert EntryAt(m', root, v, l) == EntryAt(m, root, v, l) == e == Entry(m', t, Idx(v, l));
    if l > 0 && Pointer(e) {
      assert TableAt(m, root, v, l - 1) == Some(Frame(e));
      SamePathSameWalk(m, m', root, Frame(e), v, l - 1, Narrow(acc, e), p);
    }
  }

  // ------------------------------------------------------------- table writes

  /** Frames touched: writing entry i of table t. */
  function SetEntry(m: Mem, t: nat, i: Index, w: Word): (m': Mem)
    requires 512 * t + i < |m|
    ensures |m'| == |m|
    ensures forall t': nat, i': Index :: Entry(m', t', i') == if t' == t && i' == i then w else Entry(m, t', i')
  {
    m[512 * t + i := w]
  }

  ghost predicate Under(v: VPage, u: VPage, l: Level) {
    Slot(v, l) == Slot(u, l)
  }

  /** Two pages under one table have the same slot just when they have the same index. */
  lemma SlotByIdx(v: VPage, u: VPage, l: Level)
    requires Slot(v, l + 1) == Slot(u, l + 1)
    ensures Idx(v, l) == Idx(u, l) <==> Slot(v, l) == Slot(u, l)
  {
    SlotUp(v, l);
    SlotUp(u, l);
  }

  /** A write through slot (u, k) is seen at level l of the walk of v only when l == k
      and v lies under that slot. */
  lemma WriteSeen(m: Mem, root: nat, u: VPage, k: Level, t: nat, w: Word, v: VPage, l: Level, t': nat)
    requires IsTree(m, root) && 512 * t + 512 <= |m|
    requires TableAt(m, root, u, k) == Some(t)
    requires TableAt(m, root, v, l) == Some(t')
    ensures Entry(SetEntry(m, t, Idx(u, k), w), t', Idx(v, l))
         == if l == k && Under(v, u, k) then w else Entry(m, t', Idx(v, l))
  {
    var i, i' := Idx(u, k), Idx(v, l);
    var m' := SetEntry(m, t, i, w);
    assert Entry(m', t', i') == if t' == t && i' == i then w else Entry(m, t', i');
    if t == t' {
      assert Meet(m, root, v, l, u, k);
      assert l == k && Slot(v, l + 1) == Slot(u, k + 1);
      SlotByIdx(v, u, k);
    } else if l == k && Under(v, u, k) {
      SlotUp(u, k); SlotUp(v, k);
      SameTable(m, root, u, v, k);
    }
  }

  /** The table a walk reaches depends only on the slot above. */
  lemma {:induction false} SameTable(m: Mem, root: nat, u: VPage, v: VPage, l: Level)
    requires Slot(u, l + 1) == Slot(v, l + 1)
    ensures TableAt(m, root, u, l) == TableAt(m, root, v, l)
    decreases 3 - l
  {
    if l < 3 {
      SlotUp(u, l + 1);
      SlotUp(v, l + 1);
      SameTable(m, root, u, v, l + 1);
    }
  }

  /** Slot (u, k) of the tree is empty and may be given w: an entry that ends the
      walk, or a pointer to a cleared frame outside the tree. */
  ghost predicate Fillable(m: Mem, root: nat, u: VPage, k: Level, t: nat, w: Word) {
    && IsTree(m, root)
    && 512 * t + 512 <= |m|
    && TableAt(m, root, u, k) == Some(t)
    && Entry(m, t, Idx(u, k)) == 0
    && (Pointer(w) && k > 0 ==>
          && (forall i: Index :: Entry(m, Frame(w), i) == 0)
          && (forall v: VPage, l: Level :: TableAt(m, root, v, l) != Some(Frame(w))))
  }

  /** What a write into an empty slot does to every walk at every level. */
  lemma {:induction false} Fill(m: Mem, root: nat, u: VPage, k: Level, t: nat, w: Word, v: VPage, l: Level)
    requires Fillable(m, root, u, k, t, w)
    ensures
      var m' := SetEntry(m, t, Idx(u, k), w);
      if Under(v, u, k) && l < k then
        && TableAt(m, root, v, l) == None
        && TableAt(m', root, v, l) == (if Pointer(w) && l == k - 1 then Some(Frame(w)) else None)
        && EntryAt(m', root, v, l) == 0
      else
        && TableAt(m', root, v, l) == TableAt(m, root, v, l)
        && EntryAt(m', root, v, l) == (if Under(v, u, k) && l == k then w else EntryAt(m, root, v, l))
    decreases 3 - l
  {
    hide Slot, Idx, Frame, IsTree, Entry, SetEntry;
    var m' := SetEntry(m, t, Idx(u, k), w);
    if l < 3 {
      Fill(m, root, u, k, t, w, v, l + 1);
    }
    if Under(v, u, k) {
      SlotUp(v, k);
      SlotUp(u, k);
      SameTable(m, root, u, v, k);
    }
    var o := TableAt(m, root, v, l);
    if o.Some? {
      WriteSeen(m, root, u, k, t, w, v, l, o.value);
    }
  }

  lemma {:induction false} FillUnder(m: Mem, root: nat, u: VPage, k: Level, t: nat, w: Word, v: VPage, l: Level,
                                     tl: nat,
                                     p: Perm, acc: Rights)
    requires Fillable(m, root, u, k, t, w) && Under(v, u, k) && k <= l && TableAt(m, root, v, l) == Some(tl)
    ensures
      var m' := SetEntry(m, t, Idx(u, k), w);
      && TranslateFrom(m, tl, v, l, acc) == NotPresent
      && (k > 0 && Pointer(w) ==> TranslateFrom(m', tl, v, l, acc) == NotPresent)
      && (k > 0 && Pointer(w) && Permits(w, p) ==> VerdictFrom(m', tl, v, l, p) == VerdictFrom(m, tl, v, l, p))
    decreases l
  {
    var m' := SetEntry(m, t, Idx(u, k), w);
    Fill(m, root, u, k, t, w, v, l);
    var e := Entry(m, tl, Idx(v, l));
    if l == k {
      SlotUp(v, k);
      SlotUp(u, k);
      SameTable(m, root, u, v, k);
      if k > 0 && Pointer(w) {
        Fill(m, root, u, k, t, w, v, k - 1);
        assert Entry(m', Frame(w), Idx(v, k - 1)) == 0;
      }
    } else {
      TablePointer(m, root, v, u, k, l);
      assert Pointer(e) && TableAt(m, root, v, l - 1) == Some(Frame(e));
      FillUnder(m, root, u, k, t, w, v, l - 1, Frame(e), p, Narrow(acc, e));
    }
  }

  /** A walk that reaches level k went through pointers at every level above. */
  lemma {:induction false} TablePointer(m: Mem, root: nat, v: VPage, u: VPage, k: Level, l: Level)
    requires k < l && Under(v, u, k) && TableAt(m, root, u, k).Some?
    ensures TableAt(m, root, v, l).Some? && Pointer(EntryAt(m, root, v, l))
    ensures TableAt(m, root, v, l - 1) == Some(Frame(EntryAt(m, root, v, l)))
    decreases l - k
  {
    SlotUp(v, k);
    SlotUp(u, k);
    SameTable(m, root, u, v, k);
    if l > k + 1 {
      TablePointer(m, root, v, v, k + 1, l);
    }
  }

  /** A leaf written into the empty slot of a mappable page is what its walk now finds,
      and the rights over the walk are the ones asked for. */
  lemma {:induction false} FillLeaf(m: Mem, root: nat, u: VPage, k: Level, t: nat, w: Word, v: VPage, l: Level, tl: nat,
                                    p: Perm, acc: Rights)
    requires Fillable(m, root, u, k, t, w) && Under(v, u, k) && k <= l && TableAt(m, root, v, l) == Some(tl)
    requires Present(w) && (k == 0 || Bit7(w)) && Writable(w) == p.write && User(w) == p.user && !ExecuteDisable(w)
    requires VerdictFrom(m, tl, v, l, p) == 0
    requires (p.write ==> acc.write) && (p.user ==> acc.user) && !acc.noexec
    ensures TranslateFrom(SetEntry(m, t, Idx(u, k), w), tl, v, l, acc) == Leaf(w, v, k, Rights(p.write, p.user, false))
    decreases l
  {
    Fill(m, root, u, k, t, w, v, l);
    var e := Entry(m, tl, Idx(v, l));
    if l > k {
      TablePointer(m, root, v, u, k, l);
      FillLeaf(m, root, u, k, t, w, v, l - 1, Frame(e), p, Narrow(acc, e));
    }
  }

  /** Pages under one empty slot get one verdict. */
  lemma {:induction false} OneVerdict(m: Mem, root: nat, u: VPage, k: Level, v: VPage, l: Level, tl: nat, p: Perm)
    requires Under(v, u, k) && k <= l && TableAt(m, root, u, k).Some? && EntryAt(m, root, u, k) == 0
    requires TableAt(m, root, u, l) == Some(tl)
    ensures VerdictFrom(m, tl, v, l, p) == VerdictFrom(m, tl, u, l, p)
    decreases l
  {
    SlotsAbove(v, u, k, l);
    var e := Entry(m, tl, Idx(u, l));
    if l > k {
      TablePointer(m, root, u, u, k, l);
      OneVerdict(m, root, u, k, v, l - 1, Frame(e), p);
    }
  }

  lemma {:induction false} SlotsAbove(v: VPage, u: VPage, k: Level, l: Level)
    requires Under(v, u, k) && k <= l
    ensures Slot(v, l) == Slot(u, l) && Idx(v, l) == Idx(u, l) && Slot(v, l + 1) == Slot(u, l + 1)
    decreases l
  {
    SlotUp(v, l);
    SlotUp(u, l);
    if k < l {
      SlotsAbove(v, u, k, l - 1);
    }
  }

  // -------------------------------------------------------------- the two steps

  /** m' is m with empty tables hung under empty entries on the walk of page u. */
  ghost predicate Grown(m: Mem, m': Mem, root: nat, u: VPage) {
    && (forall v: VPage, l: Level :: TableAt(m, root, v, l).Some? ==>
          && TableAt(m', root, v, l) == TableAt(m, root, v, l)
          && (EntryAt(m, root, v, l) != 0 || Slot(v, l) != Slot(u, l) ==>
            EntryAt(m', root, v, l) == EntryAt(m, root, v, l)))
    && (forall v: VPage :: Translate(m', root, v) == Translate(m, root, v))
    && (forall v: VPage, p: Perm :: Verdict(m', root, v, p) == Verdict(m, root, v, p))
  }

  /** w is a pointer as the kernel writes it, to a cleared frame outside `used`. */
  ghost predicate FreshPointer(m: Mem, used: set<nat>, w: Word) {
    && Pointer(w) && Writable(w) && User(w) && !ExecuteDisable(w)
    && Frame(w) !in used && 512 * Frame(w) + 512 <= |m|
    && forall i: Index :: Entry(m, Frame(w), i) == 0
  }

  ghost predicate EmptySlot(m: Mem, root: nat, u: VPage, k: Level, t: nat) {
    TableAt(m, root, u, k) == Some(t) && Entry(m, t, Idx(u, k)) == 0
  }

  lemma LinkPaths(m: Mem, root: nat, used: set<nat>, u: VPage, k: Level, t: nat, w: Word, v: VPage, l: Level)
    requires WellFormed(m, root, used) && EmptySlot(m, root, u, k, t) && k > 0 && FreshPointer(m, used, w)
    ensures
      var m' := SetEntry(m, t, Idx(u, k), w);
      && Fillable(m, root, u, k, t, w)
      && TableAt(m', root, v, l) == (if Under(v, u, k) && l == k - 1 then Some(Frame(w)) else TableAt(m, root, v, l))
      && (Under(v, u, k) && l == k - 1 ==> TableAt(m, root, v, l) == None)
      && (EntryAt(m, root, v, l) != 0 || Slot(v, l) != Slot(u, l) ==>
            TableAt(m, root, v, l).Some? ==> EntryAt(m', root, v, l) == EntryAt(m, root, v, l))
  {
    assert Fillable(m, root, u, k, t, w);
    Fill(m, root, u, k, t, w, v, l);
  }

  lemma LinkWalks(m: Mem, root: nat, used: set<nat>, u: VPage, k: Level, t: nat, w: Word, v: VPage, p: Perm)
    requires WellFormed(m, root, used) && EmptySlot(m, root, u, k, t) && k > 0 && FreshPointer(m, used, w)
    ensures
      var m' := SetEntry(m, t, Idx(u, k), w);
      && Translate(m', root, v) == Translate(m, root, v)
      && Verdict(m', root, v, p) == Verdict(m, root, v, p)
  {
    LinkPaths(m, root, used, u, k, t, w, v, 3);
    if Under(v, u, k) {
      FillUnder(m, root, u, k, t, w, v, 3, root, p, ALL);
    } else {
      FillElsewhere(m, root, u, k, t, w, v);
      SamePathSameWalk(m, SetEntry(m, t, Idx(u, k), w), root, root, v, 3, ALL, p);
    }
  }

  /** The tables of m' are those of m and frame q at slot (u, k). */
  ghost predicate Linked(m: Mem, m': Mem, root: nat, u: VPage, k: Level, q: nat) {
    forall v: VPage, l: Level ::
      && TableAt(m', root, v, l) == (if Under(v, u, k) && l == k - 1 then Some(q) else TableAt(m, root, v, l))
      && (Under(v, u, k) && l == k - 1 ==> TableAt(m, root, v, l) == None)
      && (TableAt(m, root, v, l).Some? && (EntryAt(m, root, v, l) != 0 || Slot(v, l) != Slot(u, l)) ==>
            EntryAt(m', root, v, l) == EntryAt(m, root, v, l))
  }

  lemma LinkedFrom(m: Mem, root: nat, used: set<nat>, u: VPage, k: Level, t: nat, w: Word)
    requires WellFormed(m, root, used) && EmptySlot(m, root, u, k, t) && k > 0 && FreshPointer(m, used, w)
    ensures Linked(m, SetEntry(m, t, Idx(u, k), w), root, u, k, Frame(w))
  {
    var m' := SetEntry(m, t, Idx(u, k), w);
    forall v: VPage, l: Level
      ensures
        && TableAt(m', root, v, l) == (if Under(v, u, k) && l == k - 1 then Some(Frame(w)) else TableAt(m, root, v, l))
        && (Under(v, u, k) && l == k - 1 ==> TableAt(m, root, v, l) == None)
        && (TableAt(m, root, v, l).Some? && (EntryAt(m, root, v, l) != 0 || Slot(v, l) != Slot(u, l)) ==>
              EntryAt(m', root, v, l) == EntryAt(m, root, v, l))
    {
      LinkPaths(m, root, used, u, k, t, w, v, l);
    }
  }

  lemma LinkedKeeps(m: Mem, m': Mem, root: nat, used: set<nat>, u: VPage, k: Level, q: nat)
    requires WellFormed(m, root, used) && k > 0 && Linked(m, m', root, u, k, q)
    requires |m'| == |m| && q !in used && 512 * q + 512 <= |m|
    ensures WellFormed(m', root, used + {q}) && TableAt(m', root, u, k - 1) == Some(q)
  {
    forall v: VPage, l: Level
      ensures TableAt(m, root, v, l) != Some(q)
      ensures TableAt(m', root, v, l).Some? ==>
        TableAt(m', root, v, l).value in used + {q} && 512 * TableAt(m', root, v, l).value + 512 <= |m'|
    {
      assert TableAt(m', root, v, l) == if Under(v, u, k) && l == k - 1 then Some(q) else TableAt(m, root, v, l);
    }
    LinkKeepsTree(m, m', root, u, k, q);
  }

  /** Hanging a cleared frame of its own under an empty slot keeps the tree,
      every translation and every verdict. */
  lemma LinkTable(m: Mem, root: nat, used: set<nat>, u: VPage, k: Level, t: nat, w: Word)
    requires WellFormed(m, root, used) && EmptySlot(m, root, u, k, t) && k > 0 && FreshPointer(m, used, w)
    ensures
      var m' := SetEntry(m, t, Idx(u, k), w);
      && WellFormed(m', root, used + {Frame(w)})
      && Grown(m, m', root, u)
      && TableAt(m', root, u, k - 1) == Some(Frame(w))
      && OnlyEntry(m, m', root, u, k)
  {
    var m' := SetEntry(m, t, Idx(u, k), w);
    LinkOneEntry(m, root, used, u, k, t, w);
    LinkedFrom(m, root, used, u, k, t, w);
    LinkedKeeps(m, m', root, used, u, k, Frame(w));
    LinkAllWalks(m, root, used, u, k, t, w);
    LinkedGrown(m, m', root, u, k, Frame(w));
  }

  /** No walk at any level reads another entry in m' than in m, but for slot (u, k). */
  ghost predicate OnlyEntry(m: Mem, m': Mem, root: nat, u: VPage, k: Level) {
    forall v: VPage, l: Level :: !(l == k && Under(v, u, k)) ==> EntryAt(m', root, v, l) == EntryAt(m, root, v, l)
  }

  lemma LinkOneEntry(m: Mem, root: nat, used: set<nat>, u: VPage, k: Level, t: nat, w: Word)
    requires WellFormed(m, root, used) && EmptySlot(m, root, u, k, t) && k > 0 && FreshPointer(m, used, w)
    ensures OnlyEntry(m, SetEntry(m, t, Idx(u, k), w), root, u, k)
  {
    var m' := SetEntry(m, t, Idx(u, k), w);
    assert Fillable(m, root, u, k, t, w);
    hide IsTree, TablesIn, Fillable, Under, FreshPointer, SetEntry, Idx, Pointer, Frame;
    forall v: VPage, l: Level | !(l == k && Under(v, u, k))
      ensures EntryAt(m', root, v, l) == EntryAt(m, root, v, l)
    {
      Fill(m, root, u, k, t, w, v, l);
    }
  }

  lemma LinkAllWalks(m: Mem, root: nat, used: set<nat>, u: VPage, k: Level, t: nat, w: Word)
    requires WellFormed(m, root, used) && EmptySlot(m, root, u, k, t) && k > 0 && FreshPointer(m, used, w)
    ensures forall v: VPage :: Translate(SetEntry(m, t, Idx(u, k), w), root, v) == Translate(m, root, v)
    ensures forall v: VPage, p: Perm :: Verdict(SetEntry(m, t, Idx(u, k), w), root, v, p) == Verdict(m, root, v, p)
  {
    forall v: VPage {
      LinkWalks(m, root, used, u, k, t, w, v, Perm(true, true));
    }
    forall v: VPage, p: Perm {
      LinkWalks(m, root, used, u, k, t, w, v, p);
    }
  }

  lemma LinkedGrown(m: Mem, m': Mem, root: nat, u: VPage, k: Level, q: nat)
    requires Linked(m, m', root, u, k, q)
    requires forall v: VPage :: Translate(m', root, v) == Translate(m, root, v)
    requires forall v: VPage, p: Perm :: Verdict(m', root, v, p) == Verdict(m, root, v, p)
    ensures Grown(m, m', root, u)
  {
  }

  lemma FillElsewhere(m: Mem, root: nat, u: VPage, k: Level, t: nat, w: Word, v: VPage)
    requires Fillable(m, root, u, k, t, w) && !Under(v, u, k)
    ensures SamePath(m, SetEntry(m, t, Idx(u, k), w), root, v, 3)
  {
    forall l: Level {
      Fill(m, root, u, k, t, w, v, l);
    }
  }

  lemma LinkKeepsTree(m: Mem, m': Mem, root: nat, u: VPage, k: Level, q: nat)
    requires IsTree(m, root) && k > 0
    requires forall v: VPage, l: Level :: TableAt(m, root, v, l) != Some(q)
    requires forall v: VPage, l: Level ::
      TableAt(m', root, v, l) == if Under(v, u, k) && l == k - 1 then Some(q) else TableAt(m, root, v, l)
    ensures IsTree(m', root)
  {
    forall v: VPage, l: Level, v': VPage, l': Level
      | Meet(m', root, v, l, v', l')
      ensures l == l' && Slot(v, l + 1) == Slot(v', l' + 1)
    {
      if TableAt(m', root, v, l) != Some(q) {
        assert Meet(m, root, v, l, v', l');
      }
    }
  }

  lemma LeafWalks(m: Mem, root: nat, used: set<nat>, u: VPage, k: Level, t: nat, w: Word, p: Perm, v: VPage, q: Perm)
    requires WellFormed(m, root, used) && EmptySlot(m, root, u, k, t)
    requires Present(w) && (k == 0 || Bit7(w)) && Writable(w) == p.write && User(w) == p.user && !ExecuteDisable(w)
    requires Verdict(m, root, u, p) == 0
    ensures
      var m' := SetEntry(m, t, Idx(u, k), w);
      && (Translate(m', root, v) ==
            if Under(v, u, k) then Leaf(w, v, k, Rights(p.write, p.user, false)) else Translate(m, root, v))
      && (!Under(v, u, k) ==> Verdict(m', root, v, q) == Verdict(m, root, v, q))
  {
    assert Fillable(m, root, u, k, t, w);
    if Under(v, u, k) {
      OneVerdict(m, root, u, k, v, 3, root, p);
      FillLeaf(m, root, u, k, t, w, v, 3, root, p, ALL);
    } else {
      FillElsewhere(m, root, u, k, t, w, v);
      SamePathSameWalk(m, SetEntry(m, t, Idx(u, k), w), root, root, v, 3, ALL, q);
    }
  }

  lemma LeafPaths(m: Mem, root: nat, used: set<nat>, u: VPage, k: Level, t: nat, w: Word)
    requires WellFormed(m, root, used) && EmptySlot(m, root, u, k, t)
    requires k == 0 || Bit7(w)
    ensures
      var m' := SetEntry(m, t, Idx(u, k), w);
      && WellFormed(m', root, used)
      && forall v: VPage, l: Level ::
           && TableAt(m', root, v, l) == TableAt(m, root, v, l)
           && (!Under(v, u, k) ==> EntryAt(m', root, v, l) == EntryAt(m, root, v, l))
  {
    var m' := SetEntry(m, t, Idx(u, k), w);
    assert Fillable(m, root, u, k, t, w);
    forall v: VPage, l: Level
      ensures
        && TableAt(m', root, v, l) == TableAt(m, root, v, l)
        && (!Under(v, u, k) ==> EntryAt(m', root, v, l) == EntryAt(m, root, v, l))
    {
      Fill(m, root, u, k, t, w, v, l);
    }
    SameTree(m, m', root);
  }

  /** The tables of m' are those of m, and only entries of slot (u, k) differ. */
  ghost predicate Written(m: Mem, m': Mem, root: nat, u: VPage, k: Level) {
    forall v: VPage, l: Level ::
      && TableAt(m', root, v, l) == TableAt(m, root, v, l)
      && (!Under(v, u, k) ==> EntryAt(m', root, v, l) == EntryAt(m, root, v, l))
  }

  /** A leaf written into an empty slot of a mappable page changes the translation of
      the pages under that slot and of no other page. */
  lemma WriteLeaf(m: Mem, root: nat, used: set<nat>, u: VPage, k: Level, t: nat, w: Word, p: Perm)
    requires WellFormed(m, root, used) && EmptySlot(m, root, u, k, t)
    requires Present(w) && (k == 0 || Bit7(w)) && Writable(w) == p.write && User(w) == p.user && !ExecuteDisable(w)
    requires Verdict(m, root, u, p) == 0
    ensures
      var m' := SetEntry(m, t, Idx(u, k), w);
      && WellFormed(m', root, used) && Written(m, m', root, u, k)
      && (forall v: VPage :: Translate(m', root, v) ==
            if Under(v, u, k) then Leaf(w, v, k, Rights(p.write, p.user, false)) else Translate(m, root, v))
      && (forall v: VPage, q: Perm :: !Under(v, u, k) ==> Verdict(m', root, v, q) == Verdict(m, root, v, q))
  {
    hide WellFormed, Verdict, Translate, TableAt, EntryAt, Slot, Idx, Leaf;
    LeafPaths(m, root, used, u, k, t, w);
    forall v: VPage {
      LeafWalks(m, root, used, u, k, t, w, p, v, p);
    }
    forall v: VPage, q: Perm {
      LeafWalks(m, root, used, u, k, t, w, p, v, q);
    }
  }
}
