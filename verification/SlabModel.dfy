/** Slab frames: the geometry of the objects in a 32 KiB block, and the free list
    threaded through the free objects. */
module SlabModel {
  import opened Bits
  import opened PageTables
  import opened Lists
  import opened BuddyModel
  import opened Sequences

  const SLAB_FRAME_ORDER: Order := 3
  const FRAME_PAGES := 8
  const FRAME_WORDS := 4096
  const HEADER_BYTES := 48 // sizeof(struct slab_frame)

  /** SLAB_POISON in both halves of a word. */
  const POISON: Word := 0xCAFE_BABE_CAFE_BABE

  /** The seven size classes. */
  const CLASSES := 7

  type Class = c: int | 0 <= c < CLASSES

  /** obj_size in bytes. */
  function ObjSize(c: Class): (n: nat)
    ensures 32 <= n <= 2048 && n % 8 == 0
  {
    match c
    case 0 => 32
    case 1 => 64
    case 2 => 128
    case 3 => 256
    case 4 => 512
    case 5 => 1024
    case 6 => 2048
  }

  function ObjWords(c: Class): (n: nat)
    ensures 4 <= n <= 256
  {
    ObjSize(c) / 8
  }

  /** i objects, in words. */
  function Times(i: nat, c: Class): nat {
    match c
    case 0 => 4 * i
    case 1 => 8 * i
    case 2 => 16 * i
    case 3 => 32 * i
    case 4 => 64 * i
    case 5 => 128 * i
    case 6 => 256 * i
  }

  /** obj_count: how many objects fit behind the header. */
  function ObjCount(c: Class): (n: nat) {
    (FRAME_PAGES * 4096 - HEADER_BYTES) / ObjSize(c)
  }

  /** ALIGN_UP(x, a) for a power of two a. */
  function AlignUp(x: nat, a: nat): nat
    requires a > 0
  {
    (x + a - 1) / a * a
  }

  /** Word of the first object of a frame whose block starts at page pn. */
  function FirstObj(pn: nat, c: Class): nat {
    512 * pn + (if c == 0 then 8 else ObjWords(c))
  }

  function ObjAddr(pn: nat, c: Class, i: nat): nat {
    FirstObj(pn, c) + Times(i, c)
  }

  lemma AlignUpFrom(b: nat, x: nat, a: nat)
    requires a > 0 && b % a == 0
    ensures AlignUp(b + x, a) == b + AlignUp(x, a)
  {
    var q, y := b / a, x + a - 1;
    assert b == a * q && y == a * (y / a) + y % a;
    assert b + y == a * (q + y / a) + y % a;
    DivUnique(b + y, a, q + y / a, y % a);
  }

  lemma BaseAligned(pn: nat, c: Class)
    requires pn % FRAME_PAGES == 0
    ensures (VASL_VIRTUAL_BASE + 4096 * pn) % ObjSize(c) == 0
  {
    var base := VASL_VIRTUAL_BASE + 4096 * pn;
    assert base == 32768 * (base / 32768);
    var s, t := ObjSize(c), 32768 / ObjSize(c);
    assert s * t == 32768;
    assert base == s * (t * (base / 32768));
    DivUnique(base, s, t * (base / 32768), 0);
  }

  /** start_addr, obj_count and end_addr as slab_alloc_new_frame computes them: the
      objects start behind the header and fill the block to its last byte. */
  lemma Geometry(pn: nat, c: Class)
    requires pn % FRAME_PAGES == 0 && 512 * pn + FRAME_WORDS < DIRECT_WORDS
    ensures AlignUp(ToPtr(512 * pn) + HEADER_BYTES, ObjSize(c)) == VASL_VIRTUAL_BASE + 8 * FirstObj(pn,
      c) == ObjPtr(pn, c, 0)
    ensures 8 * FirstObj(pn, c) >= 4096 * pn + HEADER_BYTES
    ensures ObjAddr(pn, c, ObjCount(c)) == 512 * pn + FRAME_WORDS
    ensures ObjPtr(pn, c, 0) + ObjCount(c) * ObjSize(c) == ToPtr(512 * pn + FRAME_WORDS)
    ensures ObjCount(c) > 1
  {
    BaseAligned(pn, c);
    AlignUpFrom(VASL_VIRTUAL_BASE + 4096 * pn, HEADER_BYTES, ObjSize(c));
    HeaderUp(c);
    LastObj(pn, c);
    hide AlignUp, ObjCount, ObjSize, Times, ObjWords;
  }

  /** The header rounded up to the object size. */
  lemma HeaderUp(c: Class)
    ensures AlignUp(HEADER_BYTES, ObjSize(c)) == (if c == 0 then 64 else 8 * ObjWords(c)) >= HEADER_BYTES
  {
  }

  /** The objects fill the rest of the block. */
  lemma LastObj(pn: nat, c: Class)
    ensures ObjAddr(pn, c, ObjCount(c)) == 512 * pn + FRAME_WORDS && ObjCount(c) > 1
    ensures 8 * FirstObj(pn, c) + ObjCount(c) * ObjSize(c) == 8 * (512 * pn + FRAME_WORDS)
    ensures ObjAddr(pn, c, 0) == FirstObj(pn, c) < 512 * pn + FRAME_WORDS
  {
  }

  lemma ObjInFrame(pn: nat, c: Class, i: nat)
    requires i < ObjCount(c)
    ensures 512 * pn + 6 <= ObjAddr(pn, c, i) && ObjAddr(pn, c, i) + ObjWords(c) <= 512 * pn + FRAME_WORDS
  {
  }

  /** Two objects of a frame share no word. */
  lemma ObjsApart(pn: nat, c: Class, i: nat, j: nat)
    requires i != j
    ensures ObjAddr(pn, c, i) + ObjWords(c) <= ObjAddr(pn, c, j) || ObjAddr(pn, c, j) + ObjWords(c) <= ObjAddr(pn, c, i)
    ensures ObjAddr(pn, c, i + 1) == ObjAddr(pn, c, i) + ObjWords(c)
  {
  }

  // ------------------------------------------------------------------ frames

  const HEADER_WORDS := 6

  /** The fields of struct slab_frame, which heads the block at page pn. */
  datatype FrameRec = FrameRec(pn: nat, next: Word, start: Word, end: Word, objCount: int, freeList: Word,
                               freeCount: int)

  /** A frame as a block and the free objects in list order. */
  datatype SlabFrame = SlabFrame(pn: nat, free: seq<nat>)

  /** A pointer to object i, or NULL past the end. */
  function ObjPtr(pn: nat, c: Class, i: nat): Word {
    var a := ObjAddr(pn, c, i);
    if a < DIRECT_WORDS then ToPtr(a) else 0
  }

  /** The pointer to the k-th free object. */
  function FreePtr(f: SlabFrame, c: Class, k: nat): Word {
    if k < |f.free| then ObjPtr(f.pn, c, f.free[k]) else 0
  }

  ghost predicate FreeIndices(f: SlabFrame, c: Class) {
    NoDup(f.free) && forall k :: 0 <= k < |f.free| ==> f.free[k] < ObjCount(c)
  }

  /** The k-th free object links to the next one and is poisoned elsewhere. */
  ghost predicate FreeObject(m: Mem, f: SlabFrame, c: Class, k: nat)
    requires k < |f.free|
  {
    var a := ObjAddr(f.pn, c, f.free[k]);
    Poisoned(m, a, ObjWords(c)) && m[a] == FreePtr(f, c, k + 1)
  }

  /** All words of an object but the first are poison. */
  ghost predicate Poisoned(m: Mem, a: nat, n: nat) {
    0 < n && a + n <= |m| && forall x :: a < x < a + n ==> m[x] == POISON
  }

  /** The header words of the block at r.pn hold the fields r, one word each. */
  ghost predicate HeaderIn(m: Mem, r: FrameRec)
    requires 512 * r.pn + FRAME_WORDS <= |m|
  {
    var a := 512 * r.pn;
    && m[a] == r.next && m[a + 1] == r.start && m[a + 2] == r.end && m[a + 3] == r.objCount
    && m[a + 4] == r.freeList && m[a + 5] == r.freeCount
  }

  /** Memory m holds frame f of class c, with header r. */
  ghost predicate FrameIn(m: Mem, c: Class, r: FrameRec, f: SlabFrame) {
    && f.pn % FRAME_PAGES == 0 && 512 * f.pn + FRAME_WORDS <= |m| && 512 * f.pn + FRAME_WORDS < DIRECT_WORDS
    && r.pn == f.pn && r.start == ObjPtr(f.pn, c, 0) && r.end == r.start + ObjCount(c) * ObjSize(c)
    && r.objCount == ObjCount(c) && r.freeCount == |f.free| && r.freeList == FreePtr(f, c, 0)
    && HeaderIn(m, r) && FreeIndices(f, c)
    && forall k :: 0 <= k < |f.free| ==> FreeObject(m, f, c, k)
  }

  /** A frame reads only the words of its block. */
  lemma FrameFrame(m: Mem, m': Mem, c: Class, r: FrameRec, f: SlabFrame)
    requires FrameIn(m, c, r, f) && |m'| == |m|
    requires forall a :: 512 * f.pn <= a < 512 * f.pn + FRAME_WORDS ==> m'[a] == m[a]
    ensures FrameIn(m', c, r, f)
  {
    hide ObjAddr, ObjWords, ObjCount, ObjPtr, FreePtr, ObjSize;
    forall k | 0 <= k < |f.free|
      ensures FreeObject(m', f, c, k)
    {
      assert FreeObject(m, f, c, k);
      ObjInFrame(f.pn, c, f.free[k]);
    }
  }

  /** Writes inside an object that is not free leave its frame as it was. */
  lemma LiveWrite(m: Mem, m': Mem, c: Class, r: FrameRec, f: SlabFrame, i: nat)
    requires FrameIn(m, c, r, f) && |m'| == |m| && i < ObjCount(c) && i !in f.free
    requires forall a :: 0 <= a < |m| && !(ObjAddr(f.pn, c, i) <= a < ObjAddr(f.pn, c, i) + ObjWords(c)) ==>
      m'[a] == m[a]
    ensures FrameIn(m', c, r, f)
  {
    hide ObjAddr, ObjWords, ObjCount, ObjPtr, FreePtr, ObjSize;
    ObjInFrame(f.pn, c, i);
    forall k | 0 <= k < |f.free|
      ensures FreeObject(m', f, c, k)
    {
      assert FreeObject(m, f, c, k);
      ObjsApart(f.pn, c, f.free[k], i);
    }
  }

  /** m' differs from m at most in the header of the block at pn. */
  ghost predicate OnlyHeader(m: Mem, m': Mem, pn: nat) {
    |m'| == |m| && forall a :: 0 <= a < |m| && !(512 * pn <= a < 512 * pn + HEADER_WORDS) ==> m'[a] == m[a]
  }

  /** Writes to the header leave the free objects as they were. */
  lemma HeaderWrite(m: Mem, m': Mem, c: Class, r: FrameRec, f: SlabFrame, k: nat)
    requires FrameIn(m, c, r, f) && OnlyHeader(m, m', f.pn) && k < |f.free|
    ensures FreeObject(m', f, c, k)
  {
    hide ObjAddr, ObjWords, ObjCount, ObjPtr, FreePtr, ObjSize;
    assert FreeObject(m, f, c, k);
    ObjInFrame(f.pn, c, f.free[k]);
  }

  /** The chain pointer is rewritten. */
  lemma Relink(m: Mem, c: Class, r: FrameRec, f: SlabFrame, next: Word)
    requires FrameIn(m, c, r, f)
    ensures FrameIn(m[512 * f.pn := next], c, r.(next := next), f) && OnlyHeader(m, m[512 * f.pn := next], f.pn)
  {
    hide ObjAddr, ObjWords, ObjCount, ObjPtr, FreePtr, ObjSize, FreeObject;
    var m' := m[512 * f.pn := next];
    forall k | 0 <= k < |f.free|
      ensures FreeObject(m', f, c, k)
    {
      HeaderWrite(m, m', c, r, f, k);
    }
  }

  /** free_list and free_count are rewritten. */
  function SetFree(m: Mem, pn: nat, freeList: Word, freeCount: Word): (m': Mem)
    requires 512 * pn + FRAME_WORDS <= |m|
    ensures OnlyHeader(m, m', pn)
  {
    m[512 * pn + 4 := freeList][512 * pn + 5 := freeCount]
  }

  /** slab_alloc_obj: the first free object leaves the list. */
  lemma PopObject(m: Mem, c: Class, r: FrameRec, f: SlabFrame)
    requires FrameIn(m, c, r, f) && |f.free| > 0
    ensures var a := ObjAddr(f.pn, c, f.free[0]);
      && Poisoned(m, a, ObjWords(c)) && a < DIRECT_WORDS && r.freeList == ObjPtr(f.pn, c, f.free[0]) == ToPtr(a)
      && 0 < r.freeCount < W64
      && FrameIn(SetFree(m, f.pn, m[a], r.freeCount - 1), c, r.(freeList := m[a], freeCount := r.freeCount - 1),
                 f.(free := f.free[1..]))
  {
    hide ObjAddr, ObjWords, ObjCount, ObjPtr, ObjSize;
    var g, a := f.(free := f.free[1..]), ObjAddr(f.pn, c, f.free[0]);
    assert FreeObject(m, f, c, 0);
    ObjInFrame(f.pn, c, f.free[0]);
    ObjPtrIs(f.pn, c, f.free[0]);
    var m' := SetFree(m, f.pn, m[a], r.freeCount - 1);
    forall k | 0 <= k < |g.free|
      ensures FreeObject(m', g, c, k)
    {
      HeaderWrite(m, m', c, r, f, k + 1);
    }
  }

  lemma ObjPtrIs(pn: nat, c: Class, i: nat)
    requires i < ObjCount(c) && 512 * pn + FRAME_WORDS <= DIRECT_WORDS
    ensures ObjAddr(pn, c, i) < DIRECT_WORDS && ObjPtr(pn, c, i) == ToPtr(ObjAddr(pn, c, i)) != 0
    ensures FromPtr(ObjPtr(pn, c, i)) == ObjAddr(pn, c, i)
  {
  }

  /** slab_free_obj: object i, poisoned and linked, heads the list. */
  lemma PushObject(m: Mem, c: Class, r: FrameRec, f: SlabFrame, i: nat)
    requires FrameIn(m, c, r, f) && i < ObjCount(c) && i !in f.free
    requires var a := ObjAddr(f.pn, c, i); Poisoned(m, a, ObjWords(c)) && m[a] == r.freeList
    ensures r.freeCount + 1 < W64
    ensures FrameIn(SetFree(m, f.pn, ObjPtr(f.pn, c, i), r.freeCount + 1), c,
                    r.(freeList := ObjPtr(f.pn, c, i), freeCount := r.freeCount + 1), f.(free := [i] + f.free))
  {
    hide ObjAddr, ObjWords, ObjPtr, ObjSize, ObjCount, Poisoned;
    var g := f.(free := [i] + f.free);
    FewerFree(f, c, i);
    var m' := SetFree(m, f.pn, ObjPtr(f.pn, c, i), r.freeCount + 1);
    PushedFirst(m, m', c, r, f, i);
    forall k | 0 <= k < |g.free|
      ensures FreeObject(m', g, c, k)
    {
      if k > 0 {
        HeaderWrite(m, m', c, r, f, k - 1);
      }
    }
  }

  lemma PushedFirst(m: Mem, m': Mem, c: Class, r: FrameRec, f: SlabFrame, i: nat)
    requires FrameIn(m, c, r, f) && OnlyHeader(m, m', f.pn) && i < ObjCount(c)
    requires var a := ObjAddr(f.pn, c, i); Poisoned(m, a, ObjWords(c)) && m[a] == r.freeList
    ensures FreeObject(m', f.(free := [i] + f.free), c, 0)
  {
    hide ObjAddr, ObjWords, ObjPtr, ObjSize, ObjCount;
    ObjInFrame(f.pn, c, i);
  }

  lemma FewerFree(f: SlabFrame, c: Class, i: nat)
    requires FreeIndices(f, c) && i < ObjCount(c) && i !in f.free
    ensures |f.free| + 1 <= ObjCount(c) < W64
  {
    CountLive(f.free, ObjCount(c));
    assert i in Missing(f.free, ObjCount(c));
    Few(c);
  }

  lemma Few(c: Class)
    ensures ObjCount(c) < W64
  {
  }

  /** 0, 1, .., n - 1 */
  function UpTo(n: nat): (s: seq<nat>)
    ensures |s| == n && forall k :: 0 <= k < n ==> s[k] == k
  {
    seq(n, i => i)
  }

  /** The header slab_alloc_new_frame writes: the frame ends its chain, and all its objects are free. */
  function NewRec(pn: nat, c: Class): FrameRec
    requires 512 * pn + FRAME_WORDS < DIRECT_WORDS && pn % FRAME_PAGES == 0
  {
    Geometry(pn, c);
    FrameRec(pn, 0, ObjPtr(pn, c, 0), ObjPtr(pn, c, 0) + ObjCount(c) * ObjSize(c), ObjCount(c), ObjPtr(pn, c, 0),
             ObjCount(c))
  }

  /** slab_alloc_new_frame: a block whose objects are all poisoned and linked in address order. */
  lemma NewFrame(m: Mem, c: Class, pn: nat)
    requires pn % FRAME_PAGES == 0 && 512 * pn + FRAME_WORDS <= |m| && 512 * pn + FRAME_WORDS < DIRECT_WORDS
    requires forall i :: 0 <= i < ObjCount(c) ==>
      && Poisoned(m, ObjAddr(pn, c, i), ObjWords(c))
      && m[ObjAddr(pn, c, i)] == (if i + 1 < ObjCount(c) then ObjPtr(pn, c, i + 1) else 0)
    requires HeaderIn(m, NewRec(pn, c))
    ensures FrameIn(m, c, NewRec(pn, c), SlabFrame(pn, UpTo(ObjCount(c))))
  {
    hide ObjAddr, ObjWords, ObjCount, ObjPtr, ObjSize, Poisoned;
    Geometry(pn, c);
    ObjPtrIs(pn, c, 0);
    var f := SlabFrame(pn, UpTo(ObjCount(c)));
    forall k | 0 <= k < |f.free|
      ensures FreeObject(m, f, c, k)
    {
    }
  }

  // ----------------------------------------------------------------- counting

  function Below(n: nat): (r: set<nat>)
    ensures |r| == n && forall x: nat :: x in r <==> x < n
  {
    if n == 0 then {} else Below(n - 1) + {n - 1}
  }

  function Elements(s: seq<nat>): (r: set<nat>)
    ensures forall x: nat :: x in r <==> x in s
  {
    if s == [] then {} else {s[0]} + Elements(s[1..])
  }

  lemma {:induction false} Distinct(s: seq<nat>)
    requires NoDup(s)
    ensures |Elements(s)| == |s|
  {
    if s != [] {
      var t := s[1..];
      assert forall i :: 0 <= i < |t| ==> t[i] == s[i + 1];
      Distinct(t);
      assert s[0] !in t;
    }
  }

  /** The numbers below n that s leaves out. */
  function Missing(s: seq<nat>, n: nat): (r: set<nat>)
    ensures forall x: nat :: x in r <==> x < n && x !in s
  {
    Below(n) - Elements(s)
  }

  /** The objects that are not free, counted. */
  lemma CountLive(s: seq<nat>, n: nat)
    requires NoDup(s) && forall k :: 0 <= k < |s| ==> s[k] < n
    ensures |Missing(s, n)| == n - |s|
    ensures |s| == n ==> Missing(s, n) == {}
    ensures |s| == n - 1 ==> forall x: nat, y: nat :: x in Missing(s, n) && y in Missing(s, n) ==> x == y
  {
    Distinct(s);
    SetMinus(Below(n), Elements(s));
    AtMostOne(Missing(s, n));
  }

  lemma SetMinus(all: set<nat>, used: set<nat>)
    requires used <= all
    ensures |all - used| == |all| - |used|
  {
  }

  lemma AtMostOne(s: set<nat>)
    ensures |s| == 0 ==> forall x: nat :: x !in s
    ensures |s| == 1 ==> forall x: nat, y: nat :: x in s && y in s ==> x == y
  {
    forall x: nat, y: nat | |s| == 1 && x in s && y in s
      ensures x == y
    {
      SetMinus(s, {x});
      assert y !in s - {x};
    }
  }
}
