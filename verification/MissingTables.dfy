/** Which tables a range needs that are not there yet, told from the tables before vm_map is
    called, and how many. */
module MissingTables {
  import opened Option
  import opened PageTables

  /** The place of a table in the tree: it serves slot `slot` of the level above its own. */
  datatype Place = Place(level: int, slot: nat)

  function PlaceOf(v: VPage, l: Level): Place {
    Place(l, Slot(v, l + 1))
  }

  /** A leaf of level l can map page v to frame f when `rest` pages are left. */
  ghost predicate FitsLeaf(m: Mem, root: nat, v: VPage, f: nat, rest: nat, l: Level) {
    1 <= l <= 2 && Offset(v, l) == 0 && Offset(f, l) == 0 && rest >= Pages(l) && EntryAt(m, root, v, l) == 0
  }

  /** The level of the leaf that vm_map chooses at page v. */
  ghost function LeafLevel(m: Mem, root: nat, v: VPage, f: nat, rest: nat): Level {
    if FitsLeaf(m, root, v, f, rest, 2) then 2 else if FitsLeaf(m, root, v, f, rest, 1) then 1 else 0
  }

  /** The places on the walk of page v, down to level l, that have no table. */
  ghost function MissingAt(m: Mem, root: nat, v: VPage, l: Level): set<Place> {
    set k: Level | l <= k <= 3 && TableAt(m, root, v, k).None? :: PlaceOf(v, k)
  }

  /** The places that have no table and need one to map n pages from v on to the frames
      from f on: those above each leaf. */
  ghost function Missing(m: Mem, root: nat, v: nat, f: nat, n: nat): set<Place>
    requires v + n <= VPAGES
    decreases n
  {
    if n == 0 then {}
    else
      var l := LeafLevel(m, root, v, f, n);
      MissingAt(m, root, v, l) + Missing(m, root, v + Pages(l), f + Pages(l), n - Pages(l))
  }

  // ---------------------------------------------------------------- new tables

  ghost predicate IsNew(m0: Mem, m: Mem, root: nat, v: VPage, l: Level) {
    TableAt(m0, root, v, l).None? && TableAt(m, root, v, l).Some?
  }

  ghost predicate IsPlace(p: Place) {
    exists v: VPage, l: Level :: p == PlaceOf(v, l)
  }

  /** Frame q is a table of m at a place that had none in m0. */
  ghost predicate Houses(m0: Mem, m: Mem, root: nat, q: nat) {
    exists v: VPage, l: Level :: IsNew(m0, m, root, v, l) && TableAt(m, root, v, l) == Some(q)
  }

  predicate Among(o: Option<nat>, frames: set<nat>) {
    o.Some? && o.value in frames
  }

  /** m has the tables of m0 and new ones at exactly the places `want`, in exactly the
      frames `taken`, one each. */
  ghost predicate Supplied(m0: Mem, m: Mem, root: nat, want: set<Place>, taken: set<nat>) {
    && |want| == |taken|
    && (forall v: VPage, l: Level :: TableAt(m0, root, v, l).Some? ==>
          TableAt(m, root, v, l) == TableAt(m0, root, v, l))
    && (forall v: VPage, l: Level :: IsNew(m0, m, root, v, l) <==> PlaceOf(v, l) in want)
    && (forall p :: p in want ==> IsPlace(p))
    && (forall v: VPage, l: Level :: IsNew(m0, m, root, v, l) ==> Among(TableAt(m, root, v, l), taken))
    && (forall q :: q in taken ==> Houses(m0, m, root, q))
  }

  lemma SuppliedNothing(m: Mem, m': Mem, root: nat)
    requires SameTables(m, m', root)
    ensures Supplied(m, m', root, {}, {})
  {
    hide TableAt, EntryAt, PlaceOf;
  }

  lemma SuppliedMore(m0: Mem, m: Mem, m': Mem, root: nat, want: set<Place>, taken: set<nat>,
                     want': set<Place>, taken': set<nat>)
    requires Supplied(m0, m, root, want, taken) && Supplied(m, m', root, want', taken') && taken !! taken'
    ensures Supplied(m0, m', root, want + want', taken + taken')
  {
    hide TableAt, PlaceOf, IsNew, Houses, IsPlace;
    PlacesApart(m0, m, m', root, want, taken, want', taken');
    UnionSize(want, want');
    UnionSize(taken, taken');
    forall v: VPage, l: Level
      ensures IsNew(m0, m', root, v, l) <==> PlaceOf(v, l) in want + want'
      ensures TableAt(m0, root, v, l).Some? ==> TableAt(m', root, v, l) == TableAt(m0, root, v, l)
      ensures IsNew(m0, m', root, v, l) ==> Among(TableAt(m', root, v, l), taken + taken')
    {
      NewEither(m0, m, m', root, want, taken, want', taken', v, l);
    }
    forall q | q in taken + taken'
      ensures Houses(m0, m', root, q)
    {
      HousesStill(m0, m, m', root, want, taken, want', taken', q);
    }
  }

  lemma NewEither(m0: Mem, m: Mem, m': Mem, root: nat, want: set<Place>, taken: set<nat>,
                  want': set<Place>, taken': set<nat>, v: VPage, l: Level)
    requires Supplied(m0, m, root, want, taken) && Supplied(m, m', root, want', taken')
    ensures IsNew(m0, m', root, v, l) <==> IsNew(m0, m, root, v, l) || IsNew(m, m', root, v, l)
    ensures TableAt(m, root, v, l).Some? ==> TableAt(m', root, v, l) == TableAt(m, root, v, l)
    ensures TableAt(m0, root, v, l).Some? ==> TableAt(m', root, v, l) == TableAt(m0, root, v, l)
    ensures IsNew(m0, m', root, v, l) ==> Among(TableAt(m', root, v, l), taken + taken')
  {
    hide TableAt, PlaceOf, IsPlace, Houses;
  }

  lemma PlacesApart(m0: Mem, m: Mem, m': Mem, root: nat, want: set<Place>, taken: set<nat>,
                    want': set<Place>, taken': set<nat>)
    requires Supplied(m0, m, root, want, taken) && Supplied(m, m', root, want', taken')
    ensures want !! want'
  {
    hide TableAt, PlaceOf, Houses;
    forall p | p in want
      ensures p !in want'
    {
      assert IsPlace(p);
      var v: VPage, l: Level :| p == PlaceOf(v, l);
      assert IsNew(m0, m, root, v, l);
    }
  }

  lemma HousesStill(m0: Mem, m: Mem, m': Mem, root: nat, want: set<Place>, taken: set<nat>,
                    want': set<Place>, taken': set<nat>, q: nat)
    requires Supplied(m0, m, root, want, taken) && Supplied(m, m', root, want', taken') && q in taken + taken'
    ensures Houses(m0, m', root, q)
  {
    hide TableAt, PlaceOf, IsPlace;
    if q in taken {
      assert Houses(m0, m, root, q);
      var v: VPage, l: Level :| IsNew(m0, m, root, v, l) && TableAt(m, root, v, l) == Some(q);
      assert IsNew(m0, m', root, v, l);
    } else {
      assert Houses(m, m', root, q);
      var v: VPage, l: Level :| IsNew(m, m', root, v, l) && TableAt(m', root, v, l) == Some(q);
      assert IsNew(m0, m', root, v, l);
    }
  }

  lemma UnionSize<T>(a: set<T>, b: set<T>)
    requires a !! b
    ensures |a + b| == |a| + |b|
  {
    assert (a + b) - b == a;
  }

  // --------------------------------------------------------------- one table more

  /** Where a walk goes is told by the entry above. */
  lemma TableFromEntry(m: Mem, root: nat, v: VPage, l: Level)
    requires l < 3
    ensures TableAt(m, root, v, l) ==
      if Pointer(EntryAt(m, root, v, l + 1)) then Some(Frame(EntryAt(m, root, v, l + 1))) else None
  {
  }

  lemma SuppliedOne(m: Mem, m': Mem, root: nat, u: VPage, k: Level, q: nat)
    requires 0 < k && OnlyEntry(m, m', root, u, k) && EntryAt(m, root, u, k) == 0
    requires TableAt(m', root, u, k - 1) == Some(q)
    ensures TableAt(m, root, u, k - 1) == None && Supplied(m, m', root, {PlaceOf(u, k - 1)}, {q})
  {
    TableFromEntry(m, root, u, k - 1);
    hide TableAt, EntryAt, Pointer, Frame, PlaceOf, OnlyEntry;
    forall v: VPage, l: Level
      ensures if PlaceOf(v, l) == PlaceOf(u, k - 1)
              then TableAt(m, root, v, l) == None && TableAt(m', root, v, l) == Some(q)
              else TableAt(m', root, v, l) == TableAt(m, root, v, l)
    {
      OneTable(m, m', root, u, k, q, v, l);
    }
    assert IsNew(m, m', root, u, k - 1);
  }

  /** The table at a place after one entry has changed. */
  lemma OneTable(m: Mem, m': Mem, root: nat, u: VPage, k: Level, q: nat, v: VPage, l: Level)
    requires 0 < k && OnlyEntry(m, m', root, u, k) && EntryAt(m, root, u, k) == 0
    requires TableAt(m, root, u, k - 1) == None && TableAt(m', root, u, k - 1) == Some(q)
    ensures if PlaceOf(v, l) == PlaceOf(u, k - 1)
            then TableAt(m, root, v, l) == None && TableAt(m', root, v, l) == Some(q)
            else TableAt(m', root, v, l) == TableAt(m, root, v, l)
  {
    hide TableAt, EntryAt, Pointer, Frame, Slot;
    if PlaceOf(v, l) == PlaceOf(u, k - 1) {
      SameTable(m, root, u, v, l);
      SameTable(m', root, u, v, l);
    } else if l < 3 {
      TableFromEntry(m, root, v, l);
      TableFromEntry(m', root, v, l);
    } else {
      RootTables(m, m', root, v);
    }
  }

  lemma RootTables(m: Mem, m': Mem, root: nat, v: VPage)
    ensures TableAt(m', root, v, 3) == TableAt(m, root, v, 3) == Some(root)
  {
  }

  // ------------------------------------------------------------ the walk of a page

  ghost predicate Touched(m: Mem, m': Mem, root: nat, u: VPage) {
    forall v: VPage, l: Level :: Slot(v, l) != Slot(u, l) ==> EntryAt(m', root, v, l) == EntryAt(m, root, v, l)
  }

  /** A round of pass 1 at page u that has come down to level l: the missing tables above are
      there now, and the entries from level l down are as they were. */
  ghost predicate Descended(m0: Mem, m: Mem, root: nat, u: VPage, l: Level, taken: set<nat>) {
    && Supplied(m0, m, root, MissingAt(m0, root, u, l), taken) && Touched(m0, m, root, u)
    && forall k: Level :: k <= l ==> EntryAt(m, root, u, k) == EntryAt(m0, root, u, k)
  }

  lemma DescentStarts(m: Mem, root: nat, u: VPage)
    ensures Descended(m, m, root, u, 3, {})
  {
    SuppliedNothing(m, m, root);
    assert MissingAt(m, root, u, 3) == {};
  }

  lemma DescentSame(m0: Mem, m: Mem, m': Mem, root: nat, u: VPage, l: Level, taken: set<nat>)
    requires Descended(m0, m, root, u, l, taken) && SameTables(m, m', root)
    ensures Descended(m0, m', root, u, l, taken)
  {
    hide TableAt, EntryAt, MissingAt, Supplied, Slot;
    SuppliedNothing(m, m', root);
    SuppliedMore(m0, m, m', root, MissingAt(m0, root, u, l), taken, {}, {});
    assert MissingAt(m0, root, u, l) + {} == MissingAt(m0, root, u, l) && taken + {} == taken;
  }

  /** The entry leads to a table that was there before. */
  lemma DescentFollows(m0: Mem, m: Mem, root: nat, u: VPage, l: Level, taken: set<nat>)
    requires Descended(m0, m, root, u, l, taken) && l > 0 && TableAt(m, root, u, l - 1).Some?
    ensures Descended(m0, m, root, u, l - 1, taken)
  {
    hide TableAt, EntryAt, Supplied, Touched, Slot, MissingAt;
    SameTableBelow(m0, m, root, u, l - 1);
    MissingNoMore(m0, root, u, l);
  }

  lemma SameTableBelow(m0: Mem, m: Mem, root: nat, u: VPage, l: Level)
    requires l < 3 && EntryAt(m, root, u, l + 1) == EntryAt(m0, root, u, l + 1)
    ensures TableAt(m, root, u, l) == TableAt(m0, root, u, l)
  {
    hide TableAt, EntryAt, Pointer, Frame;
    TableFromEntry(m0, root, u, l);
    TableFromEntry(m, root, u, l);
  }

  lemma MissingNoMore(m: Mem, root: nat, u: VPage, l: Level)
    requires l > 0 && TableAt(m, root, u, l - 1).Some?
    ensures MissingAt(m, root, u, l - 1) == MissingAt(m, root, u, l)
  {
    hide TableAt, PlaceOf;
  }

  /** The entry was empty, and a new table hangs under it now. */
  lemma DescentLinks(m0: Mem, m: Mem, m': Mem, root: nat, u: VPage, l: Level, taken: set<nat>, q: nat)
    requires Descended(m0, m, root, u, l, taken) && l > 0 && EntryAt(m, root, u, l) == 0 && q !in taken
    requires OnlyEntry(m, m', root, u, l) && TableAt(m', root, u, l - 1) == Some(q)
    ensures Descended(m0, m', root, u, l - 1, taken + {q})
  {
    hide TableAt, EntryAt, Supplied, Slot, PlaceOf, MissingAt;
    SuppliedOne(m, m', root, u, l, q);
    SuppliedMore(m0, m, m', root, MissingAt(m0, root, u, l), taken, {PlaceOf(u, l - 1)}, {q});
    MissingOneMore(m0, root, u, l);
  }

  lemma MissingOneMore(m: Mem, root: nat, u: VPage, l: Level)
    requires l > 0 && EntryAt(m, root, u, l) == 0
    ensures TableAt(m, root, u, l - 1) == None
    ensures MissingAt(m, root, u, l - 1) == MissingAt(m, root, u, l) + {PlaceOf(u, l - 1)}
  {
    TableFromEntry(m, root, u, l - 1);
    hide TableAt, EntryAt, PlaceOf, Frame;
  }

  // ------------------------------------------------------------------ the range

  lemma UnderRange(v: VPage, u: VPage, l: Level)
    requires Offset(u, l) == 0
    ensures Under(v, u, l) <==> u <= v < u + Pages(l)
    ensures Under(v, u, l) ==> Offset(v, l) == v - u
  {
  }

  /** Slots that start at page u or later hold what they held. */
  ghost predicate Ahead(m0: Mem, m: Mem, root: nat, u: nat) {
    forall v: VPage, l: Level :: v >= u && Offset(v, l) == 0 ==> EntryAt(m, root, v, l) == EntryAt(m0, root, v, l)
  }

  /** Pass 1 after k pages: the new tables are the missing ones of those pages. */
  ghost predicate Counted(m0: Mem, m: Mem, root: nat, v0: nat, f0: nat, n: nat, k: nat, want: set<Place>,
                          taken: set<nat>) {
    && k <= n && v0 + n <= VPAGES && Supplied(m0, m, root, want, taken) && Ahead(m0, m, root, v0 + k)
    && want + Missing(m0, root, v0 + k, f0 + k, n - k) == Missing(m0, root, v0, f0, n)
  }

  lemma CountStarts(m: Mem, root: nat, v0: nat, f0: nat, n: nat)
    requires v0 + n <= VPAGES
    ensures Counted(m, m, root, v0, f0, n, 0, {}, {})
  {
    hide Missing, TableAt, EntryAt;
    SuppliedNothing(m, m, root);
    assert {} + Missing(m, root, v0, f0, n) == Missing(m, root, v0, f0, n);
  }

  lemma CountDone(m0: Mem, m: Mem, root: nat, v0: nat, f0: nat, n: nat, want: set<Place>, taken: set<nat>)
    requires Counted(m0, m, root, v0, f0, n, n, want, taken)
    ensures Supplied(m0, m, root, want, taken) && want == Missing(m0, root, v0, f0, n)
  {
    hide Supplied, Ahead;
    assert Missing(m0, root, v0 + n, f0 + n, 0) == {};
  }

  lemma SameLeafLevel(m0: Mem, m: Mem, root: nat, u: VPage, f: nat, rest: nat)
    requires Ahead(m0, m, root, u)
    ensures LeafLevel(m, root, u, f, rest) == LeafLevel(m0, root, u, f, rest)
  {
    hide EntryAt, Offset, Pages;
    assert forall l: Level :: FitsLeaf(m, root, u, f, rest, l) <==> FitsLeaf(m0, root, u, f, rest, l);
  }

  /** A place that has no table in m0 but one in m has been counted. */
  lemma SameMissing(m0: Mem, m: Mem, root: nat, want: set<Place>, taken: set<nat>, u: VPage, l: Level)
    requires Supplied(m0, m, root, want, taken)
    ensures want + MissingAt(m, root, u, l) == want + MissingAt(m0, root, u, l)
  {
    hide TableAt, PlaceOf, IsPlace, Houses;
    forall k: Level
      ensures TableAt(m0, root, u, k).None? <==> TableAt(m, root, u, k).None? || PlaceOf(u, k) in want
    {
      assert IsNew(m0, m, root, u, k) <==> PlaceOf(u, k) in want;
    }
  }

  lemma AheadStep(m0: Mem, m: Mem, m': Mem, root: nat, u: VPage, l: Level)
    requires Ahead(m0, m, root, u) && Touched(m, m', root, u)
    ensures Ahead(m0, m', root, u + Pages(l))
  {
    hide EntryAt, Pages, Slot, Offset;
    forall v: VPage, k: Level | v >= u + Pages(l) && Offset(v, k) == 0
      ensures EntryAt(m', root, v, k) == EntryAt(m0, root, v, k)
    {
      UnderRange(u, v, k);
    }
  }

  lemma MissingUnfold(m: Mem, root: nat, v: VPage, f: nat, n: nat)
    requires v + n <= VPAGES && n > 0
    ensures var l := LeafLevel(m, root, v, f, n);
      && Pages(l) <= n
      && Missing(m, root, v, f, n) == MissingAt(m, root, v, l) + Missing(m, root, v + Pages(l), f + Pages(l),
        n - Pages(l))
  {
    hide TableAt, EntryAt, MissingAt, Offset;
  }

  lemma MissingBelow(m: Mem, root: nat, u: VPage, k: Level, l: Level)
    requires k <= l
    ensures MissingAt(m, root, u, l) <= MissingAt(m, root, u, k)
  {
    hide TableAt, PlaceOf;
  }

  /** A round of pass 1 at page v0 + k that came down to level l, at or above its leaf. */
  lemma CountStep(m0: Mem, m: Mem, m': Mem, root: nat, v0: nat, f0: nat, n: nat, k: nat,
                  want: set<Place>, taken: set<nat>, u: VPage, l: Level, more: set<nat>)
    requires Counted(m0, m, root, v0, f0, n, k, want, taken) && k < n && u == v0 + k && taken !! more
    requires Descended(m, m', root, u, l, more) && LeafLevel(m, root, u, f0 + k, n - k) <= l
    ensures var want' := want + MissingAt(m, root, u, l);
      && Supplied(m0, m', root, want', taken + more) && want' <= Missing(m0, root, v0, f0, n)
      && (l == LeafLevel(m, root, u, f0 + k, n - k) ==>
            k + Pages(l) <= n && Counted(m0, m', root, v0, f0, n, k + Pages(l), want', taken + more))
  {
    hide TableAt, EntryAt, MissingAt, Supplied, Slot, Offset, FitsLeaf, LeafLevel, Ahead, Touched, Pages, Missing;
    SameLeafLevel(m0, m, root, u, f0 + k, n - k);
    SameMissing(m0, m, root, want, taken, u, l);
    MissingUnfold(m0, root, u, f0 + k, n - k);
    var leaf := LeafLevel(m0, root, u, f0 + k, n - k);
    MissingBelow(m0, root, u, leaf, l);
    SuppliedMore(m0, m, m', root, want, taken, MissingAt(m, root, u, l), more);
    AheadStep(m0, m, m', root, u, l);
    if l == leaf {
      Regroup(want, MissingAt(m, root, u, l), MissingAt(m0, root, u, l), Missing(m0, root, u, f0 + k, n - k),
              Missing(m0, root, u + Pages(l), f0 + k + Pages(l), n - k - Pages(l)));
    }
  }

  lemma Regroup(want: set<Place>, here: set<Place>, here0: set<Place>, all: set<Place>, rest: set<Place>)
    requires want + here == want + here0 && all == here0 + rest
    ensures (want + here) + rest == want + all
  {
  }

  /** When the round stops above its leaf for want of a table, one place is still missing. */
  lemma CountShort(m0: Mem, m: Mem, m': Mem, root: nat, v0: nat, f0: nat, n: nat, k: nat,
                   want: set<Place>, taken: set<nat>, u: VPage, l: Level, more: set<nat>)
    requires Counted(m0, m, root, v0, f0, n, k, want, taken) && k < n && u == v0 + k && taken !! more
    requires Descended(m, m', root, u, l, more) && LeafLevel(m, root, u, f0 + k, n - k) < l
    requires TableAt(m, root, u, l - 1) == None
    ensures |taken + more| < |Missing(m0, root, v0, f0, n)|
  {
    hide EntryAt, Slot, Offset, FitsLeaf, LeafLevel, Ahead, Touched, Pages, TableAt, Missing, MissingAt, Supplied,
         PlaceOf;
    CountStep(m0, m, m', root, v0, f0, n, k, want, taken, u, l, more);
    SameLeafLevel(m0, m, root, u, f0 + k, n - k);
    MissingUnfold(m0, root, u, f0 + k, n - k);
    var leaf := LeafLevel(m0, root, u, f0 + k, n - k);
    var p := PlaceOf(u, l - 1);
    StillMissing(m0, m, root, want, taken, u, l);
    SuppliedSize(m0, m', root, want + MissingAt(m, root, u, l), taken + more);
    MissingBelow(m0, root, u, leaf, l - 1);
    ProperSize(want + MissingAt(m, root, u, l), Missing(m0, root, v0, f0, n), p);
  }

  lemma SuppliedSize(m0: Mem, m: Mem, root: nat, want: set<Place>, taken: set<nat>)
    requires Supplied(m0, m, root, want, taken)
    ensures |want| == |taken|
  {
  }

  lemma StillMissing(m0: Mem, m: Mem, root: nat, want: set<Place>, taken: set<nat>, u: VPage, l: Level)
    requires Supplied(m0, m, root, want, taken) && l > 0 && TableAt(m, root, u, l - 1) == None
    ensures PlaceOf(u, l - 1) !in want + MissingAt(m, root, u, l)
    ensures PlaceOf(u, l - 1) in MissingAt(m0, root, u, l - 1)
  {
    hide TableAt, IsPlace, Houses;
    assert !IsNew(m0, m, root, u, l - 1);
  }

  lemma ProperSize(a: set<Place>, b: set<Place>, p: Place)
    requires a <= b && p in b && p !in a
    ensures |a| < |b|
  {
    assert a + {p} <= b;
    UnionSize(a, {p});
    UnionSize(a + {p}, b - (a + {p}));
    assert (a + {p}) + (b - (a + {p})) == b;
  }
}
