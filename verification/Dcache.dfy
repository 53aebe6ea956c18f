/** vfs.c: the dentry cache, whose hash buckets index the lists of children. */
module Dcache {
  import opened Bits
  import opened Option
  import opened Sequences
  import L = Lists
  import opened DentryModel
  import opened DentryChains
  import H = Hlist

  /** dhash: the loop over the name. */
  method DhashOf(parent: nat, name: Name) returns (key: nat)
    ensures key == Dhash(parent, name)
  {
    key := 0;
    for i := 0 to |name|
      invariant key == NameKey(name[..i])
    {
      assert name[..i + 1][..i] == name[..i];
      key := Xor(key, Extended(name[i]));
    }
    assert name[..|name|] == name;
    key := Xor(key, parent);
  }

  /** The fields of struct dentry but the nodes and heads of lists. */
  datatype Fields = Fields(name: Name, parent: nat, refs: int)

  ghost predicate Recorded(fields: map<nat, Fields>, es: Entries) {
    fields.Keys == es.Keys && forall d :: d in es ==> fields[d] == Fields(es[d].name, es[d].parent, es[d].refs)
  }

  /** The names, parents and counts of the dentries are records by address; the hash table, the
      chains and the lists of children run through words of memory. */
  class DentryCache {
    const ram: array<Word>
    const base: L.Addr                     // the array dcache of bucket heads
    var fields: map<nat, Fields>         // the dentries allocated, by address
    ghost var entries: Entries           // the dentries with their children in list order
    ghost var buckets: seq<seq<nat>>     // what the chains hold, head first
    ghost var held: map<nat, nat>        // references held outside the tree

    ghost function State(): Cache
      reads this
    {
      Cache(entries, buckets)
    }

    /** The buckets are chains through the hash nodes of the dentries, and the children of each
        are a list through their child nodes. */
    ghost predicate Stored()
      reads this, ram
    {
      && Placed(entries.Keys, ram.Length, base) && Chained(ram[..], base, buckets) && Listed(ram[..], entries)
      && Recorded(fields, entries)
    }

    ghost predicate Ok()
      reads this, ram
    {
      Good(State(), held) && Stored()
    }

    /** The static table: every bucket NULL. */
    constructor (ram: array<Word>, base: L.Addr)
      requires base + BUCKETS <= ram.Length && base + BUCKETS <= L.DIRECT_WORDS
      modifies ram
      ensures Ok() && entries == map[] && held == map[] && this.ram == ram && this.base == base
    {
      this.ram, this.base := ram, base;
      fields, entries, held := map[], map[], map[];
      buckets := seq(BUCKETS, _ => []);
      new;
      for k := 0 to BUCKETS
        invariant forall a :: base <= a < base + k ==> ram[a] == 0
        invariant fields == map[] && entries == map[] && held == map[] && buckets == seq(BUCKETS, _ => [])
      {
        ram[base + k] := 0;
      }
      EmptyGood(State());
      EmptyChained(ram[..], base, buckets);
    }

    /** dget */
    method Dget(d: nat)
      requires Ok() && d in entries
      modifies this
      ensures Ok() && d in old(held) && held == old(held)[d := old(held)[d] + 1]
      ensures State() == WithRefs(old(State()), d, old(entries)[d].refs + 1)
      ensures entries == old(entries)[d := old(entries)[d].(refs := old(entries)[d].refs + 1)]
      ensures buckets == old(buckets)
    {
      hide Good, Placed, Chained, Listed, Recorded;
      HoldGood(State(), held, d);
      RefsStored(ram[..], fields, entries, d, entries[d].refs + 1);
      fields := fields[d := fields[d].(refs := fields[d].refs + 1)];
      entries := entries[d := entries[d].(refs := entries[d].refs + 1)];
      held := held[d := held[d] + 1];
      assert entries.Keys == old(entries).Keys;
    }

    /** dalloc(NULL, NULL); id is the address kmalloc returned. */
    method DallocRoot(id: nat)
      requires Ok() && id !in entries && Fits(entries.Keys, ram.Length, base, id)
      modifies this, ram
      ensures Ok() && held == old(held)[id := 1] && State() == AddRoot(old(State()), id)
      ensures entries == old(entries)[id := Entry([], id, [], 1)] && buckets == old(buckets)
    {
      hide Good, Placed, Chained, Listed, Kin, Fits, Members, L.IsList, Children;
      ghost var c, ids := State(), entries.Keys;
      ghost var ids1 := ids + {id};
      RootGood(c, held, id);
      GoodMembers(c, held);
      MembersMore(ids, buckets, id);
      PlacedMore(ids, ram.Length, base, id);
      InitChild(id, ids1);
      ListedMeans(ram[..], entries);
      fields := fields[id := Fields([], id, 1)];
      entries := entries[id := Entry([], id, [], 1)];
      held := held[id := 1];
      GoodMembers(State(), held);
      InitSubdirs(id, ids1);
    }

    /** dalloc(parent, name) */
    method Dalloc(p: nat, name: Name, id: nat)
      requires Ok() && p in entries && id !in entries && Fits(entries.Keys, ram.Length, base, id)
      modifies this, ram
      ensures |old(State()).buckets| == BUCKETS
      ensures Ok() && held == old(held)[id := 1] && State() == Add(old(State()), p, name, id)
      // The new dentry has that name and parent, one reference and no child; its parent has one
      // reference and one child more.
      ensures var e := old(entries)[p];
        entries == old(entries)[p := e.(refs := e.refs + 1, subdirs := [id] + e.subdirs)][id := Entry(name, p, [], 1)]
    {
      hide Good, Slot, Placed, Chained, Listed, Kin, Fits, Members, Recorded, Children, L.IsList;
      ghost var c, ids := State(), entries.Keys;
      ghost var ids1 := ids + {id};
      AddGood(c, held, p, name, id);
      GoodMembers(c, held);
      GoodMembers(Add(c, p, name, id), held[id := 1]);
      MembersMore(ids, buckets, id);
      PlacedMore(ids, ram.Length, base, id);
      InitChild(id, ids1);
      HashAdd(p, name, id);
      AddKeys(c, p, name, id);
      Attach(p, id, ids1);
      RecordedAdd(fields, c, p, name, id);
      fields := fields[p := fields[p].(refs := fields[p].refs + 1)][id := Fields(name, p, 1)];
      var e := entries[p];
      entries := entries[p := e.(refs := e.refs + 1, subdirs := [id] + e.subdirs)][id := Entry(name, p, [], 1)];
      held := held[id := 1];
      assert State() == Add(c, p, name, id);
      InitSubdirs(id, ids1);
    }

    /** hash_add of a new dentry called name under p. */
    method HashAdd(p: nat, name: Name, id: nat)
      requires Placed(entries.Keys, ram.Length, base) && Fits(entries.Keys, ram.Length, base, id) && id !in entries
      requires |buckets| == BUCKETS && Members(entries.Keys, buckets) && Chained(ram[..], base, buckets)
      requires Kin(entries) && Listed(ram[..], entries)
      modifies this`buckets, ram
      ensures var k := Slot(p, name); buckets == old(buckets)[k := [id] + old(buckets)[k]]
      ensures Chained(ram[..], base, buckets) && Listed(ram[..], entries)
    {
      hide Slot, Placed, Chained, Listed, Kin, Fits, Members, Chain, H.IsChain, H.Joins, H.OnlyChain, Dhash, Hash;
      ghost var m, ids := ram[..], entries.Keys;
      PlacedMore(ids, |m|, base, id);
      SlotIs(p, name);
      var key := DhashOf(p, name);
      var k := Hash(key, DCACHE_BITS);
      BucketAt(m, ids, base, buckets, k);
      CanJoin(m, ids, base, k, buckets[k], id);
      H.HlistAddHead(ram, id + HNODE, base + k, Chain(buckets[k]));
      ChainedAdd(m, ram[..], ids, base, buckets, k, id);
      ChainCons(id, buckets[k]);
      ChainKeepsListed(m, ram[..], ids + {id}, base, k, [id] + buckets[k], entries);
      buckets := buckets[k := [id] + buckets[k]];
    }

    /** list_add of a new dentry to the children of p. */
    method Attach(p: nat, id: nat, ghost ids: set<nat>)
      requires Placed(ids, ram.Length, base) && id in ids && id !in entries && entries.Keys <= ids && p in entries
      requires Members(ids, buckets) && Chained(ram[..], base, buckets)
      requires Kin(entries) && Listed(ram[..], entries)
      modifies ram
      ensures Chained(ram[..], base, buckets)
      ensures forall d :: d in entries ==>
        L.IsList(ram[..], Subdirs(d), Children(if d == p then [id] + entries[d].subdirs else entries[d].subdirs))
    {
      hide Placed, Chained, Listed, Kin, Members, Children, L.IsList, L.OnlyNodes, L.AddFront;
      ghost var m := ram[..];
      CanLink(m, ids, base, entries, p, id);
      ghost var kids := Children(entries[p].subdirs);
      L.AddFrontList(m, Child(id), Subdirs(p), kids);
      L.ListAdd(ram, id + CHILD, p + SUBDIRS, kids);
      ListedAdd(m, ram[..], ids, base, buckets, entries, p, id);
    }

    /** list_head_init of the child node of a new dentry. */
    method InitChild(id: nat, ghost ids: set<nat>)
      requires Placed(ids, ram.Length, base) && id in ids && id !in entries && entries.Keys <= ids && Kin(entries)
      requires Members(ids, buckets) && Chained(ram[..], base, buckets) && Listed(ram[..], entries)
      modifies ram
      ensures Chained(ram[..], base, buckets) && Listed(ram[..], entries)
    {
      hide Placed, Chained, Listed, Kin, Members, L.IsList;
      ghost var m := ram[..];
      LinkNodes(ids, |m|, base, id);
      L.ListHeadInit(ram, id + CHILD);
      InitLinks(m, ram[..], id);
      ChildInit(m, ram[..], ids, base, buckets, entries, id);
    }

    /** list_head_init of the list of a new dentry. */
    method InitSubdirs(id: nat, ghost ids: set<nat>)
      requires Placed(ids, ram.Length, base) && id in entries && entries.Keys == ids && Kin(entries)
      requires entries[id].subdirs == [] && Members(ids, buckets) && Chained(ram[..], base, buckets)
      requires forall d :: d in entries && d != id ==> L.IsList(ram[..], Subdirs(d), Children(entries[d].subdirs))
      modifies ram
      ensures Chained(ram[..], base, buckets) && Listed(ram[..], entries)
    {
      hide Placed, Chained, Listed, Kin, Members, L.IsList;
      ghost var m := ram[..];
      LinkNodes(ids, |m|, base, id);
      L.ListHeadInit(ram, id + SUBDIRS);
      InitLinks(m, ram[..], id);
      SubdirsInit(m, ram[..], ids, base, buckets, entries, id);
    }

    /** hlist_for_each_possible over the bucket of (p, name). */
    method BucketSearch(p: nat, name: Name) returns (r: Option<nat>)
      requires Ok()
      ensures |buckets| == BUCKETS && r == First(Matching(buckets[Slot(p, name)], entries, p, name))
      // It returns a child of p of that name, and None only if there is none.
      ensures r.Some? ==>
        r.value in entries && entries[r.value].name == name && entries[r.value].parent == p && r.value != p
      ensures r.None? ==> forall x :: x in entries && entries[x].parent == p && x != p ==> entries[x].name != name
    {
      hide Good, Slot, Placed, Chained, Listed, Members, Chain, Matching, Recorded, Kin, Dhash, Hash, H.Pointer;
      GoodMembers(State(), held);
      BucketComplete(State(), held, p, name);
      SlotIs(p, name);
      var key := DhashOf(p, name);
      var k := Hash(key, DCACHE_BITS);
      ghost var list, i := buckets[k], 0;
      BucketAt(ram[..], entries.Keys, base, buckets, k);
      ChainWalk(ram[..], entries.Keys, base, buckets, k, 0);
      var pos := ram[base + k];
      assert list[0..] == list;
      while pos != 0
        invariant 0 <= i <= |list| && pos == H.Pointer(Chain(list), i) && (pos == 0 <==> i == |list|)
        invariant First(Matching(list, entries, p, name)) == First(Matching(list[i..], entries, p, name))
        decreases |list| - i
      {
        ChainWalk(ram[..], entries.Keys, base, buckets, k, i);
        ChainWalk(ram[..], entries.Keys, base, buckets, k, i + 1);
        var d := L.FromPtr(pos) - HNODE;
        assert list[i..] == [list[i]] + list[i + 1..];
        MatchingCons(list[i], list[i + 1..], entries, p, name);
        RecordedAt(fields, entries, list[i]);
        if fields[d].name == name && fields[d].parent == p {
          return Some(d);
        }
        assert [] + Matching(list[i + 1..], entries, p, name) == Matching(list[i + 1..], entries, p, name);
        pos := ram[d + HNODE];
        i := i + 1;
      }
      MatchingEmpty(entries, p, name);
      return None;
    }

    /** list_foreach_entry over the children of p. */
    method ListSearch(p: nat, name: Name) returns (r: Option<nat>)
      requires Ok() && p in entries
      ensures r == First(Matching(entries[p].subdirs, entries, p, name))
      ensures r.Some? ==> r.value in entries[p].subdirs && r.value in entries && entries[r.value].name == name
      ensures r.None? ==> forall x :: x in entries[p].subdirs && x in entries ==> entries[x].name != name
    {
      hide Good, Slot, Placed, Chained, Listed, Kin, Members, Matching, ListPointer, Recorded;
      GoodMembers(State(), held);
      ghost var list, i := entries[p].subdirs, 0;
      KinMeans(entries, p);
      FirstMatch(list, entries, p, name);
      ListWalk(ram[..], entries.Keys, base, entries, p, 0);
      var pos := ram[p + SUBDIRS];
      assert list[0..] == list;
      while pos != L.ToPtr(p + SUBDIRS)
        invariant 0 <= i <= |list| && pos == ListPointer(entries, p, i)
        invariant pos == L.ToPtr(p + SUBDIRS) <==> i == |list|
        invariant First(Matching(list, entries, p, name)) == First(Matching(list[i..], entries, p, name))
        decreases |list| - i
      {
        ListWalk(ram[..], entries.Keys, base, entries, p, i);
        ListWalk(ram[..], entries.Keys, base, entries, p, i + 1);
        var d := L.FromPtr(pos) - CHILD;
        assert list[i..] == [list[i]] + list[i + 1..];
        MatchingCons(list[i], list[i + 1..], entries, p, name);
        RecordedAt(fields, entries, list[i]);
        if fields[d].name == name && fields[d].parent == p {
          return Some(d);
        }
        assert [] + Matching(list[i + 1..], entries, p, name) == Matching(list[i + 1..], entries, p, name);
        pos := ram[d + CHILD];
        i := i + 1;
      }
      MatchingEmpty(entries, p, name);
      return None;
    }

    /** dlookup.  id is the address kmalloc returns should a dentry be created, and
        absent tells whether the filesystem's lookup fails. */
    method Dlookup(p: nat, name: Name, id: nat, absent: bool) returns (r: Option<nat>)
      requires Ok() && p in entries && id !in entries && Fits(entries.Keys, ram.Length, base, id)
      modifies this, ram
      ensures Ok() && |old(State()).buckets| == BUCKETS
      // The result is a child of p of that name, whether it was there or not.
      ensures r.Some? ==> r.value in entries && entries[r.value].name == name && entries[r.value].parent == p
      // If p had one, it gets one more reference, and nothing else changes.
      ensures (exists x :: x in old(entries)[p].subdirs && x in old(entries) && old(entries)[x].name == name) ==>
        && r.Some? && r.value in old(entries)[p].subdirs && r.value in old(entries)
        && old(entries)[r.value].name == name
        && entries == old(entries)[r.value := old(entries)[r.value].(refs := old(entries)[r.value].refs + 1)]
        && buckets == old(buckets)
      // If not, it gets the new one, or nothing changes.
      ensures (forall x :: x in old(entries)[p].subdirs && x in old(entries) ==> old(entries)[x].name != name) ==>
        && r == (if absent then None else Some(id)) && (absent ==> entries == old(entries) && buckets == old(buckets))
        && (!absent ==>
              var e := old(entries)[p];
              entries == old(entries)[p := e.(refs := e.refs + 1, subdirs := [id] + e.subdirs)]
                                     [id := Entry(name, p, [], 1)])
      // A child of that name is returned with one more reference, and nothing else changes.
      ensures forall x :: First(Matching(old(entries)[p].subdirs, old(entries), p, name)) == Some(x) ==>
        && r == Some(x) && x in old(entries) && x in old(held) && held == old(held)[x := old(held)[x] + 1]
        && State() == WithRefs(old(State()), x, old(entries)[x].refs + 1)
      // Without one a new child is created ..
      ensures Matching(old(entries)[p].subdirs, old(entries), p, name) == [] && !absent ==>
        r == Some(id) && held == old(held)[id := 1] && State() == Add(old(State()), p, name, id)
      // .. and a lookup that fails leaves everything as it was.
      ensures Matching(old(entries)[p].subdirs, old(entries), p, name) == [] && absent ==>
        r == None && held == old(held) && State() == old(State())
    {
      hide Good, Slot, Matching, Matches, Add, Put, Kept, WithRefs, Placed, Chained, Listed, Fits, Members, Kin,
           Recorded, First, NoDup, IsChild;
      ghost var c, h := State(), held;
      SearchesAgree(c, h, p, name);
      FirstMatch(entries[p].subdirs, entries, p, name);
      GoodMembers(c, h);
      KinMeans(entries, p);
      r := BucketSearch(p, name);
      if r.Some? {
        FoundIn(c, p, name, r.value);
        Dget(r.value);
        return;
      }
      r := ListSearch(p, name);
      if r.Some? {
        assert false;
      }
      Dalloc(p, name, id);
      if absent {
        AddedEntry(c, p, name, id);
        Dput(id);
        AddThenPut(c, h, p, name, id);
        KeptAll(c, h, id);
        return None;
      }
      return Some(id);
    }

    /** dput of a reference held outside the tree. */
    method Dput(d: nat)
      requires Ok() && d in entries && d in held && held[d] > 0 && (entries[d].parent == d ==> held[d] > 1)
      modifies this, ram
      ensures |old(State()).buckets| == BUCKETS
      ensures Ok() && State() == Put(old(State()), d) && held == Kept(old(held), entries, d)
      // The dentry goes with its last reference, else it has one less and nothing else changes ..
      ensures d in entries <==> old(entries)[d].refs != 1
      ensures d in entries ==>
        && entries == old(entries)[d := old(entries)[d].(refs := old(entries)[d].refs - 1)]
        && buckets == old(buckets) && held == old(held)[d := old(held)[d] - 1]
      // .. only dentries nobody outside holds go with it, and the others keep name and parent.
      ensures forall x :: x in old(entries) && x !in entries ==> x == d || (x in old(held) && old(held)[x] == 0)
      ensures forall x :: x in entries ==>
        x in old(entries) && entries[x].name == old(entries)[x].name && entries[x].parent == old(entries)[x].parent
      decreases |entries|, 1
    {
      hide Good, Delete, GoodBut, Kept, Placed, Chained, Listed, Recorded, Put, WithRefs, Removable, Members, Kin;
      ghost var c := State();
      GoodMembers(c, held);
      PutGood(c, held, d);
      PutDrops(c, held, d);
      PutMeans(c, held, d);
      GoodKeys(c, held);
      PutIs(c, d);
      ghost var before := entries;
      RefsStored(ram[..], fields, entries, d, entries[d].refs - 1);
      fields := fields[d := fields[d].(refs := fields[d].refs - 1)];
      entries := entries[d := entries[d].(refs := entries[d].refs - 1)];
      SameSize(before, d, entries);
      assert entries.Keys == before.Keys;
      if fields[d].refs != 0 {
        KeptIs(held, entries, d);
        held := Kept(held, entries, d);
        return;
      }
      Ddelete(d);
    }

    /** ddelete of a named dentry without children. */
    method Ddelete(d: nat)
      requires Stored() && |buckets| == BUCKETS && GoodBut(State(), held, d) && Removable(State(), d)
      modifies this, ram
      ensures |old(State()).buckets| == BUCKETS
      ensures Ok() && State() == Delete(old(State()), d) && held == Kept(old(held), entries, d) && d !in entries
      decreases |entries|, 0
    {
      hide Good, GoodBut, Put, Slot, Placed, Chained, Listed, Kin, Members, Chain, Children, H.IsChain, H.OnlyChain,
           L.IsList, Recorded, Remove, Kept, Without;
      ghost var c, m, ids := State(), ram[..], entries.Keys;
      RemoveIs(c, d);
      DeleteGood(c, held, d);
      RemoveGood(c, held, d);
      RemoveEntries(c, d);
      Smaller(c, d);
      GoodMembers(Remove(c, d), (held - {d})[entries[d].parent := held[entries[d].parent] + 1]);
      RecordedAt(fields, entries, d);
      RecordedDel(fields, c, d);
      var p := fields[d].parent;
      ghost var h := held;
      ghost var i := InItsList(c, h, d);
      ghost var j := InItsBucket(c, h, d);
      Detach(d, i);
      ghost var m1 := ram[..];
      ghost var k := Slot(p, entries[d].name);
      BucketAt(m1, ids, base, buckets, k);
      PlacedNode(ids, |m1|, base, d);
      H.HlistDel(ram, d + HNODE, base + k, Chain(buckets[k]), j);
      ChainedDel(m1, ram[..], ids, base, buckets, k, j);
      ChainKeepsListed(m1, ram[..], ids, base, k, buckets[k], Remove(c, d).entries);
      var e := entries[p];
      held := (held - {d})[p := held[p] + 1];
      fields := fields - {d};
      entries := (entries - {d})[p := e.(subdirs := Without(e.subdirs, d))];
      PlacedLess(ids, ram.Length, base, entries.Keys);
      buckets := buckets[k := Without(buckets[k], d)];
      assert State() == Remove(c, d);
      Dput(p);
      KeptChain(h, p, d, entries);
    }

    /** list_del of a dentry, which is at position i of the list of its parent. */
    method Detach(d: nat, ghost i: nat)
      requires Placed(entries.Keys, ram.Length, base) && |buckets| == BUCKETS && Members(entries.Keys, buckets)
      requires Chained(ram[..], base, buckets) && Kin(entries) && Listed(ram[..], entries) && Removable(State(), d)
      requires var s := entries[entries[d].parent].subdirs; NoDup(s) && i < |s| && s[i] == d
      modifies ram
      ensures Chained(ram[..], base, buckets) && Listed(ram[..], Remove(State(), d).entries)
    {
      hide Placed, Chained, Listed, Kin, Members, Children, L.IsList, L.OnlyNodes, L.Del, NoDup, Remove;
      ghost var m, ids, p := ram[..], entries.Keys, entries[d].parent;
      ListedMeans(m, entries);
      LinkNodes(ids, |m|, base, d);
      ghost var kids := Children(entries[p].subdirs);
      L.DelList(m, Subdirs(p), kids, i);
      L.ListDel(ram, d + CHILD, Subdirs(p), kids, i);
      ListedDel(m, ram[..], ids, base, State(), d, i);
    }
  }

  lemma GoodMembers(c: Cache, held: map<nat, nat>)
    requires Good(c, held)
    ensures |c.buckets| == BUCKETS && Members(c.entries.Keys, c.buckets) && Kin(c.entries)
  {
    hide Tree, Counted, Members, Indexed, Kin;
    TreeKin(c.entries);
    IndexedMembers(c);
    IndexedLength(c);
  }

  lemma IndexedLength(c: Cache)
    requires Indexed(c)
    ensures |c.buckets| == BUCKETS
  {
  }

  /** A dentry that is to be deleted is in its bucket. */
  lemma InItsBucket(c: Cache, held: map<nat, nat>, d: nat) returns (j: nat)
    requires GoodBut(c, held, d) && Removable(c, d) && |c.buckets| == BUCKETS
    ensures var b := c.buckets[Slot(c.entries[d].parent, c.entries[d].name)]; j < |b| && b[j] == d && NoDup(b)
    ensures Members(c.entries.Keys, c.buckets)
  {
    hide Slot, Tree, Agreement, NoDup, Members;
    IndexedMembers(c);
    var k := Slot(c.entries[d].parent, c.entries[d].name);
    assert InBucket(c.entries, d, k);
    j :| 0 <= j < |c.buckets[k]| && c.buckets[k][j] == d;
  }

  /** Bucket k as the hash table operations see it. */
  lemma BucketAt(m: Mem, ids: set<nat>, base: L.Addr, buckets: seq<seq<nat>>, k: nat)
    requires Placed(ids, |m|, base) && Chained(m, base, buckets) && Members(ids, buckets) && k < BUCKETS
    ensures base + k < L.DIRECT_WORDS && H.IsChain(m, base + k, Chain(buckets[k]))
    ensures forall x :: x in buckets[k] ==> x in ids
  {
    hide H.IsChain;
    assert H.IsChain(m, Bucket(base, k), Chain(buckets[k]));
  }

  lemma KinMeans(es: Entries, p: nat)
    requires Kin(es) && p in es
    ensures forall x :: x in es[p].subdirs ==> x in es && es[x].parent == p
  {
  }

  /** A reference count changed in the records. */
  lemma RefsStored(m: Mem, fields: map<nat, Fields>, es: Entries, d: nat, refs: int)
    requires Listed(m, es) && Recorded(fields, es) && d in es
    ensures d in fields && fields[d] == Fields(es[d].name, es[d].parent, es[d].refs)
    ensures Listed(m, es[d := es[d].(refs := refs)])
    ensures Recorded(fields[d := fields[d].(refs := refs)], es[d := es[d].(refs := refs)])
  {
    hide L.IsList, Children;
  }

  lemma RecordedAt(fields: map<nat, Fields>, es: Entries, d: nat)
    requires Recorded(fields, es) && d in es
    ensures d in fields && fields[d] == Fields(es[d].name, es[d].parent, es[d].refs)
  {
  }

  lemma RecordedAdd(fields: map<nat, Fields>, c: Cache, p: nat, n: Name, id: nat)
    requires Recorded(fields, c.entries) && p in c.entries && |c.buckets| == BUCKETS && id !in c.entries
    ensures p in fields && fields[p].refs == c.entries[p].refs
    ensures Recorded(fields[p := fields[p].(refs := fields[p].refs + 1)][id := Fields(n, p, 1)],
                     Add(c, p, n, id).entries)
  {
    hide Slot;
  }

  lemma RecordedDel(fields: map<nat, Fields>, c: Cache, d: nat)
    requires Recorded(fields, c.entries) && Removable(c, d) && |c.buckets| == BUCKETS
    ensures Recorded(fields - {d}, Remove(c, d).entries)
  {
    hide Slot;
  }

  lemma RemoveIs(c: Cache, d: nat)
    requires Removable(c, d) && |c.buckets| == BUCKETS
    ensures var p, k := c.entries[d].parent, Slot(c.entries[d].parent, c.entries[d].name);
      && Remove(c, d).entries == (c.entries - {d})[p := c.entries[p].(subdirs := Without(c.entries[p].subdirs, d))]
      && Remove(c, d).buckets == c.buckets[k := Without(c.buckets[k], d)]
  {
    hide Slot, Without;
  }

  lemma MembersMore(ids: set<nat>, buckets: seq<seq<nat>>, id: nat)
    requires Members(ids, buckets)
    ensures Members(ids + {id}, buckets)
  {
  }

  lemma AddKeys(c: Cache, p: nat, n: Name, id: nat)
    requires p in c.entries && |c.buckets| == BUCKETS
    ensures Add(c, p, n, id).entries.Keys == c.entries.Keys + {id}
    ensures Add(c, p, n, id).buckets == c.buckets[Slot(p, n) := [id] + c.buckets[Slot(p, n)]]
  {
    hide Slot;
  }

  lemma ListedMeans(m: Mem, es: Entries)
    requires Listed(m, es)
    ensures forall d :: d in es ==> L.IsList(m, Subdirs(d), Children(es[d].subdirs))
  {
    hide L.IsList, Children;
  }

  /** list_head_init of one of the two nodes of a dentry. */
  lemma InitLinks(m: Mem, m': Mem, id: nat)
    requires id + DENTRY_WORDS <= |m| && id + DENTRY_WORDS <= L.DIRECT_WORDS
    ensures m' == L.SetPrev(L.SetNext(m, id + CHILD, id + CHILD), id + CHILD, id + CHILD) ==>
      OnlyLinks(m, m', {id}, {})
    ensures m' == L.SetPrev(L.SetNext(m, id + SUBDIRS, id + SUBDIRS), id + SUBDIRS, id + SUBDIRS) ==>
      OnlyLinks(m, m', {}, {id})
  {
  }

  /** A dentry that is to be deleted is in the list of its parent. */
  lemma InItsList(c: Cache, held: map<nat, nat>, d: nat) returns (j: nat)
    requires GoodBut(c, held, d) && Removable(c, d)
    ensures var s := c.entries[c.entries[d].parent].subdirs; j < |s| && s[j] == d && NoDup(s)
    ensures Kin(c.entries)
  {
    hide Slot, Tree, Agreement, NoDup, Indexed, Kin;
    TreeKin(c.entries);
    ChildMembers(c, d);
    ChildMembers(c, c.entries[d].parent);
    var s := c.entries[c.entries[d].parent].subdirs;
    j :| 0 <= j < |s| && s[j] == d;
  }

  lemma MatchingEmpty(es: Entries, p: nat, n: Name)
    ensures Matching([], es, p, n) == []
  {
  }

  /** The bucket index dalloc and dlookup compute. */
  lemma SlotIs(p: nat, name: Name)
    ensures Hash(Dhash(p, name), DCACHE_BITS) == Slot(p, name)
  {
  }

  lemma FoundIn(c: Cache, p: nat, n: Name, x: nat)
    requires |c.buckets| == BUCKETS && First(Matching(c.buckets[Slot(p, n)], c.entries, p, n)) == Some(x)
    ensures x in c.entries
  {
    hide Slot;
    MatchingIn(c.buckets[Slot(p, n)], c.entries, p, n, x);
    assert Matching(c.buckets[Slot(p, n)], c.entries, p, n)[0] == x;
  }

  lemma AddedEntry(c: Cache, p: nat, n: Name, id: nat)
    requires |c.buckets| == BUCKETS && p in c.entries && id !in c.entries
    ensures id in Add(c, p, n, id).entries && Add(c, p, n, id).entries[id].parent != id
    ensures |Add(c, p, n, id).buckets| == BUCKETS
  {
    hide Slot;
  }

  lemma GoodKeys(c: Cache, held: map<nat, nat>)
    requires Good(c, held)
    ensures held.Keys == c.entries.Keys
  {
  }

  lemma KeptAll(c: Cache, held: map<nat, nat>, id: nat)
    requires Good(c, held) && id !in c.entries
    ensures Kept(held[id := 1], c.entries, id) == held
  {
    GoodKeys(c, held);
  }

  /** The references left when all dentries are. */
  lemma KeptIs(held: map<nat, nat>, es: Entries, d: nat)
    requires held.Keys == es.Keys && d in held && held[d] > 0
    ensures Kept(held, es, d) == held[d := held[d] - 1]
  {
    assert forall x :: x in held <==> x in es;
  }

  lemma PutIs(c: Cache, d: nat)
    requires |c.buckets| == BUCKETS && d in c.entries
    ensures var c1 := Cache(c.entries[d := c.entries[d].(refs := c.entries[d].refs - 1)], c.buckets);
      c1 == WithRefs(c, d, c.entries[d].refs - 1) && d in c1.entries
      && Put(c, d) == if c.entries[d].refs != 1 then c1 else Delete(c1, d)
  {
    hide Delete;
  }

  /** What the two outcomes of dput mean for the invariant. */
  lemma PutDrops(c: Cache, held: map<nat, nat>, d: nat)
    requires Good(c, held) && d in c.entries && held[d] > 0 && (c.entries[d].parent == d ==> held[d] > 1)
      && |c.buckets| == BUCKETS
    ensures var c1 := WithRefs(c, d, c.entries[d].refs - 1);
      c1.entries[d].refs == 0 ==> GoodBut(c1, held, d) && Removable(c1, d)
  {
    hide Slot, Matching, Tree, Indexed, Agreement, Counted;
    RefsMove(c, d, c.entries[d].refs - 1);
    PutCounted(c, held, d);
    ChildMembers(c, d);
  }

  lemma KeptChain(held: map<nat, nat>, p: nat, d: nat, es: Entries)
    requires p in held && d !in es && p != d
    ensures Kept((held - {d})[p := held[p] + 1], es, p) == Kept(held, es, d)
  {
  }
}
