/** Where the dentries and the buckets of the dentry cache lie in memory, and the hash
    chains and the lists of children through them. */
module DentryChains {
  import opened Bits
  import opened Sequences
  import opened Lists
  import opened DentryModel
  import H = Hlist
  import PageTables

  type Mem = PageTables.Mem

  /** Words of a struct dentry, and the words of its hash node, of its node in its parent's
      list and of the head of its own list. */
  const DENTRY_WORDS := 11
  const HNODE := 4
  const CHILD := 6
  const SUBDIRS := 8

  function Node(d: nat): Addr {
    if d + HNODE < DIRECT_WORDS then d + HNODE else 0
  }

  function Chain(s: seq<nat>): (ns: seq<Addr>)
    ensures |ns| == |s| && forall i :: 0 <= i < |s| ==> ns[i] == Node(s[i])
  {
    seq(|s|, i requires 0 <= i < |s| => Node(s[i]))
  }

  function Bucket(base: Addr, k: nat): Addr
    requires base + k < DIRECT_WORDS
  {
    base + k
  }

  /** A dentry at d lies in the n words of memory, outside the bucket array. */
  predicate Place(d: nat, n: nat, base: Addr) {
    && d + DENTRY_WORDS <= n && d + DENTRY_WORDS <= DIRECT_WORDS
    && (d + DENTRY_WORDS <= base || base + BUCKETS <= d)
  }

  predicate Clear(d: nat, e: nat) {
    d + DENTRY_WORDS <= e || e + DENTRY_WORDS <= d
  }

  /** The dentries lie in memory and do not overlap. */
  ghost predicate Placed(ids: set<nat>, n: nat, base: Addr) {
    && base + BUCKETS <= n && base + BUCKETS <= DIRECT_WORDS
    && (forall d :: d in ids ==> Place(d, n, base))
    && (forall d, e :: d in ids && e in ids && d != e ==> Clear(d, e))
  }

  /** There is room for a new dentry at id. */
  ghost predicate Fits(ids: set<nat>, n: nat, base: Addr, id: nat) {
    Place(id, n, base) && forall d :: d in ids ==> Clear(d, id)
  }

  /** The buckets are chains in memory. */
  ghost predicate Chained(m: Mem, base: Addr, buckets: seq<seq<nat>>) {
    && base + |buckets| <= DIRECT_WORDS
    && forall k :: 0 <= k < |buckets| ==> H.IsChain(m, Bucket(base, k), Chain(buckets[k]))
  }

  lemma PlacedMore(ids: set<nat>, n: nat, base: Addr, id: nat)
    requires Placed(ids, n, base) && Fits(ids, n, base, id)
    ensures Placed(ids + {id}, n, base)
  {
  }

  lemma PlacedLess(ids: set<nat>, n: nat, base: Addr, ids': set<nat>)
    requires Placed(ids, n, base) && ids' <= ids
    ensures Placed(ids', n, base)
  {
  }

  lemma NodeIs(d: nat, n: nat, base: Addr)
    requires Place(d, n, base)
    ensures Node(d) == d + HNODE && FromPtr(ToPtr(Node(d))) == d + HNODE && ToPtr(Node(d)) != 0
  {
    PtrRoundTrip(Node(d));
  }

  lemma PlacedNode(ids: set<nat>, n: nat, base: Addr, d: nat)
    requires Placed(ids, n, base) && d in ids
    ensures d + HNODE < DIRECT_WORDS && Node(d) == d + HNODE
  {
    assert Place(d, n, base);
  }

  // ------------------------------------------------------------- one chain changes

  /** Writes to bucket k and to nodes of other dentries leave bucket j alone. */
  lemma OtherChain(m: Mem, m': Mem, ids: set<nat>, base: Addr, k: nat, touched: seq<nat>, j: nat, s: seq<nat>)
    requires Placed(ids, |m|, base) && k < BUCKETS && j < BUCKETS && j != k
    requires (forall x :: x in touched ==> x in ids) && (forall x :: x in s ==> x in ids && x !in touched)
    requires H.OnlyChain(m, m', Bucket(base, k), Chain(touched)) && H.IsChain(m, Bucket(base, j), Chain(s))
    ensures H.IsChain(m', Bucket(base, j), Chain(s))
  {
    hide H.IsChain;
    forall a: nat | a < |m| && H.InChain(a, Bucket(base, j), Chain(s))
      ensures m'[a] == m[a]
    {
      SharedWord(ids, |m|, base, k, touched, j, s, a);
    }
    H.ChainFrame(m, m', Bucket(base, j), Chain(s));
  }

  /** No word belongs to two buckets' chains. */
  lemma SharedWord(ids: set<nat>, n: nat, base: Addr, k: nat, touched: seq<nat>, j: nat, s: seq<nat>, a: nat)
    requires Placed(ids, n, base) && k < BUCKETS && j < BUCKETS && j != k
    requires (forall x :: x in touched ==> x in ids) && (forall x :: x in s ==> x in ids && x !in touched)
    ensures H.InChain(a, Bucket(base, j), Chain(s)) ==> !H.InChain(a, Bucket(base, k), Chain(touched))
  {
    if InNodes(a, Chain(s)) {
      var y := NodeOwner(ids, n, base, s, a);
      if InNodes(a, Chain(touched)) {
        var x := NodeOwner(ids, n, base, touched, a);
        OneOwner(ids, n, base, x, y, a);
      }
    } else if InNodes(a, Chain(touched)) {
      var x := NodeOwner(ids, n, base, touched, a);
    }
  }

  lemma OneOwner(ids: set<nat>, n: nat, base: Addr, x: nat, y: nat, a: nat)
    requires Placed(ids, n, base) && x in ids && y in ids
    requires x <= a < x + DENTRY_WORDS && y <= a < y + DENTRY_WORDS
    ensures x == y
  {
  }

  /** The dentry a node word belongs to. */
  lemma NodeOwner(ids: set<nat>, n: nat, base: Addr, s: seq<nat>, a: nat) returns (x: nat)
    requires Placed(ids, n, base) && (forall x :: x in s ==> x in ids) && InNodes(a, Chain(s))
    ensures x in s && x + HNODE <= a <= x + HNODE + 1 && (a < base || base + BUCKETS <= a)
  {
    var i :| 0 <= i < |s| && (a == Chain(s)[i] || a == Chain(s)[i] as int + 1);
    x := s[i];
    assert Place(x, n, base);
    NodeIs(x, n, base);
  }

  /** A fresh dentry can join a chain. */
  lemma CanJoin(m: Mem, ids: set<nat>, base: Addr, k: nat, s: seq<nat>, id: nat)
    requires Placed(ids, |m|, base) && Fits(ids, |m|, base, id) && k < BUCKETS && forall x :: x in s ==> x in ids
    ensures H.Joins(m, Node(id), Bucket(base, k), Chain(s)) && Node(id) == id + HNODE
  {
    NodeIs(id, |m|, base);
    forall i | 0 <= i < |s|
      ensures Apart(Node(id), Chain(s)[i])
    {
      assert s[i] in ids;
      NodeIs(s[i], |m|, base);
      assert Clear(s[i], id);
    }
  }

  lemma ChainCons(id: nat, s: seq<nat>)
    ensures Chain([id] + s) == [Node(id)] + Chain(s)
  {
  }

  lemma ChainWithout(s: seq<nat>, j: nat)
    requires NoDup(s) && j < |s|
    ensures Chain(Without(s, s[j])) == Chain(s)[..j] + Chain(s)[j + 1..]
  {
    hide NoDup, Without;
    WithoutAt(s, j);
    ChainCut(s, j);
  }

  lemma ChainCut(s: seq<nat>, j: nat)
    requires j < |s|
    ensures Chain(s[..j] + s[j + 1..]) == Chain(s)[..j] + Chain(s)[j + 1..]
  {
    hide Node;
    var t, ns := s[..j] + s[j + 1..], Chain(s)[..j] + Chain(s)[j + 1..];
    var ts := Chain(t);
    assert |ts| == |t| == |ns|;
    forall i | 0 <= i < |t|
      ensures ts[i] == ns[i]
    {
      var k := if i < j then i else i + 1;
      assert t[i] == s[k] && ns[i] == Chain(s)[k];
    }
  }

  /** Which dentries a chain holds: those of the cache, each in one bucket. */
  ghost predicate Members(ids: set<nat>, buckets: seq<seq<nat>>) {
    && |buckets| == BUCKETS
    && (forall k, x :: 0 <= k < BUCKETS && x in buckets[k] ==> x in ids)
    && (forall k, j, x :: 0 <= k < BUCKETS && 0 <= j < BUCKETS && x in buckets[k] && x in buckets[j] ==> j == k)
  }

  lemma IndexedMembers(c: Cache)
    requires Indexed(c)
    ensures Members(c.entries.Keys, c.buckets) && forall k :: 0 <= k < BUCKETS ==> NoDup(c.buckets[k])
  {
    hide NoDup;
    forall k, x | 0 <= k < BUCKETS && x in c.buckets[k]
      ensures InBucket(c.entries, x, k)
    {
    }
  }

  /** One bucket changed: the others are as before. */
  lemma ChainedSet(m: Mem, m': Mem, ids: set<nat>, base: Addr, buckets: seq<seq<nat>>, k: nat, s: seq<nat>,
                   touched: seq<nat>)
    requires Placed(ids, |m|, base) && Chained(m, base, buckets) && |buckets| == BUCKETS && k < BUCKETS
    requires forall x :: x in touched ==> x in ids
    requires forall j, x :: 0 <= j < BUCKETS && j != k && x in buckets[j] ==> x in ids && x !in touched
    requires H.IsChain(m', Bucket(base, k), Chain(s)) && H.OnlyChain(m, m', Bucket(base, k), Chain(touched))
    ensures Chained(m', base, buckets[k := s])
  {
    hide H.IsChain, H.OnlyChain, Placed, Chain;
    forall j | 0 <= j < BUCKETS
      ensures H.IsChain(m', Bucket(base, j), Chain(buckets[k := s][j]))
    {
      if j != k {
        OtherChain(m, m', ids, base, k, touched, j, buckets[j]);
      }
    }
  }

  /** The buckets after the new dentry id heads bucket k. */
  lemma ChainedAdd(m: Mem, m': Mem, ids: set<nat>, base: Addr, buckets: seq<seq<nat>>, k: nat, id: nat)
    requires Placed(ids, |m|, base) && Fits(ids, |m|, base, id) && id !in ids && Members(ids, buckets) && k < BUCKETS
    requires Chained(m, base, buckets)
    requires H.IsChain(m', Bucket(base, k), [Node(id)] + Chain(buckets[k]))
    requires H.OnlyChain(m, m', Bucket(base, k), [Node(id)] + Chain(buckets[k]))
    ensures Chained(m', base, buckets[k := [id] + buckets[k]]) && Placed(ids + {id}, |m|, base)
  {
    hide H.IsChain, H.OnlyChain, Placed, Chain, Chained, Fits;
    PlacedMore(ids, |m|, base, id);
    ChainCons(id, buckets[k]);
    ChainedSet(m, m', ids + {id}, base, buckets, k, [id] + buckets[k], [id] + buckets[k]);
  }

  /** The buckets after dentry d, at position j of bucket k, has left. */
  lemma ChainedDel(m: Mem, m': Mem, ids: set<nat>, base: Addr, buckets: seq<seq<nat>>, k: nat, j: nat)
    requires Placed(ids, |m|, base) && Members(ids, buckets) && k < BUCKETS && j < |buckets[k]| && NoDup(buckets[k])
    requires Chained(m, base, buckets)
    requires H.IsChain(m', Bucket(base, k), Chain(buckets[k])[..j] + Chain(buckets[k])[j + 1..])
    requires H.OnlyChain(m, m', Bucket(base, k), Chain(buckets[k]))
    ensures Chained(m', base, buckets[k := Without(buckets[k], buckets[k][j])])
  {
    hide H.IsChain, H.OnlyChain, Placed, Chain, Chained, NoDup, Without;
    ChainWithout(buckets[k], j);
    ChainedSet(m, m', ids, base, buckets, k, Without(buckets[k], buckets[k][j]), buckets[k]);
  }

  /** The pointer to position i of bucket k, and the dentry it leads to. */
  lemma ChainWalk(m: Mem, ids: set<nat>, base: Addr, buckets: seq<seq<nat>>, k: nat, i: nat)
    requires Placed(ids, |m|, base) && Members(ids, buckets) && Chained(m, base, buckets) && k < BUCKETS
    requires i <= |buckets[k]|
    ensures base + k < |m| && m[base + k] == H.Pointer(Chain(buckets[k]), 0)
    ensures var p := H.Pointer(Chain(buckets[k]), i);
      && (p == 0 <==> i == |buckets[k]|)
      && (i < |buckets[k]| ==>
            && FromPtr(p) == buckets[k][i] + HNODE < |m|
            && m[buckets[k][i] + HNODE] == H.Pointer(Chain(buckets[k]), i + 1))
  {
    var s := buckets[k];
    assert H.IsChain(m, Bucket(base, k), Chain(s));
    assert H.ChainAt(m, Bucket(base, k), Chain(s), 0);
    if i < |s| {
      assert s[i] in ids;
      NodeIs(s[i], |m|, base);
      assert H.ChainAt(m, Bucket(base, k), Chain(s), i + 1);
    }
  }

  /** Empty buckets. */
  lemma EmptyChained(m: Mem, base: Addr, buckets: seq<seq<nat>>)
    requires base + BUCKETS <= |m| && base + BUCKETS <= DIRECT_WORDS && |buckets| == BUCKETS
    requires (forall k :: 0 <= k < BUCKETS ==> buckets[k] == [])
      && (forall a :: base <= a < base + BUCKETS ==> m[a] == 0)
    ensures Chained(m, base, buckets) && Placed({}, |m|, base)
  {
    forall k | 0 <= k < BUCKETS
      ensures H.IsChain(m, Bucket(base, k), Chain(buckets[k]))
    {
      assert buckets[k] == [] && m[base + k] == 0;
      assert H.ChainAt(m, Bucket(base, k), [], 0);
    }
  }

  // ------------------------------------------------------------- lists of children

  function Child(d: nat): Addr {
    if d + CHILD < DIRECT_WORDS then d + CHILD else 0
  }

  function Subdirs(d: nat): Addr {
    if d + SUBDIRS < DIRECT_WORDS then d + SUBDIRS else 0
  }

  function Children(s: seq<nat>): (ns: seq<Addr>)
    ensures |ns| == |s| && forall i :: 0 <= i < |s| ==> ns[i] == Child(s[i])
  {
    seq(|s|, i requires 0 <= i < |s| => Child(s[i]))
  }

  /** The children of every dentry are a list in memory. */
  ghost predicate Listed(m: Mem, es: Entries) {
    forall d :: d in es ==> IsList(m, Subdirs(d), Children(es[d].subdirs))
  }

  /** A word of the child node of one of `kids` or of the list head of one of `dirs`. */
  predicate LinkWord(a: nat, kids: set<nat>, dirs: set<nat>) {
    || (exists x :: x in kids && x + CHILD <= a <= x + CHILD + 1)
    || (exists x :: x in dirs && x + SUBDIRS <= a <= x + SUBDIRS + 1)
  }

  ghost predicate OnlyLinks(m: Mem, m': Mem, kids: set<nat>, dirs: set<nat>) {
    |m'| == |m| && forall a: nat :: a < |m| && !LinkWord(a, kids, dirs) ==> m'[a] == m[a]
  }

  lemma LinkNodes(ids: set<nat>, n: nat, base: Addr, d: nat)
    requires Placed(ids, n, base) && d in ids
    ensures Child(d) == d + CHILD && Subdirs(d) == d + SUBDIRS
    ensures d + DENTRY_WORDS <= n && d + DENTRY_WORDS <= DIRECT_WORDS
    ensures Apart(Child(d), Subdirs(d))
  {
    assert Place(d, n, base);
  }

  /** The dentry a word of a list belongs to. */
  lemma LinkOwner(ids: set<nat>, n: nat, base: Addr, d: nat, s: seq<nat>, a: nat) returns (x: nat)
    requires Placed(ids, n, base) && d in ids && (forall x :: x in s ==> x in ids)
    requires InNodes(a, [Subdirs(d)] + Children(s))
    ensures x in ids && (a < base || base + BUCKETS <= a)
    ensures (x in s && x + CHILD <= a <= x + CHILD + 1) || (x == d && x + SUBDIRS <= a <= x + SUBDIRS + 1)
  {
    var ns := [Subdirs(d)] + Children(s);
    var i :| 0 <= i < |ns| && (a == ns[i] || a == ns[i] as int + 1);
    x := if i == 0 then d else s[i - 1];
    assert i > 0 ==> ns[i] == Child(s[i - 1]) && s[i - 1] in s;
    LinkNodes(ids, n, base, x);
    assert Place(x, n, base);
  }

  /** Writes to the links of the lists leave the hash chains alone. */
  lemma LinksKeepChained(m: Mem, m': Mem, ids: set<nat>, base: Addr, kids: set<nat>, dirs: set<nat>,
                         buckets: seq<seq<nat>>)
    requires Placed(ids, |m|, base) && kids <= ids && dirs <= ids && OnlyLinks(m, m', kids, dirs)
    requires Members(ids, buckets) && Chained(m, base, buckets)
    ensures Chained(m', base, buckets)
  {
    hide H.IsChain, LinkWord, Chain;
    forall k | 0 <= k < |buckets|
      ensures H.IsChain(m', Bucket(base, k), Chain(buckets[k]))
    {
      forall a: nat | a < |m| && H.InChain(a, Bucket(base, k), Chain(buckets[k]))
        ensures !LinkWord(a, kids, dirs)
      {
        ChainNoLink(ids, |m|, base, kids, dirs, k, buckets[k], a);
      }
      H.ChainFrame(m, m', Bucket(base, k), Chain(buckets[k]));
    }
  }

  lemma ChainNoLink(ids: set<nat>, n: nat, base: Addr, kids: set<nat>, dirs: set<nat>, k: nat, s: seq<nat>, a: nat)
    requires Placed(ids, n, base) && kids <= ids && dirs <= ids && k < BUCKETS && (forall x :: x in s ==> x in ids)
    requires H.InChain(a, Bucket(base, k), Chain(s))
    ensures !LinkWord(a, kids, dirs)
  {
    hide Chain;
    var y := 0;
    if a != base + k {
      y := NodeOwner(ids, n, base, s, a);
    }
    forall x | x in ids && x + CHILD <= a < x + DENTRY_WORDS
      ensures false
    {
      assert Place(x, n, base);
      assert a != base + k;
      OneOwner(ids, n, base, x, y, a);
      assert false;
    }
  }

  /** .. and the lists of dentries whose links are not among them. */
  lemma LinksKeepList(m: Mem, m': Mem, ids: set<nat>, base: Addr, kids: set<nat>, dirs: set<nat>, d: nat, s: seq<nat>)
    requires Placed(ids, |m|, base) && kids <= ids && dirs <= ids && OnlyLinks(m, m', kids, dirs)
    requires d in ids && d !in dirs && forall x :: x in s ==> x in ids && x !in kids
    requires IsList(m, Subdirs(d), Children(s))
    ensures IsList(m', Subdirs(d), Children(s))
  {
    hide IsList, Children;
    forall a: nat | a < |m| && InNodes(a, [Subdirs(d)] + Children(s))
      ensures !LinkWord(a, kids, dirs)
    {
      var y := LinkOwner(ids, |m|, base, d, s, a);
      forall x | x in ids && x <= a < x + DENTRY_WORDS
        ensures x == y
      {
        OneOwner(ids, |m|, base, x, y, a);
      }
    }
    ListFrame(m, m', Subdirs(d), Children(s));
  }

  /** Writes to one bucket's chain leave the lists alone. */
  lemma ChainKeepsList(m: Mem, m': Mem, ids: set<nat>, base: Addr, k: nat, touched: seq<nat>, d: nat, s: seq<nat>)
    requires Placed(ids, |m|, base) && k < BUCKETS && d in ids && (forall x :: x in touched ==> x in ids)
    requires (forall x :: x in s ==> x in ids) && H.OnlyChain(m, m', Bucket(base, k), Chain(touched))
    requires IsList(m, Subdirs(d), Children(s))
    ensures IsList(m', Subdirs(d), Children(s))
  {
    hide IsList, Children, Chain;
    forall a: nat | a < |m| && InNodes(a, [Subdirs(d)] + Children(s))
      ensures !H.InChain(a, Bucket(base, k), Chain(touched))
    {
      var y := LinkOwner(ids, |m|, base, d, s, a);
      if InNodes(a, Chain(touched)) {
        var x := NodeOwner(ids, |m|, base, touched, a);
        OneOwner(ids, |m|, base, x, y, a);
        assert false;
      }
    }
    ListFrame(m, m', Subdirs(d), Children(s));
  }

  /** The children of a dentry are dentries of which it is the parent. */
  ghost predicate Kin(es: Entries) {
    forall d, x :: d in es && x in es[d].subdirs ==> x in es && es[x].parent == d
  }

  lemma TreeKin(es: Entries)
    requires Tree(es)
    ensures Kin(es)
  {
    forall d, x | d in es && x in es[d].subdirs
      ensures x in es && es[x].parent == d
    {
      assert Parents(es, d);
      assert IsChild(es, x, d);
    }
  }

  lemma ChainKeepsListed(m: Mem, m': Mem, ids: set<nat>, base: Addr, k: nat, touched: seq<nat>, es: Entries)
    requires Placed(ids, |m|, base) && k < BUCKETS && (forall x :: x in touched ==> x in ids) && es.Keys <= ids
    requires H.OnlyChain(m, m', Bucket(base, k), Chain(touched)) && Kin(es) && Listed(m, es)
    ensures Listed(m', es)
  {
    hide IsList, Children, Chain, H.OnlyChain, Placed;
    forall d | d in es
      ensures IsList(m', Subdirs(d), Children(es[d].subdirs))
    {
      ChainKeepsList(m, m', ids, base, k, touched, d, es[d].subdirs);
    }
  }

  /** list_head_init of the child node of a new dentry. */
  lemma ChildInit(m: Mem, m': Mem, ids: set<nat>, base: Addr, buckets: seq<seq<nat>>, es: Entries, id: nat)
    requires Placed(ids, |m|, base) && id in ids && id !in es && es.Keys <= ids && Kin(es) && Listed(m, es)
    requires Members(ids, buckets) && Chained(m, base, buckets) && OnlyLinks(m, m', {id}, {})
    ensures Chained(m', base, buckets) && Listed(m', es)
  {
    hide IsList, Children, Placed, Chained, Members, OnlyLinks;
    LinksKeepChained(m, m', ids, base, {id}, {}, buckets);
    forall d | d in es
      ensures IsList(m', Subdirs(d), Children(es[d].subdirs))
    {
      LinksKeepList(m, m', ids, base, {id}, {}, d, es[d].subdirs);
    }
  }

  /** The nodes of the list of p, with that of id. */
  ghost function Kids(es: Entries, p: nat, id: nat): set<nat>
    requires p in es
  {
    (set x | x in es[p].subdirs) + {id}
  }

  /** A new dentry's child node can join the list of its parent. */
  lemma CanLink(m: Mem, ids: set<nat>, base: Addr, es: Entries, p: nat, id: nat)
    requires Placed(ids, |m|, base) && id in ids && id !in es && es.Keys <= ids && Kin(es) && Listed(m, es) && p in es
    ensures var s := Children(es[p].subdirs);
      && IsList(m, Subdirs(p), s) && Subdirs(p) == p + SUBDIRS && Child(id) == id + CHILD
      && id + DENTRY_WORDS <= |m|
      && forall i :: 0 <= i < |s| + 1 ==> Apart(Child(id), ([Subdirs(p)] + s)[i])
  {
    hide IsList;
    var s := Children(es[p].subdirs);
    LinkNodes(ids, |m|, base, id);
    LinkNodes(ids, |m|, base, p);
    assert Clear(p, id);
    forall i | 0 <= i < |s|
      ensures Apart(Child(id), s[i])
    {
      var x := es[p].subdirs[i];
      assert x in es;
      LinkNodes(ids, |m|, base, x);
      assert Clear(x, id);
    }
  }

  /** list_add and list_del write links of the list only. */
  lemma NodesAreLinks(m: Mem, m': Mem, ids: set<nat>, base: Addr, es: Entries, p: nat, id: nat, ns: seq<Addr>)
    requires Placed(ids, |m|, base) && id in ids && es.Keys <= ids && Kin(es) && p in es && OnlyNodes(m, m', ns)
    requires forall i :: 0 <= i < |ns| ==>
      ns[i] == Child(id) || ns[i] == Subdirs(p) || ns[i] in Children(es[p].subdirs)
    ensures OnlyLinks(m, m', Kids(es, p, id), {p}) && Kids(es, p, id) <= ids
  {
    hide Placed;
    forall a: nat | InNodes(a, ns)
      ensures LinkWord(a, Kids(es, p, id), {p})
    {
      var i :| 0 <= i < |ns| && (a == ns[i] || a == ns[i] as int + 1);
      if ns[i] in Children(es[p].subdirs) {
        var j :| 0 <= j < |es[p].subdirs| && Children(es[p].subdirs)[j] == ns[i];
        LinkNodes(ids, |m|, base, es[p].subdirs[j]);
        assert es[p].subdirs[j] in Kids(es, p, id);
      } else {
        LinkNodes(ids, |m|, base, id);
        LinkNodes(ids, |m|, base, p);
        assert id in Kids(es, p, id);
      }
    }
  }

  /** The list of p changed, by id or by one of its own: chains and other lists are as before. */
  lemma OneListChanged(m: Mem, m': Mem, ids: set<nat>, base: Addr, buckets: seq<seq<nat>>, es: Entries, p: nat, id: nat)
    requires Placed(ids, |m|, base) && es.Keys <= ids && Kin(es) && Listed(m, es) && p in es
    requires id !in es || es[id].parent == p
    requires Members(ids, buckets) && Chained(m, base, buckets)
    requires OnlyLinks(m, m', Kids(es, p, id), {p}) && Kids(es, p, id) <= ids
    ensures Chained(m', base, buckets)
    ensures forall d :: d in es && d != p ==> IsList(m', Subdirs(d), Children(es[d].subdirs))
  {
    hide IsList, Children, Placed, Chained, Members, OnlyLinks;
    LinksKeepChained(m, m', ids, base, Kids(es, p, id), {p}, buckets);
    forall d | d in es && d != p
      ensures IsList(m', Subdirs(d), Children(es[d].subdirs))
    {
      assert forall x :: x in es[d].subdirs ==> x in es && es[x].parent == d;
      assert forall x :: x in es[p].subdirs ==> x in es && es[x].parent == p;
      LinksKeepList(m, m', ids, base, Kids(es, p, id), {p}, d, es[d].subdirs);
    }
  }

  lemma ChildrenCons(id: nat, s: seq<nat>)
    ensures Children([id] + s) == [Child(id)] + Children(s)
  {
  }

  lemma ChildrenCut(s: seq<nat>, j: nat)
    requires NoDup(s) && j < |s|
    ensures Children(Without(s, s[j])) == Children(s)[..j] + Children(s)[j + 1..]
  {
    hide NoDup, Without, Child;
    WithoutAt(s, j);
    var t, ns := s[..j] + s[j + 1..], Children(s)[..j] + Children(s)[j + 1..];
    var ts := Children(t);
    assert |ts| == |t| == |ns|;
    forall i | 0 <= i < |t|
      ensures ts[i] == ns[i]
    {
      var k := if i < j then i else i + 1;
      assert t[i] == s[k] && ns[i] == Children(s)[k];
    }
  }

  /** The lists after list_add of the new dentry id to the list of p .. */
  lemma ListedAdd(m: Mem, m': Mem, ids: set<nat>, base: Addr, buckets: seq<seq<nat>>, es: Entries, p: nat, id: nat)
    requires Placed(ids, |m|, base) && id in ids && id !in es && es.Keys <= ids && Kin(es)
    requires Listed(m, es) && p in es
    requires Members(ids, buckets) && Chained(m, base, buckets)
    requires var s := Children(es[p].subdirs);
      IsList(m', Subdirs(p), [Child(id)] + s) && OnlyNodes(m, m', [Child(id)] + [Subdirs(p)] + s)
    ensures Chained(m', base, buckets)
    ensures forall d :: d in es ==>
      IsList(m', Subdirs(d), Children(if d == p then [id] + es[d].subdirs else es[d].subdirs))
  {
    hide IsList, Placed, Chained, Members, Kin, OnlyLinks, OnlyNodes;
    NodesAreLinks(m, m', ids, base, es, p, id, [Child(id)] + [Subdirs(p)] + Children(es[p].subdirs));
    OneListChanged(m, m', ids, base, buckets, es, p, id);
    ChildrenCons(id, es[p].subdirs);
  }

  /** .. and after list_head_init of its own list. */
  lemma SubdirsInit(m: Mem, m': Mem, ids: set<nat>, base: Addr, buckets: seq<seq<nat>>, es: Entries, id: nat)
    requires Placed(ids, |m|, base) && id in es && es.Keys == ids && Kin(es) && es[id].subdirs == []
    requires forall d :: d in es && d != id ==> IsList(m, Subdirs(d), Children(es[d].subdirs))
    requires Members(ids, buckets) && Chained(m, base, buckets) && OnlyLinks(m, m', {}, {id})
    requires IsList(m', Subdirs(id), [])
    ensures Chained(m', base, buckets) && Listed(m', es)
  {
    hide IsList, Placed, Chained, Members, OnlyLinks;
    LinksKeepChained(m, m', ids, base, {}, {id}, buckets);
    assert Children([]) == [];
    forall d | d in es && d != id
      ensures IsList(m', Subdirs(d), Children(es[d].subdirs))
    {
      LinksKeepList(m, m', ids, base, {}, {id}, d, es[d].subdirs);
    }
  }

  /** The lists after list_del of dentry d, at position j of the list of its parent. */
  lemma ListedDel(m: Mem, m': Mem, ids: set<nat>, base: Addr, c: Cache, d: nat, j: nat)
    requires Placed(ids, |m|, base) && c.entries.Keys == ids && Kin(c.entries) && Listed(m, c.entries)
    requires Members(ids, c.buckets) && Chained(m, base, c.buckets) && |c.buckets| == BUCKETS
    requires d in c.entries && c.entries[d].parent in c.entries && c.entries[d].parent != d
    requires var s := c.entries[c.entries[d].parent].subdirs;
      && NoDup(s) && j < |s| && s[j] == d
      && IsList(m', Subdirs(c.entries[d].parent), Children(s)[..j] + Children(s)[j + 1..])
      && OnlyNodes(m, m', [Subdirs(c.entries[d].parent)] + Children(s))
    ensures Chained(m', base, c.buckets) && Listed(m', Remove(c, d).entries)
  {
    hide IsList, Placed, Chained, Members, Kin, OnlyLinks, OnlyNodes, Slot, NoDup, Without;
    var p := c.entries[d].parent;
    NodesAreLinks(m, m', ids, base, c.entries, p, d, [Subdirs(p)] + Children(c.entries[p].subdirs));
    OneListChanged(m, m', ids, base, c.buckets, c.entries, p, d);
    ChildrenCut(c.entries[p].subdirs, j);
  }

  /** Position i of the list of p: the pointer to it, and the dentry it leads to. */
  function ListPointer(es: Entries, p: nat, i: nat): Word
    requires p in es
  {
    if i < |es[p].subdirs| then ToPtr(Child(es[p].subdirs[i])) else ToPtr(Subdirs(p))
  }

  lemma ListWalk(m: Mem, ids: set<nat>, base: Addr, es: Entries, p: nat, i: nat)
    requires Placed(ids, |m|, base) && es.Keys == ids && Kin(es) && Listed(m, es) && p in es && i <= |es[p].subdirs|
    ensures p + DENTRY_WORDS <= |m| && p + DENTRY_WORDS <= DIRECT_WORDS && m[p + SUBDIRS] == ListPointer(es, p, 0)
    ensures ListPointer(es, p, i) == ToPtr(p + SUBDIRS) <==> i == |es[p].subdirs|
    ensures i < |es[p].subdirs| ==>
      var x := es[p].subdirs[i];
      && FromPtr(ListPointer(es, p, i)) == x + CHILD < |m| && m[x + CHILD] == ListPointer(es, p, i + 1)
  {
    var s := es[p].subdirs;
    var c := [Subdirs(p)] + Children(s) + [Subdirs(p)];
    LinkNodes(ids, |m|, base, p);
    assert IsList(m, Subdirs(p), Children(s));
    assert Link(m, c[0], c[1]);
    if i < |s| {
      LinkNodes(ids, |m|, base, s[i]);
      assert Link(m, c[i + 1], c[i + 1 + 1]);
      PtrRoundTrip(Child(s[i]));
      assert Apart(([Subdirs(p)] + Children(s))[0], ([Subdirs(p)] + Children(s))[i + 1]);
    }
  }
}
