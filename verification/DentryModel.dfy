/** The dentry cache as values: a tree of dentries, and hash buckets that index it. */
module DentryModel {
  import opened Bits
  import opened Option
  import opened Sequences

  const DCACHE_BITS := 12
  const BUCKETS := 4096
  const HASH_MAGIC: Word := 0x9E27_79B9_7F4A_7C15

  /** A byte of a name; the compiler's char is signed. */
  type Char = b: int | -128 <= b < 128

  type Name = seq<Char>

  /** A character widened to 64 bits, with its sign. */
  function Extended(c: Char): Word {
    if c >= 0 then c else W64 + c
  }

  /** The fold of dhash over the name. */
  function NameKey(name: Name): nat {
    if name == [] then 0 else Xor(NameKey(name[..|name| - 1]), Extended(name[|name| - 1]))
  }

  function Dhash(parent: nat, name: Name): nat {
    Xor(NameKey(name), parent)
  }

  /** hash */
  function Hash(key: nat, bits: nat): nat {
    And(key * HASH_MAGIC % W64, Pow2(bits) - 1)
  }

  /** The bucket of a name under a parent. */
  function Slot(parent: nat, name: Name): (k: nat)
    ensures k < BUCKETS
  {
    HashFits(Dhash(parent, name), DCACHE_BITS);
    assert Pow2(12) == BUCKETS;
    Hash(Dhash(parent, name), DCACHE_BITS)
  }

  lemma HashFits(key: nat, bits: nat)
    ensures Hash(key, bits) < Pow2(bits)
  {
    AndLow(key * HASH_MAGIC % W64, bits);
  }

  // ------------------------------------------------------------------- state

  /** struct dentry; a root is its own parent.  Dentries are identified by their address. */
  datatype Entry = Entry(name: Name, parent: nat, subdirs: seq<nat>, refs: int)

  type Entries = map<nat, Entry>

  datatype Cache = Cache(entries: Entries, buckets: seq<seq<nat>>)

  /** The test both searches of dlookup apply. */
  predicate Matches(es: Entries, x: nat, p: nat, n: Name) {
    x in es && es[x].name == n && es[x].parent == p
  }

  /** The dentries of s called n under p, in order. */
  function Matching(s: seq<nat>, es: Entries, p: nat, n: Name): seq<nat> {
    if s == [] then [] else (if Matches(es, s[0], p, n) then [s[0]] else []) + Matching(s[1..], es, p, n)
  }

  function First(s: seq<nat>): Option<nat> {
    if s == [] then None else Some(s[0])
  }

  /** The parent of d is there and has d among its children. */
  ghost predicate Linked(es: Entries, d: nat)
    requires d in es
  {
    es[d].parent in es && (es[d].parent != d ==> d in es[es[d].parent].subdirs)
  }

  /** The children of d, each once. */
  ghost predicate Parents(es: Entries, d: nat)
    requires d in es
  {
    NoDup(es[d].subdirs) && forall x :: x in es[d].subdirs ==> IsChild(es, x, d)
  }

  predicate IsChild(es: Entries, x: nat, d: nat) {
    x in es && es[x].parent == d && x != d
  }

  /** Children and parents know each other. */
  ghost predicate Tree(es: Entries) {
    && (forall d {:trigger Linked(es, d)} :: d in es ==> Linked(es, d))
    && (forall d {:trigger Parents(es, d)} :: d in es ==> Parents(es, d))
  }

  /** The buckets hold exactly the dentries that have a parent, each once, where its hash says. */
  ghost predicate Indexed(c: Cache) {
    && |c.buckets| == BUCKETS
    && (forall k :: 0 <= k < BUCKETS ==> NoDup(c.buckets[k]))
    && (forall k, x :: 0 <= k < BUCKETS ==>
          (x in c.buckets[k] <==> InBucket(c.entries, x, k)))
  }

  predicate InBucket(es: Entries, x: nat, k: nat) {
    x in es && es[x].parent != x && Slot(es[x].parent, es[x].name) == k
  }

  /** Both ways to search for n under p meet the same dentries in the same order. */
  ghost predicate Agrees(c: Cache, p: nat, n: Name)
    requires |c.buckets| == BUCKETS && p in c.entries
  {
    Matching(c.buckets[Slot(p, n)], c.entries, p, n) == Matching(c.entries[p].subdirs, c.entries, p, n)
  }

  ghost predicate Agreement(c: Cache)
    requires |c.buckets| == BUCKETS
  {
    forall p, n: Name :: p in c.entries ==> Agrees(c, p, n)
  }

  /** Each reference is a child's or one of the `held` ones outside; roots are held. */
  ghost predicate Counted(es: Entries, held: map<nat, nat>) {
    && held.Keys == es.Keys
    && forall d :: d in es ==> CountedAt(es[d], held[d], d)
  }

  predicate CountedAt(e: Entry, held: nat, d: nat) {
    e.refs == |e.subdirs| + held && e.refs > 0 && (e.parent == d ==> held > 0)
  }

  ghost predicate Good(c: Cache, held: map<nat, nat>) {
    Tree(c.entries) && Indexed(c) && Agreement(c) && Counted(c.entries, held)
  }

  // -------------------------------------------------------------- operations

  function WithRefs(c: Cache, d: nat, refs: int): Cache
    requires d in c.entries
  {
    c.(entries := c.entries[d := c.entries[d].(refs := refs)])
  }

  /** dalloc(p, n): a new dentry at address id. */
  function Add(c: Cache, p: nat, n: Name, id: nat): Cache
    requires p in c.entries && |c.buckets| == BUCKETS
  {
    var e := c.entries[p];
    var k := Slot(p, n);
    Cache(c.entries[p := e.(refs := e.refs + 1, subdirs := [id] + e.subdirs)][id := Entry(n, p, [], 1)],
          c.buckets[k := [id] + c.buckets[k]])
  }

  /** list_del, hlist_del and kfree: the dentry leaves the tree and its bucket. */
  function Remove(c: Cache, d: nat): Cache
    requires d in c.entries && c.entries[d].parent in c.entries && |c.buckets| == BUCKETS
  {
    var p, k := c.entries[d].parent, Slot(c.entries[d].parent, c.entries[d].name);
    var e := c.entries[p];
    Cache((c.entries - {d})[p := e.(subdirs := Without(e.subdirs, d))], c.buckets[k := Without(c.buckets[k], d)])
  }

  /** dput: a dentry that loses its last reference is deleted, and gives up the reference
      it had on its parent. */
  function Put(c: Cache, d: nat): (c': Cache)
    requires |c.buckets| == BUCKETS
    decreases |c.entries|, 1
  {
    if d !in c.entries then c
    else
      var c1 := WithRefs(c, d, c.entries[d].refs - 1);
      SameSize(c.entries, d, c1.entries);
      if c1.entries[d].refs != 0 then c1 else Delete(c1, d)
  }

  /** ddelete */
  function Delete(c: Cache, d: nat): (c': Cache)
    requires |c.buckets| == BUCKETS && d in c.entries
    decreases |c.entries|, 0
  {
    if c.entries[d].parent !in c.entries || c.entries[d].parent == d then c
    else
      Smaller(c, d);
      Put(Remove(c, d), c.entries[d].parent)
  }

  lemma SameSize(es: Entries, d: nat, es': Entries)
    requires d in es && es'.Keys == es.Keys
    ensures |es'| == |es|
  {
    assert |es'| == |es'.Keys| && |es| == |es.Keys|;
  }

  lemma Smaller(c: Cache, d: nat)
    requires d in c.entries && c.entries[d].parent in c.entries && c.entries[d].parent != d && |c.buckets| == BUCKETS
    ensures |Remove(c, d).entries| < |c.entries|
  {
    var es, es' := c.entries, Remove(c, d).entries;
    assert es'.Keys == es.Keys - {d};
    assert |es'| == |es'.Keys| && |es| == |es.Keys|;
  }

  // ---------------------------------------------------------------- matching

  lemma {:induction false} MatchingFrame(s: seq<nat>, es: Entries, es': Entries, p: nat, n: Name)
    requires forall x :: x in s ==> (Matches(es', x, p, n) <==> Matches(es, x, p, n))
    ensures Matching(s, es', p, n) == Matching(s, es, p, n)
  {
    if s != [] {
      assert s[0] in s;
      assert forall x :: x in s[1..] ==> x in s;
      MatchingFrame(s[1..], es, es', p, n);
    }
  }

  lemma {:induction false} MatchingNone(s: seq<nat>, es: Entries, p: nat, n: Name)
    requires forall x :: x in s ==> !Matches(es, x, p, n)
    ensures Matching(s, es, p, n) == []
  {
    if s != [] {
      assert s[0] in s;
      assert forall x :: x in s[1..] ==> x in s;
      MatchingNone(s[1..], es, p, n);
    }
  }

  lemma {:induction false} MatchingIn(s: seq<nat>, es: Entries, p: nat, n: Name, x: nat)
    ensures x in Matching(s, es, p, n) <==> x in s && Matches(es, x, p, n)
  {
    if s != [] {
      MatchingIn(s[1..], es, p, n, x);
      assert x in s <==> x == s[0] || x in s[1..];
    }
  }

  lemma {:induction false} WithoutAbsent(s: seq<nat>, d: nat)
    requires d !in s
    ensures Without(s, d) == s
  {
    if s != [] {
      assert d !in s[1..] && s[0] != d;
      WithoutAbsent(s[1..], d);
    }
  }

  lemma MatchingCons(x: nat, t: seq<nat>, es: Entries, p: nat, n: Name)
    ensures Matching([x] + t, es, p, n) == (if Matches(es, x, p, n) then [x] else []) + Matching(t, es, p, n)
  {
    assert ([x] + t)[1..] == t;
  }

  lemma WithoutCons(x: nat, t: seq<nat>, d: nat)
    ensures Without([x] + t, d) == if x == d then t else [x] + Without(t, d)
  {
    assert ([x] + t)[1..] == t;
  }

  /** Removing an element commutes with matching. */
  lemma {:induction false} MatchingWithout(s: seq<nat>, es: Entries, p: nat, n: Name, d: nat)
    ensures Matching(Without(s, d), es, p, n) == Without(Matching(s, es, p, n), d)
  {
    if s != [] {
      var x, t := s[0], s[1..];
      var r := Matching(t, es, p, n);
      assert s == [x] + t;
      MatchingCons(x, t, es, p, n);
      WithoutCons(x, t, d);
      WithoutCons(x, r, d);
      assert [] + r == r;
      if x == d {
        if !Matches(es, d, p, n) {
          MatchingIn(t, es, p, n, d);
          WithoutAbsent(r, d);
        }
      } else {
        MatchingWithout(t, es, p, n, d);
        MatchingCons(x, Without(t, d), es, p, n);
      }
    }
  }

  // ------------------------------------------------------------ the searches

  /** A bucket search finds exactly what a scan of the parent's children finds. */
  lemma SearchesAgree(c: Cache, held: map<nat, nat>, p: nat, n: Name)
    requires Good(c, held) && p in c.entries
    ensures First(Matching(c.buckets[Slot(p, n)], c.entries, p, n))
         == First(Matching(c.entries[p].subdirs, c.entries, p, n))
    ensures (exists x :: x in c.buckets[Slot(p, n)] && Matches(c.entries, x, p, n))
            <==> (exists x :: x in c.entries[p].subdirs && Matches(c.entries, x, p, n))
  {
    hide Tree, Counted, Matches, Matching;
    var b, s := c.buckets[Slot(p, n)], c.entries[p].subdirs;
    assert Agrees(c, p, n);
    forall x
      ensures x in b && Matches(c.entries, x, p, n) <==> x in s && Matches(c.entries, x, p, n)
    {
      MatchingIn(b, c.entries, p, n, x);
      MatchingIn(s, c.entries, p, n, x);
    }
  }

  /** What the first match of a list means: a dentry of that name and parent, or none in the list. */
  lemma FirstMatch(s: seq<nat>, es: Entries, p: nat, n: Name)
    ensures First(Matching(s, es, p, n)) == None <==> Matching(s, es, p, n) == []
    ensures match First(Matching(s, es, p, n))
            case Some(x) => x in s && x in es && es[x].name == n && es[x].parent == p
            case None => forall x :: x in s && x in es && es[x].parent == p ==> es[x].name != n
  {
    hide Matching;
    var r := Matching(s, es, p, n);
    if r != [] {
      MatchingIn(s, es, p, n, r[0]);
    }
    forall x
      ensures x in r <==> x in s && Matches(es, x, p, n)
    {
      MatchingIn(s, es, p, n, x);
    }
  }

  /** A bucket search misses no child of p with the name. */
  lemma BucketComplete(c: Cache, held: map<nat, nat>, p: nat, n: Name)
    requires Good(c, held)
    ensures |c.buckets| == BUCKETS
    ensures match First(Matching(c.buckets[Slot(p, n)], c.entries, p, n))
            case Some(x) => x in c.entries && c.entries[x].name == n && c.entries[x].parent == p && x != p
            case None => forall x :: x in c.entries && c.entries[x].parent == p && x != p ==> c.entries[x].name != n
  {
    hide Tree, Agreement, Counted, Matching, Slot;
    FirstMatch(c.buckets[Slot(p, n)], c.entries, p, n);
    forall x
      ensures x in c.buckets[Slot(p, n)] <==> InBucket(c.entries, x, Slot(p, n))
    {
    }
  }

  // ----------------------------------------------------------- adding a dentry

  lemma AddTree(c: Cache, p: nat, n: Name, id: nat)
    requires Tree(c.entries) && p in c.entries && id !in c.entries && |c.buckets| == BUCKETS
    ensures Tree(Add(c, p, n, id).entries)
  {
    var es, es' := c.entries, Add(c, p, n, id).entries;
    forall d | d in es'
      ensures Linked(es', d) && Parents(es', d)
    {
      if d == id {
        assert es'[id].subdirs == [] && es'[p].subdirs == [id] + es[p].subdirs;
        assert id in [id] + es[p].subdirs;
      } else {
        assert Linked(es, d) && Parents(es, d) && Linked(es, p) && Parents(es, p);
        assert es'[p].subdirs == [id] + es[p].subdirs && (d != p ==> es'[d].subdirs == es[d].subdirs);
        forall x | x in es'[d].subdirs
          ensures IsChild(es', x, d)
        {
          assert x == id || IsChild(es, x, d);
        }
        assert id !in es[p].subdirs by {
          assert !IsChild(es, id, p);
        }
        NoDupCons(id, es[p].subdirs);
      }
    }
  }

  lemma AddIndexed(c: Cache, p: nat, n: Name, id: nat)
    requires Indexed(c) && p in c.entries && id !in c.entries && forall x :: x in c.entries ==>
      c.entries[x].parent in c.entries
    ensures Indexed(Add(c, p, n, id))
  {
    hide Slot;
    var c', k0 := Add(c, p, n, id), Slot(p, n);
    forall k, x | 0 <= k < BUCKETS
      ensures x in c'.buckets[k] <==> InBucket(c'.entries, x, k)
    {
      assert x in c.buckets[k] <==> InBucket(c.entries, x, k);
      assert k == k0 ==> (x in [id] + c.buckets[k0] <==> x == id || x in c.buckets[k0]);
    }
    assert id !in c.buckets[k0] by {
      assert !InBucket(c.entries, id, k0);
    }
    NoDupCons(id, c.buckets[k0]);
  }

  lemma AddAgrees(c: Cache, p: nat, n: Name, id: nat, q: nat, m: Name)
    requires Tree(c.entries) && Indexed(c) && Agreement(c) && p in c.entries && id !in c.entries
    requires q in Add(c, p, n, id).entries
    ensures Agrees(Add(c, p, n, id), q, m)
  {
    hide Slot, Matching, Tree, Indexed, Agreement;
    BucketMembers(c, Slot(q, m));
    var c' := Add(c, p, n, id);
    var es, es', k := c.entries, c'.entries, Slot(q, m);
    if q == id {
      forall x | x in c'.buckets[k]
        ensures !Matches(es', x, id, m)
      {
        assert x == id || x in c.buckets[k];
      }
      MatchingNone(c'.buckets[k], es', id, m);
      MatchingNone([], es', id, m);
    } else {
      ChildMembers(c, q);
      MatchingFrame(c.buckets[k], es, es', q, m);
      MatchingFrame(es[q].subdirs, es, es', q, m);
      AgreesAt(c, q, m);
      MatchingCons(id, c.buckets[k], es', q, m);
      MatchingCons(id, es[q].subdirs, es', q, m);
      assert [] + Matching(c.buckets[k], es', q, m) == Matching(c.buckets[k], es', q, m);
      assert [] + Matching(es[q].subdirs, es', q, m) == Matching(es[q].subdirs, es', q, m);
    }
  }

  lemma AgreesAt(c: Cache, p: nat, n: Name)
    requires |c.buckets| == BUCKETS && Agreement(c) && p in c.entries
    ensures Matching(c.buckets[Slot(p, n)], c.entries, p, n) == Matching(c.entries[p].subdirs, c.entries, p, n)
  {
    assert Agrees(c, p, n);
  }

  lemma BucketMembers(c: Cache, k: nat)
    requires Indexed(c) && Tree(c.entries) && k < BUCKETS
    ensures |c.buckets| == BUCKETS && NoDup(c.buckets[k])
    ensures forall x :: x in c.buckets[k] ==>
      x in c.entries && c.entries[x].parent in c.entries && c.entries[x].parent != x
  {
    forall x | x in c.buckets[k]
      ensures x in c.entries && c.entries[x].parent in c.entries && c.entries[x].parent != x
    {
      assert InBucket(c.entries, x, k);
      assert Linked(c.entries, x);
    }
  }

  lemma ChildMembers(c: Cache, d: nat)
    requires Tree(c.entries) && d in c.entries
    ensures NoDup(c.entries[d].subdirs) && c.entries[d].parent in c.entries
    ensures c.entries[d].parent != d ==> d in c.entries[c.entries[d].parent].subdirs
    ensures forall x :: x in c.entries[d].subdirs ==> x in c.entries && c.entries[x].parent == d && x != d
  {
    assert Linked(c.entries, d) && Parents(c.entries, d);
  }

  lemma AddGood(c: Cache, held: map<nat, nat>, p: nat, n: Name, id: nat)
    requires Good(c, held) && p in c.entries && id !in c.entries
    ensures Good(Add(c, p, n, id), held[id := 1])
  {
    hide Slot, Matching, Tree, Indexed, Agrees, Counted;
    BucketMembers(c, Slot(p, n));
    var c' := Add(c, p, n, id);
    AddTree(c, p, n, id);
    forall x | x in c.entries
      ensures c.entries[x].parent in c.entries
    {
      ChildMembers(c, x);
    }
    AddIndexed(c, p, n, id);
    forall q, m: Name | q in c'.entries
      ensures Agrees(c', q, m)
    {
      AddAgrees(c, p, n, id, q, m);
    }
    AddCounted(c, held, p, n, id);
  }

  lemma AddCounted(c: Cache, held: map<nat, nat>, p: nat, n: Name, id: nat)
    requires Counted(c.entries, held) && p in c.entries && id !in c.entries && |c.buckets| == BUCKETS
    ensures Counted(Add(c, p, n, id).entries, held[id := 1])
  {
    hide Slot;
    var c' := Add(c, p, n, id);
    forall d | d in c'.entries
      ensures CountedAt(c'.entries[d], held[id := 1][d], d)
    {
      assert d != id ==> CountedAt(c.entries[d], held[d], d);
    }
  }

  // --------------------------------------------------------- removing a dentry

  /** d is a named dentry without children. */
  predicate Removable(c: Cache, d: nat) {
    d in c.entries && c.entries[d].parent in c.entries && c.entries[d].parent != d && c.entries[d].subdirs == []
  }

  lemma RemoveTree(c: Cache, d: nat)
    requires Tree(c.entries) && Removable(c, d) && |c.buckets| == BUCKETS
    ensures Tree(Remove(c, d).entries)
  {
    var es, es', p := c.entries, Remove(c, d).entries, c.entries[d].parent;
    assert Linked(es, d) && Parents(es, p);
    WithoutMeans(es[p].subdirs, d);
    forall x | x in es'
      ensures Linked(es', x) && Parents(es', x)
    {
      assert Linked(es, x) && Parents(es, x);
      var q := es[x].parent;
      assert Parents(es, q);
      ChildMembers(c, x);
      assert q != x ==> x in es'[q].subdirs;
      forall y | y in es'[x].subdirs
        ensures IsChild(es', y, x)
      {
        assert IsChild(es, y, x);
      }
    }
  }

  lemma RemoveIndexed(c: Cache, d: nat)
    requires Indexed(c) && Removable(c, d) && |c.buckets| == BUCKETS
    ensures Indexed(Remove(c, d))
    ensures forall k :: 0 <= k < BUCKETS ==> Remove(c, d).buckets[k] == Without(c.buckets[k], d)
  {
    hide Slot;
    var c', k0 := Remove(c, d), Slot(c.entries[d].parent, c.entries[d].name);
    forall k | 0 <= k < BUCKETS
      ensures NoDup(c'.buckets[k]) && c'.buckets[k] == Without(c.buckets[k], d)
      ensures forall x :: x in c'.buckets[k] <==> InBucket(c'.entries, x, k)
    {
      WithoutMeans(c.buckets[k], d);
      if k != k0 {
        assert d in c.buckets[k] <==> InBucket(c.entries, d, k);
        WithoutAbsent(c.buckets[k], d);
      }
      forall x
        ensures x in c'.buckets[k] <==> InBucket(c'.entries, x, k)
      {
        assert x in c.buckets[k] <==> InBucket(c.entries, x, k);
      }
    }
  }

  /** Removal takes d out of every list of children it could be in. */
  lemma RemovedChildren(c: Cache, d: nat, q: nat)
    requires Tree(c.entries) && Removable(c, d) && |c.buckets| == BUCKETS && q in Remove(c, d).entries
    ensures Remove(c, d).entries[q].subdirs == Without(c.entries[q].subdirs, d)
  {
    ChildMembers(c, q);
    if q != c.entries[d].parent {
      WithoutAbsent(c.entries[q].subdirs, d);
    }
  }

  lemma RemoveAgrees(c: Cache, d: nat, q: nat, m: Name)
    requires Tree(c.entries) && Indexed(c) && |c.buckets| == BUCKETS && Agreement(c) && Removable(c, d)
    requires q in Remove(c, d).entries
    ensures Agrees(Remove(c, d), q, m)
  {
    hide Slot, Matching, Tree, Indexed, Agreement;
    var c' := Remove(c, d);
    var es, es', k := c.entries, c'.entries, Slot(q, m);
    RemoveIndexed(c, d);
    RemovedChildren(c, d, q);
    BucketMembers(c, k);
    ChildMembers(c, q);
    var b, s := c.buckets[k], es[q].subdirs;
    WithoutMeans(b, d);
    WithoutMeans(s, d);
    MatchingFrame(Without(b, d), es, es', q, m);
    MatchingFrame(Without(s, d), es, es', q, m);
    MatchingWithout(b, es, q, m, d);
    MatchingWithout(s, es, q, m, d);
    AgreesAt(c, q, m);
  }

  // --------------------------------------------------------------- references

  /** Changing reference counts moves nothing. */
  lemma RefsMove(c: Cache, d: nat, refs: int)
    requires Tree(c.entries) && Indexed(c) && Agreement(c) && d in c.entries
    ensures var c' := WithRefs(c, d, refs); Tree(c'.entries) && Indexed(c') && Agreement(c')
  {
    hide Slot, Matching;
    var c' := WithRefs(c, d, refs);
    var es, es' := c.entries, c'.entries;
    forall x | x in es'
      ensures Linked(es', x) && Parents(es', x)
    {
      assert Linked(es, x) && Parents(es, x);
      forall y | y in es'[x].subdirs
        ensures IsChild(es', y, x)
      {
        assert IsChild(es, y, x);
      }
    }
    forall k, x | 0 <= k < BUCKETS
      ensures x in c'.buckets[k] <==> InBucket(es', x, k)
    {
      assert x in c.buckets[k] <==> InBucket(es, x, k);
    }
    forall p, n: Name | p in es'
      ensures Agrees(c', p, n)
    {
      AgreesAt(c, p, n);
      MatchingFrame(c.buckets[Slot(p, n)], es, es', p, n);
      MatchingFrame(es[p].subdirs, es, es', p, n);
    }
  }

  /** References after one of them on d was given up and only es' is left. */
  function Kept(held: map<nat, nat>, es': Entries, d: nat): map<nat, nat> {
    map x | x in held && x in es' :: if x == d && held[x] > 0 then held[x] - 1 else held[x]
  }

  /** Everything but the count of d, whose last reference is gone. */
  ghost predicate GoodBut(c: Cache, held: map<nat, nat>, d: nat) {
    && Tree(c.entries) && Indexed(c) && |c.buckets| == BUCKETS && Agreement(c) && held.Keys == c.entries.Keys
    && forall x :: x in c.entries && x != d ==> CountedAt(c.entries[x], held[x], x)
  }

  /** Removing d turns its reference on the parent into one held outside. */
  lemma RemoveGood(c: Cache, held: map<nat, nat>, d: nat)
    requires GoodBut(c, held, d) && Removable(c, d)
    ensures c.entries[d].parent in held && c.entries[d].parent in Remove(c, d).entries
    ensures Good(Remove(c, d), (held - {d})[c.entries[d].parent := held[c.entries[d].parent] + 1])
    ensures |Remove(c, d).buckets| == BUCKETS
    ensures Remove(c, d).entries[c.entries[d].parent].parent == c.entries[d].parent ==> held[c.entries[d].parent] > 0
  {
    hide Slot, Matching, Tree, Indexed;
    var c', p := Remove(c, d), c.entries[d].parent;
    RemoveTree(c, d);
    RemoveIndexed(c, d);
    forall q, m: Name | q in c'.entries
      ensures Agrees(c', q, m)
    {
      RemoveAgrees(c, d, q, m);
    }
    ChildMembers(c, d);
    ChildMembers(c, p);
    WithoutMeans(c.entries[p].subdirs, d);
    var held' := (held - {d})[p := held[p] + 1];
    forall x | x in c'.entries
      ensures CountedAt(c'.entries[x], held'[x], x)
    {
      assert CountedAt(c.entries[x], held[x], x);
    }
  }

  /** ddelete keeps the invariant, whatever chain of parents it takes along. */
  lemma {:induction false} DeleteGood(c: Cache, held: map<nat, nat>, d: nat)
    requires GoodBut(c, held, d) && Removable(c, d)
    ensures Good(Delete(c, d), Kept(held, Delete(c, d).entries, d)) && d !in Delete(c, d).entries
    ensures forall x :: x in Delete(c, d).entries ==> x in c.entries
    decreases |c.entries|, 0
  {
    hide Good, Remove;
    var p := c.entries[d].parent;
    RemoveGood(c, held, d);
    Smaller(c, d);
    var c1, held1 := Remove(c, d), (held - {d})[p := held[p] + 1];
    PutGood(c1, held1, p);
    var es' := Put(c1, p).entries;
    RemoveEntries(c, d);
    assert Kept(held1, es', p) == Kept(held, es', d);
  }

  lemma RemoveEntries(c: Cache, d: nat)
    requires Removable(c, d) && |c.buckets| == BUCKETS
    ensures Remove(c, d).entries.Keys == c.entries.Keys - {d}
  {
  }

  /** dput of a held reference keeps the invariant. */
  lemma {:induction false} PutGood(c: Cache, held: map<nat, nat>, d: nat)
    requires Good(c, held) && d in c.entries && held[d] > 0 && (c.entries[d].parent == d ==> held[d] > 1)
      && |c.buckets| == BUCKETS
    ensures Good(Put(c, d), Kept(held, Put(c, d).entries, d))
    ensures forall x :: x in Put(c, d).entries ==> x in c.entries
    decreases |c.entries|, 1
  {
    hide Slot, Matching, Tree, Indexed, Agreement, Counted, Delete;
    var c1 := WithRefs(c, d, c.entries[d].refs - 1);
    RefsMove(c, d, c.entries[d].refs - 1);
    SameSize(c.entries, d, c1.entries);
    PutCounted(c, held, d);
    if c1.entries[d].refs == 0 {
      ChildMembers(c, d);
      DeleteGood(c1, held, d);
    }
  }

  /** What dput does, told entry by entry: the dentry goes exactly when this was its last
      reference, else only its count changes; with it go only dentries nobody outside holds, and
      what is left keeps its name and parent. */
  lemma {:induction false} PutMeans(c: Cache, held: map<nat, nat>, d: nat)
    requires Good(c, held) && d in c.entries && held[d] > 0 && (c.entries[d].parent == d ==> held[d] > 1)
      && |c.buckets| == BUCKETS
    ensures var es, es' := c.entries, Put(c, d).entries;
      && (d in es' <==> es[d].refs != 1)
      && (d in es' ==> es' == es[d := es[d].(refs := es[d].refs - 1)] && Put(c, d).buckets == c.buckets)
      && (forall x :: x in es && x !in es' ==> x == d || held[x] == 0)
      && (forall x :: x in es' ==> x in es && es'[x].name == es[x].name && es'[x].parent == es[x].parent)
    decreases |c.entries|, 1
  {
    hide Slot, Matching, Tree, Indexed, Agreement, Counted, Delete;
    var c1 := WithRefs(c, d, c.entries[d].refs - 1);
    RefsMove(c, d, c.entries[d].refs - 1);
    SameSize(c.entries, d, c1.entries);
    PutCounted(c, held, d);
    if c1.entries[d].refs == 0 {
      ChildMembers(c, d);
      DeleteMeans(c1, held, d);
    }
  }

  lemma {:induction false} DeleteMeans(c: Cache, held: map<nat, nat>, d: nat)
    requires GoodBut(c, held, d) && Removable(c, d)
    ensures var es, es' := c.entries, Delete(c, d).entries;
      && d !in es'
      && (forall x :: x in es && x !in es' ==> x == d || held[x] == 0)
      && (forall x :: x in es' ==> x in es && es'[x].name == es[x].name && es'[x].parent == es[x].parent)
    decreases |c.entries|, 0
  {
    hide Good, Remove, Put, Tree, Indexed, Agreement;
    var p := c.entries[d].parent;
    RemoveGood(c, held, d);
    Smaller(c, d);
    RemoveEntries(c, d);
    RemoveFields(c, d);
    var c1, held1 := Remove(c, d), (held - {d})[p := held[p] + 1];
    PutMeans(c1, held1, p);
    GoodRefs(c1, held1, p);
  }

  lemma RemoveFields(c: Cache, d: nat)
    requires Removable(c, d) && |c.buckets| == BUCKETS
    ensures forall x :: x in Remove(c, d).entries ==>
      && x in c.entries && Remove(c, d).entries[x].name == c.entries[x].name
      && Remove(c, d).entries[x].parent == c.entries[x].parent
  {
    hide Slot, Without;
  }

  lemma GoodRefs(c: Cache, held: map<nat, nat>, d: nat)
    requires Good(c, held) && d in c.entries
    ensures d in held && c.entries[d].refs >= held[d]
  {
    hide Tree, Indexed, Agreement;
    assert CountedAt(c.entries[d], held[d], d);
  }

  lemma PutCounted(c: Cache, held: map<nat, nat>, d: nat)
    requires Counted(c.entries, held) && d in c.entries && held[d] > 0 && (c.entries[d].parent == d ==> held[d] > 1)
    ensures var c1 := WithRefs(c, d, c.entries[d].refs - 1);
      && (c1.entries[d].refs != 0 ==> Counted(c1.entries, Kept(held, c1.entries, d)))
      && (c1.entries[d].refs == 0 ==> c.entries[d].subdirs == [] && c.entries[d].parent != d)
      && held.Keys == c1.entries.Keys && forall x :: x in c1.entries && x != d ==> CountedAt(c1.entries[x], held[x], x)
  {
    var c1 := WithRefs(c, d, c.entries[d].refs - 1);
    var held' := Kept(held, c1.entries, d);
    assert CountedAt(c.entries[d], held[d], d);
    forall x | x in c1.entries
      ensures c1.entries[d].refs != 0 ==> CountedAt(c1.entries[x], held'[x], x)
      ensures x != d ==> CountedAt(c1.entries[x], held[x], x)
    {
      assert CountedAt(c.entries[x], held[x], x);
    }
  }

  /** A dentry that is added and put again leaves no trace. */
  lemma AddThenPut(c: Cache, held: map<nat, nat>, p: nat, n: Name, id: nat)
    requires Good(c, held) && p in c.entries && id !in c.entries && |c.buckets| == BUCKETS
    ensures Put(Add(c, p, n, id), id) == c
  {
    hide Slot, Matching, Tree, Indexed, Agreement;
    var c1 := Add(c, p, n, id);
    var k := Slot(p, n);
    assert CountedAt(c.entries[p], held[p], p);
    var c2 := WithRefs(c1, id, 0);
    var c3 := Remove(c2, id);
    WithoutCons(id, c.buckets[k], id);
    WithoutCons(id, c.entries[p].subdirs, id);
    var back := WithRefs(c3, p, c3.entries[p].refs - 1);
    assert back.buckets == c.buckets;
    assert back.entries == c.entries;
    assert Put(c3, p) == back;
    assert Delete(c2, id) == Put(c3, p);
  }

  /** One more reference held outside. */
  lemma HoldGood(c: Cache, held: map<nat, nat>, d: nat)
    requires Good(c, held) && d in c.entries
    ensures d in held && Good(WithRefs(c, d, c.entries[d].refs + 1), held[d := held[d] + 1])
  {
    hide Slot, Matching, Tree, Indexed, Agreement;
    RefsMove(c, d, c.entries[d].refs + 1);
    var c', held' := WithRefs(c, d, c.entries[d].refs + 1), held[d := held[d] + 1];
    forall x | x in c'.entries
      ensures CountedAt(c'.entries[x], held'[x], x)
    {
      assert CountedAt(c.entries[x], held[x], x);
    }
  }

  // -------------------------------------------------------------------- roots

  /** dalloc(NULL, NULL) */
  function AddRoot(c: Cache, id: nat): Cache {
    c.(entries := c.entries[id := Entry([], id, [], 1)])
  }

  lemma RootTree(c: Cache, id: nat)
    requires Tree(c.entries) && id !in c.entries
    ensures Tree(AddRoot(c, id).entries)
  {
    var es, es' := c.entries, AddRoot(c, id).entries;
    forall d | d in es'
      ensures Linked(es', d) && Parents(es', d)
    {
      if d != id {
        assert Linked(es, d) && Parents(es, d);
        forall x | x in es'[d].subdirs
          ensures IsChild(es', x, d)
        {
          assert IsChild(es, x, d);
        }
      }
    }
  }

  lemma RootAgrees(c: Cache, id: nat, q: nat, m: Name)
    requires Tree(c.entries) && Indexed(c) && Agreement(c) && id !in c.entries && q in AddRoot(c, id).entries
    ensures Agrees(AddRoot(c, id), q, m)
  {
    hide Slot, Matching, Tree, Agreement;
    var es, es', k := c.entries, AddRoot(c, id).entries, Slot(q, m);
    BucketMembers(c, k);
    if q == id {
      MatchingNone(c.buckets[k], es', id, m);
      MatchingNone([], es', id, m);
    } else {
      ChildMembers(c, q);
      MatchingFrame(c.buckets[k], es, es', q, m);
      MatchingFrame(es[q].subdirs, es, es', q, m);
      AgreesAt(c, q, m);
    }
  }

  lemma RootGood(c: Cache, held: map<nat, nat>, id: nat)
    requires Good(c, held) && id !in c.entries
    ensures Good(AddRoot(c, id), held[id := 1])
  {
    hide Slot, Matching, Tree, Agrees;
    var c', held' := AddRoot(c, id), held[id := 1];
    RootTree(c, id);
    forall k, x | 0 <= k < BUCKETS
      ensures x in c'.buckets[k] <==> InBucket(c'.entries, x, k)
    {
      assert x in c.buckets[k] <==> InBucket(c.entries, x, k);
    }
    forall q, m: Name | q in c'.entries
      ensures Agrees(c', q, m)
    {
      RootAgrees(c, id, q, m);
    }
    forall x | x in c'.entries
      ensures CountedAt(c'.entries[x], held'[x], x)
    {
      assert x != id ==> CountedAt(c.entries[x], held[x], x);
    }
  }

  lemma EmptyGood(c: Cache)
    requires c.entries == map[] && |c.buckets| == BUCKETS && forall k :: 0 <= k < BUCKETS ==> c.buckets[k] == []
    ensures Good(c, map[])
  {
  }
}
