/** The hash chains of hashtable.h, as nodes in word-addressed memory.

    A bucket is one word, the pointer to the first node.  A node at word a keeps `next` in
    word a and `pprev`, the address of the pointer that leads to it, in word a + 1. */
module Hlist {
  import opened Bits
  import opened PageTables
  import opened Lists

  /** Where the pointer to node i is stored. */
  function Slot(h: Addr, s: seq<Addr>, i: nat): Addr
    requires i <= |s|
  {
    if i == 0 then h else s[i - 1]
  }

  /** The pointer to node i, NULL past the end. */
  function Pointer(s: seq<Addr>, i: nat): Word {
    if i < |s| then ToPtr(s[i]) else 0
  }

  /** The bucket and the nodes share no word. */
  ghost predicate Placed(m: Mem, h: Addr, s: seq<Addr>) {
    && h < |m| && AllApart(s)
    && forall i :: 0 <= i < |s| ==> Room(m, s[i]) && h != s[i] && h != s[i] as int + 1
  }

  /** Pointer number i and the back pointer of the node it leads to. */
  ghost predicate ChainAt(m: Mem, h: Addr, s: seq<Addr>, i: nat)
    requires i <= |s|
  {
    && Slot(h, s, i) < |m| && m[Slot(h, s, i)] == Pointer(s, i)
    && (i < |s| ==> Room(m, s[i]) && m[s[i] + 1] == ToPtr(Slot(h, s, i)))
  }

  /** Bucket h chains the nodes s, the first of them in front. */
  ghost predicate IsChain(m: Mem, h: Addr, s: seq<Addr>) {
    Placed(m, h, s) && forall i :: 0 <= i <= |s| ==> ChainAt(m, h, s, i)
  }

  /** Word a is the bucket or belongs to a node of the chain. */
  predicate InChain(a: nat, h: Addr, s: seq<Addr>) {
    a == h || InNodes(a, s)
  }

  ghost predicate OnlyChain(m: Mem, m': Mem, h: Addr, s: seq<Addr>) {
    |m'| == |m| && forall a: nat :: a < |m| && !InChain(a, h, s) ==> m'[a] == m[a]
  }

  /** Node `node` can join the chain. */
  ghost predicate Joins(m: Mem, node: Addr, h: Addr, s: seq<Addr>) {
    && Room(m, node) && h != node && h != node as int + 1
    && forall i :: 0 <= i < |s| ==> Apart(node, s[i])
  }

  /** m' is m with at most the words `touched` changed. */
  ghost predicate Touches(m: Mem, m': Mem, touched: seq<int>) {
    |m'| == |m| && forall a :: 0 <= a < |m| && a !in touched ==> m'[a] == m[a]
  }

  /** A chain reads nothing but its bucket and its nodes. */
  lemma ChainFrame(m: Mem, m': Mem, h: Addr, s: seq<Addr>)
    requires IsChain(m, h, s) && |m'| == |m|
    requires forall a: nat :: a < |m| && InChain(a, h, s) ==> m'[a] == m[a]
    ensures IsChain(m', h, s)
  {
    forall i | 0 <= i <= |s|
      ensures ChainAt(m', h, s, i)
    {
      assert ChainAt(m, h, s, i);
      assert i > 0 ==> InNodes(s[i - 1], s);
      assert i < |s| ==> InNodes(s[i] as int + 1, s);
    }
  }

  // ---------------------------------------------------------------- insertion

  /** The words hlist_add_head writes. */
  function AddWords(node: Addr, h: Addr, s: seq<Addr>): seq<int> {
    [node, node as int + 1, h] + if |s| > 0 then [s[0] as int + 1] else []
  }

  ghost predicate Added(m: Mem, m': Mem, node: Addr, h: Addr, s: seq<Addr>) {
    && Touches(m, m', AddWords(node, h, s)) && Room(m', node) && h < |m'|
    && m'[node] == Pointer(s, 0) && m'[node + 1] == ToPtr(h) && m'[h] == ToPtr(node)
    && (|s| > 0 ==> Room(m', s[0]) && m'[s[0] + 1] == ToPtr(node))
  }

  lemma AddedPlaced(m: Mem, m': Mem, node: Addr, h: Addr, s: seq<Addr>)
    requires Placed(m, h, s) && Joins(m, node, h, s) && |m'| == |m|
    ensures Placed(m', h, [node] + s)
  {
    var t := [node] + s;
    forall i, j | 0 <= i < j < |t|
      ensures Apart(t[i], t[j])
    {
      assert t[j] == s[j - 1] && (i > 0 ==> t[i] == s[i - 1]);
    }
  }

  /** Slot i + 1 and the back pointer of node i + 1 are those of i in the old chain. */
  lemma AddedKeeps(m: Mem, m': Mem, node: Addr, h: Addr, s: seq<Addr>, i: nat)
    requires IsChain(m, h, s) && Joins(m, node, h, s) && Added(m, m', node, h, s) && 0 < i <= |s|
    ensures m'[s[i - 1]] == Pointer(s, i)
    ensures i < |s| ==> m'[s[i] + 1] == ToPtr(s[i - 1])
  {
    assert ChainAt(m, h, s, i);
    assert Apart(node, s[i - 1]) && (i > 1 ==> Apart(s[0], s[i - 1]));
    if i < |s| {
      assert Apart(node, s[i]) && Apart(s[0], s[i]);
    }
  }

  lemma AddedAt(m: Mem, m': Mem, node: Addr, h: Addr, s: seq<Addr>, i: nat)
    requires IsChain(m, h, s) && Joins(m, node, h, s) && Added(m, m', node, h, s) && i <= |s| + 1
    ensures ChainAt(m', h, [node] + s, i)
  {
    hide Touches, IsChain;
    var t := [node] + s;
    if i >= 2 {
      AddedKeeps(m, m', node, h, s, i - 1);
      AddedRoom(m, h, s);
      AddedLength(m, m', node, h, s);
      assert t[i - 1] == s[i - 2] && (i < |t| ==> t[i] == s[i - 1]);
    } else if i == 1 && |s| > 0 {
      assert t[1] == s[0];
    }
  }

  lemma AddedRoom(m: Mem, h: Addr, s: seq<Addr>)
    requires IsChain(m, h, s)
    ensures forall i :: 0 <= i < |s| ==> Room(m, s[i])
  {
  }

  lemma AddedOnly(m: Mem, m': Mem, node: Addr, h: Addr, s: seq<Addr>)
    requires Added(m, m', node, h, s)
    ensures OnlyChain(m, m', h, [node] + s)
  {
    var t := [node] + s;
    assert t[0] == node && (|s| > 0 ==> t[1] == s[0]);
    forall a: nat | a < |m| && !InChain(a, h, t)
      ensures m'[a] == m[a]
    {
      assert a !in AddWords(node, h, s);
    }
  }

  lemma AddedChain(m: Mem, m': Mem, node: Addr, h: Addr, s: seq<Addr>)
    requires IsChain(m, h, s) && Joins(m, node, h, s) && Added(m, m', node, h, s)
    ensures IsChain(m', h, [node] + s) && OnlyChain(m, m', h, [node] + s)
  {
    hide Joins, Added, ChainAt, OnlyChain, Placed;
    AddedPlaced(m, m', node, h, s) by {
      AddedLength(m, m', node, h, s);
    }
    AddedOnly(m, m', node, h, s);
    forall i | 0 <= i <= |[node] + s|
      ensures ChainAt(m', h, [node] + s, i)
    {
      AddedAt(m, m', node, h, s, i);
    }
  }

  lemma AddedLength(m: Mem, m': Mem, node: Addr, h: Addr, s: seq<Addr>)
    requires Added(m, m', node, h, s)
    ensures |m'| == |m|
  {
  }

  /** hlist_add_head: the node becomes the first of the chain. */
  method HlistAddHead(ram: array<Word>, node: Addr, h: Addr, ghost s: seq<Addr>)
    requires IsChain(ram[..], h, s) && Joins(ram[..], node, h, s)
    modifies ram
    ensures IsChain(ram[..], h, [node] + s)
    ensures OnlyChain(old(ram[..]), ram[..], h, [node] + s)
  {
    hide IsChain, Joins, OnlyChain;
    ghost var m := ram[..];
    BeforeAdd(m, node, h, s);
    var first := ram[h];
    ram[node] := first;
    ram[node + 1] := ToPtr(h);
    ram[h] := ToPtr(node);
    if first != 0 {
      ram[FromPtr(first) + 1] := ToPtr(node);
    }
    AddedChain(m, ram[..], node, h, s);
  }

  lemma BeforeAdd(m: Mem, node: Addr, h: Addr, s: seq<Addr>)
    requires IsChain(m, h, s) && Joins(m, node, h, s)
    ensures Room(m, node) && h < |m| && h != node && h != node as int + 1 && m[h] == Pointer(s, 0)
    ensures |s| > 0 ==> Room(m, s[0]) && FromPtr(m[h]) == s[0] && Apart(node, s[0]) && h != s[0] as int + 1
  {
    assert ChainAt(m, h, s, 0);
    if |s| > 0 {
      PtrRoundTrip(s[0]);
    }
  }

  // ----------------------------------------------------------------- deletion

  /** The words hlist_del writes. */
  function DelWords(h: Addr, s: seq<Addr>, j: nat): seq<int>
    requires j < |s|
  {
    [Slot(h, s, j) as int] + if j + 1 < |s| then [s[j + 1] as int + 1] else []
  }

  ghost predicate Removed(m: Mem, m': Mem, h: Addr, s: seq<Addr>, j: nat)
    requires j < |s|
  {
    && Touches(m, m', DelWords(h, s, j)) && Slot(h, s, j) < |m'| && m'[Slot(h, s, j)] == Pointer(s, j + 1)
    && (j + 1 < |s| ==> Room(m', s[j + 1]) && m'[s[j + 1] + 1] == ToPtr(Slot(h, s, j)))
  }

  lemma RemovedPlaced(m: Mem, m': Mem, h: Addr, s: seq<Addr>, j: nat)
    requires Placed(m, h, s) && j < |s| && |m'| == |m|
    ensures Placed(m', h, s[..j] + s[j + 1..])
  {
    var t := s[..j] + s[j + 1..];
    forall i | 0 <= i < |t|
      ensures t[i] == s[if i < j then i else i + 1]
    {
    }
  }

  lemma RemovedKeeps(m: Mem, m': Mem, h: Addr, s: seq<Addr>, j: nat, k: nat)
    requires IsChain(m, h, s) && j < |s| && Removed(m, m', h, s, j) && k <= |s|
    ensures Slot(h, s, k) < |m'| && (k != j ==> m'[Slot(h, s, k)] == Pointer(s, k))
    ensures k < |s| && k != j + 1 ==> Room(m', s[k]) && m'[s[k] + 1] == ToPtr(Slot(h, s, k))
  {
    assert ChainAt(m, h, s, k);
    SlotsApart(m, h, s, k, j);
    if k < |s| {
      PrevsApart(m, h, s, k, j);
    }
  }

  lemma RemovedAt(m: Mem, m': Mem, h: Addr, s: seq<Addr>, j: nat, i: nat)
    requires IsChain(m, h, s) && j < |s| && Removed(m, m', h, s, j) && i < |s|
    ensures ChainAt(m', h, s[..j] + s[j + 1..], i)
  {
    hide Touches, IsChain;
    var t := s[..j] + s[j + 1..];
    var k := if i < j then i else i + 1;
    RemovedKeeps(m, m', h, s, j, k);
    assert Pointer(t, i) == Pointer(s, k) && (i < |t| ==> t[i] == s[k]);
    assert Slot(h, t, i) == Slot(h, s, if i <= j then i else i + 1);
  }

  lemma RemovedOnly(m: Mem, m': Mem, h: Addr, s: seq<Addr>, j: nat)
    requires j < |s| && Removed(m, m', h, s, j)
    ensures OnlyChain(m, m', h, s)
  {
    assert j + 1 < |s| ==> InNodes(s[j + 1] as int + 1, s);
    assert j > 0 ==> InNodes(s[j - 1], s);
    forall a: nat | a < |m| && !InChain(a, h, s)
      ensures m'[a] == m[a]
    {
      assert a !in DelWords(h, s, j);
    }
  }

  lemma RemovedChain(m: Mem, m': Mem, h: Addr, s: seq<Addr>, j: nat)
    requires IsChain(m, h, s) && j < |s| && Removed(m, m', h, s, j)
    ensures IsChain(m', h, s[..j] + s[j + 1..]) && OnlyChain(m, m', h, s)
  {
    hide Removed, ChainAt, OnlyChain, Placed;
    RemovedOnly(m, m', h, s, j);
    OnlyLength(m, m', h, s);
    RemovedPlaced(m, m', h, s, j);
    var t := s[..j] + s[j + 1..];
    forall i | 0 <= i <= |t|
      ensures ChainAt(m', h, t, i)
    {
      RemovedAt(m, m', h, s, j, i);
    }
  }

  lemma OnlyLength(m: Mem, m': Mem, h: Addr, s: seq<Addr>)
    requires OnlyChain(m, m', h, s)
    ensures |m'| == |m|
  {
  }

  /** hlist_del: exactly the node at position j leaves the chain. */
  method HlistDel(ram: array<Word>, node: Addr, ghost h: Addr, ghost s: seq<Addr>, ghost j: nat)
    requires IsChain(ram[..], h, s) && j < |s| && s[j] == node
    modifies ram
    ensures IsChain(ram[..], h, s[..j] + s[j + 1..])
    ensures OnlyChain(old(ram[..]), ram[..], h, s)
  {
    hide IsChain, OnlyChain;
    ghost var m := ram[..];
    BeforeDel(m, h, s, j);
    var next, back := ram[node], ram[node + 1];
    ram[FromPtr(back)] := next;
    if next != 0 {
      ram[FromPtr(next) + 1] := back;
    }
    RemovedChain(m, ram[..], h, s, j);
  }

  lemma BeforeDel(m: Mem, h: Addr, s: seq<Addr>, j: nat)
    requires IsChain(m, h, s) && j < |s|
    ensures Room(m, s[j]) && m[s[j]] == Pointer(s, j + 1) && m[s[j] + 1] == ToPtr(Slot(h, s, j))
    ensures Slot(h, s, j) < |m| && FromPtr(m[s[j] + 1]) == Slot(h, s, j)
    ensures j + 1 < |s| ==> Room(m, s[j + 1]) && FromPtr(m[s[j]]) == s[j + 1] && Slot(h, s, j) != s[j + 1] as int + 1
  {
    assert ChainAt(m, h, s, j) && ChainAt(m, h, s, j + 1);
    PtrRoundTrip(Slot(h, s, j));
    SlotsApart(m, h, s, j, j);
    if j + 1 < |s| {
      PtrRoundTrip(s[j + 1]);
    }
  }

  /** The two words a deletion writes are no other slot .. */
  lemma SlotsApart(m: Mem, h: Addr, s: seq<Addr>, k: nat, j: nat)
    requires Placed(m, h, s) && j < |s| && k <= |s|
    ensures k != j ==> Slot(h, s, k) != Slot(h, s, j)
    ensures j + 1 < |s| ==> Slot(h, s, k) != s[j + 1] as int + 1
  {
    if k > 0 && j > 0 && k != j {
      var x, y := if k < j then k - 1 else j - 1, if k < j then j - 1 else k - 1;
      assert Apart(s[x], s[y]);
    }
    if k > 0 && j + 1 < |s| && k - 1 != j + 1 {
      var x, y := if k - 1 < j + 1 then k - 1 else j + 1, if k - 1 < j + 1 then j + 1 else k - 1;
      assert Apart(s[x], s[y]);
    }
  }

  /** .. and no other back pointer. */
  lemma PrevsApart(m: Mem, h: Addr, s: seq<Addr>, k: nat, j: nat)
    requires Placed(m, h, s) && j < |s| && k < |s|
    ensures s[k] as int + 1 != Slot(h, s, j)
    ensures j + 1 < |s| && k != j + 1 ==> s[k] != s[j + 1]
  {
    if j > 0 && k != j - 1 {
      var x, y := if k < j - 1 then k else j - 1, if k < j - 1 then j - 1 else k;
      assert Apart(s[x], s[y]);
    }
    if j + 1 < |s| && k != j + 1 {
      var x, y := if k < j + 1 then k else j + 1, if k < j + 1 then j + 1 else k;
      assert Apart(s[x], s[y]);
    }
  }
}
