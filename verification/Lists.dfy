/** The intrusive circular list of list.h, as nodes in word-addressed memory.

    A node at word a keeps its next pointer in word a and its prev pointer in word
    a + 1.  Pointers are virtual addresses of the direct map. */
module Lists {
  import opened Bits
  import opened PageTables

  const VASL_VIRTUAL_BASE := 0xFFFF_FF80_0000_0000

  /** Words of physical memory the direct map can reach (512 GiB). */
  const DIRECT_WORDS := 0x10_0000_0000

  type Addr = a: int | 0 <= a < DIRECT_WORDS

  /** p_to_v of the byte address of word a. */
  function ToPtr(a: Addr): Word {
    VASL_VIRTUAL_BASE + 8 * a
  }

  /** v_to_p */
  function FromPtr(w: Word): (a: Addr) {
    if w < VASL_VIRTUAL_BASE then 0 else (w - VASL_VIRTUAL_BASE) / 8
  }

  lemma PtrRoundTrip(a: Addr)
    ensures FromPtr(ToPtr(a)) == a
  {
  }

  predicate Room(m: Mem, a: Addr) {
    a + 1 < |m|
  }

  function Next(m: Mem, a: Addr): Addr
    requires Room(m, a)
  {
    FromPtr(m[a])
  }

  function Prev(m: Mem, a: Addr): Addr
    requires Room(m, a)
  {
    FromPtr(m[a + 1])
  }

  /** Link a forward to b. */
  function SetNext(m: Mem, a: Addr, b: Addr): (m': Mem)
    requires Room(m, a)
    ensures |m'| == |m|
  {
    m[a := ToPtr(b)]
  }

  /** Link a back to b. */
  function SetPrev(m: Mem, a: Addr, b: Addr): (m': Mem)
    requires Room(m, a)
    ensures |m'| == |m|
  {
    m[a + 1 := ToPtr(b)]
  }

  // -------------------------------------------------------------- abstraction

  /** Two nodes share no word. */
  predicate Apart(a: Addr, b: Addr) {
    a + 1 < b || b + 1 < a
  }

  /** Each node of c is linked to the one after it, both ways. */
  ghost predicate Linked(m: Mem, c: seq<Addr>) {
    forall i :: 0 <= i < |c| - 1 ==> Link(m, c[i], c[i + 1])
  }

  ghost predicate Link(m: Mem, a: Addr, b: Addr) {
    Room(m, a) && Room(m, b) && m[a] == ToPtr(b) && m[b + 1] == ToPtr(a)
  }

  ghost predicate AllApart(ns: seq<Addr>) {
    forall i, j :: 0 <= i < j < |ns| ==> Apart(ns[i], ns[j])
  }

  /** The list with sentinel h holds the nodes s, front first. */
  ghost predicate IsList(m: Mem, h: Addr, s: seq<Addr>) {
    AllApart([h] + s) && Linked(m, [h] + s + [h])
  }

  /** Word a belongs to a node of ns. */
  predicate InNodes(a: nat, ns: seq<Addr>) {
    exists i :: 0 <= i < |ns| && (a == ns[i] || a == ns[i] as int + 1)
  }

  /** m' differs from m only in words of the nodes ns. */
  ghost predicate OnlyNodes(m: Mem, m': Mem, ns: seq<Addr>) {
    |m'| == |m| && forall a: nat :: a < |m| && !InNodes(a, ns) ==> m'[a] == m[a]
  }

  /** A list reads nothing but its own nodes. */
  lemma ListFrame(m: Mem, m': Mem, h: Addr, s: seq<Addr>)
    requires IsList(m, h, s) && |m'| == |m|
    requires forall a: nat :: a < |m| && InNodes(a, [h] + s) ==> m'[a] == m[a]
    ensures IsList(m', h, s)
  {
    var c := [h] + s + [h];
    forall i | 0 <= i < |c| - 1
      ensures Link(m', c[i], c[i + 1])
    {
      var ns := [h] + s;
      assert Link(m, c[i], c[i + 1]);
      var j := if i + 1 < |ns| then i + 1 else 0;
      assert c[i] == ns[i] && c[i + 1] == ns[j];
      assert InNodes(c[i], ns) && InNodes(c[i + 1] as int + 1, ns);
    }
  }

  // ---------------------------------------------------------------- insertion

  /** _list_add: nothing happens unless prev and next are neighbours. */
  function Add(m: Mem, new_: Addr, prev: Addr, next: Addr): (m': Mem)
    requires Room(m, new_) && Room(m, prev) && Room(m, next)
    ensures |m'| == |m|
  {
    if Prev(m, next) != prev || Next(m, prev) != next then m
    else SetPrev(SetNext(SetPrev(SetNext(m, prev, new_), new_, prev), new_, next), next, new_)
  }

  /** list_add: insert after the head. */
  function AddFront(m: Mem, new_: Addr, h: Addr): (m': Mem)
    requires Room(m, new_) && Room(m, h)
    ensures |m'| == |m|
  {
    if Room(m, Next(m, h)) then Add(m, new_, h, Next(m, h)) else m
  }

  /** What list_add on a proper list writes. */
  lemma AddFrontIs(m: Mem, new_: Addr, h: Addr, s: seq<Addr>)
    requires IsList(m, h, s) && Room(m, new_)
    ensures var first := ([h] + s + [h])[1];
      && Room(m, h) && Room(m, first) && m[h] == ToPtr(first) && m[first + 1] == ToPtr(h)
      && AddFront(m, new_, h) == SetPrev(SetNext(SetPrev(SetNext(m, h, new_), new_, h), new_, first), first, new_)
  {
    hide AllApart, SetPrev, SetNext;
    var c := [h] + s + [h];
    assert Link(m, c[0], c[1]);
    PtrRoundTrip(c[1]);
    PtrRoundTrip(h);
  }

  lemma FrontApart(ns: seq<Addr>, new_: Addr)
    requires AllApart(ns) && forall i :: 0 <= i < |ns| ==> Apart(new_, ns[i])
    requires |ns| > 0
    ensures AllApart([ns[0]] + ([new_] + ns[1..]))
  {
    var ns' := [ns[0]] + ([new_] + ns[1..]);
    forall i, j | 0 <= i < j < |ns'|
      ensures Apart(ns'[i], ns'[j])
    {
      if j >= 2 {
        assert ns'[j] == ns[j - 1];
      }
      if i >= 2 {
        assert ns'[i] == ns[i - 1];
      }
      assert j == 1 ==> Apart(new_, ns[0]);
      assert i == 1 ==> Apart(new_, ns[j - 1]);
    }
  }

  /** A link between two old nodes, neither the sentinel's first, is untouched. */
  lemma LinkAfterAdd(m: Mem, m': Mem, new_: Addr, h: Addr, ns: seq<Addr>, i: nat)
    requires AllApart(ns) && |ns| > 0 && ns[0] == h && 1 <= i < |ns| && Room(m, new_)
    requires forall i :: 0 <= i < |ns| ==> Apart(new_, ns[i])
    requires Link(m, ns[i], ns[if i + 1 < |ns| then i + 1 else 0]) && Room(m, h) && Room(m, ns[1])
    requires m' == SetPrev(SetNext(SetPrev(SetNext(m, h, new_), new_, h), new_, ns[1]), ns[1], new_)
    ensures Link(m', ns[i], ns[if i + 1 < |ns| then i + 1 else 0])
  {
    assert Apart(new_, ns[i]) && Apart(ns[0], ns[i]) && (i > 1 ==> Apart(ns[1], ns[i]));
    if i + 1 < |ns| {
      assert Apart(new_, ns[i + 1]) && Apart(ns[0], ns[i + 1]) && Apart(ns[1], ns[i + 1]);
    } else {
      assert Apart(new_, ns[0]) && Apart(ns[0], ns[1]);
    }
  }

  lemma AddFrontList(m: Mem, new_: Addr, h: Addr, s: seq<Addr>)
    requires IsList(m, h, s) && Room(m, new_)
    requires forall i :: 0 <= i < |s| + 1 ==> Apart(new_, ([h] + s)[i])
    ensures Room(m, h) && IsList(AddFront(m, new_, h), h, [new_] + s)
    ensures OnlyNodes(m, AddFront(m, new_, h), [new_] + [h] + s)
  {
    hide Apart, SetPrev, SetNext, Room;
    var c, ns := [h] + s + [h], [h] + s;
    var first := c[1];
    AddFrontIs(m, new_, h, s);
    var m' := AddFront(m, new_, h);
    var c' := [h] + ([new_] + s) + [h];
    assert first == ns[if |s| > 0 then 1 else 0] && Apart(new_, ns[0]) && Apart(new_, first);
    forall i | 0 <= i < |c'| - 1
      ensures Link(m', c'[i], c'[i + 1])
    {
      if i >= 2 {
        assert c'[i] == c[i - 1] == ns[i - 1] && c'[i + 1] == c[i] == ns[if i < |ns| then i else 0];
        assert Link(m, c[i - 1], c[i - 1 + 1]);
        LinkAfterAdd(m, m', new_, h, ns, i - 1);
      } else {
        FirstLinks(m, new_, h, first);
      }
    }
    FrontApart(ns, new_);
    assert ns[1..] == s;
    AddOnly(m, new_, h, first, [new_] + [h] + s);
  }

  lemma FirstLinks(m: Mem, new_: Addr, h: Addr, first: Addr)
    requires Room(m, new_) && Room(m, h) && Room(m, first) && Apart(new_, h) && Apart(new_, first)
    requires first == h || Apart(h, first)
    ensures var m' := SetPrev(SetNext(SetPrev(SetNext(m, h, new_), new_, h), new_, first), first, new_);
      Link(m', h, new_) && Link(m', new_, first)
  {
  }

  lemma AddOnly(m: Mem, new_: Addr, h: Addr, first: Addr, ns: seq<Addr>)
    requires Room(m, new_) && Room(m, h) && Room(m, first) && new_ in ns && h in ns && first in ns
    ensures OnlyNodes(m, SetPrev(SetNext(SetPrev(SetNext(m, h, new_), new_, h), new_, first), first, new_), ns)
  {
    NodesOf(ns, new_, h, first);
  }

  lemma NodesOf(ns: seq<Addr>, a: Addr, b: Addr, c: Addr)
    requires a in ns && b in ns && c in ns
    ensures InNodes(a, ns) && InNodes(a as int + 1, ns) && InNodes(b, ns) && InNodes(b as int + 1, ns)
    ensures InNodes(c, ns) && InNodes(c as int + 1, ns)
  {
  }

  // ----------------------------------------------------------------- deletion

  /** list_del */
  function Del(m: Mem, node: Addr): (m': Mem)
    requires Room(m, node)
    ensures |m'| == |m|
  {
    var prev, next := Prev(m, node), Next(m, node);
    if Room(m, prev) && Room(m, next) then SetPrev(SetNext(m, prev, next), next, prev) else m
  }

  /** Deleting the node at position j removes exactly it. */
  lemma DelList(m: Mem, h: Addr, s: seq<Addr>, j: nat)
    requires IsList(m, h, s) && j < |s|
    ensures Room(m, s[j]) && IsList(Del(m, s[j]), h, s[..j] + s[j + 1..])
    ensures OnlyNodes(m, Del(m, s[j]), [h] + s)
  {
    hide Apart, SetPrev, SetNext, Room;
    var c, ns, k := [h] + s + [h], [h] + s, j + 1;
    DelIs(m, h, s, j);
    var prev, next := c[k - 1], c[k + 1];
    var m' := Del(m, s[j]);
    var s' := s[..j] + s[j + 1..];
    var c' := [h] + s' + [h];
    assert prev == ns[k - 1] && next == ns[if k + 1 < |ns| then k + 1 else 0];
    forall i | 0 <= i < |c'| - 1
      ensures Link(m', c'[i], c'[i + 1])
    {
      var x := if i < k then i else i + 1;
      var y := if i + 1 < k then i + 1 else i + 2;
      assert c'[i] == c[x] && c'[i + 1] == c[y] && c[x] == ns[x];
      assert c[y] == ns[if y < |ns| then y else 0];
      if x + 1 == y {
        assert Link(m, c[x], c[x + 1]);
        assert x != k - 1 && y != k + 1;
        LinkKept(m, ns, k, x, y, prev, next);
      }
    }
    var ns' := [h] + s';
    forall p, q | 0 <= p < q < |ns'|
      ensures Apart(ns'[p], ns'[q])
    {
      assert ns'[p] == ns[if p < k then p else p + 1] && ns'[q] == ns[if q < k then q else q + 1];
    }
    DelOnly(m, ns, prev, next);
  }

  /** What list_del on a proper list writes. */
  lemma DelIs(m: Mem, h: Addr, s: seq<Addr>, j: nat)
    requires IsList(m, h, s) && j < |s|
    ensures var prev, next := ([h] + s + [h])[j], ([h] + s + [h])[j + 2];
      && Room(m, s[j]) && Room(m, prev) && Room(m, next)
      && Del(m, s[j]) == SetPrev(SetNext(m, prev, next), next, prev) && Link(Del(m, s[j]), prev, next)
  {
    var c, ns := [h] + s + [h], [h] + s;
    assert c[j] == ns[j] && c[j + 2] == ns[if j + 2 < |ns| then j + 2 else 0];
    assert j > 0 || j + 2 < |ns| ==> Apart(c[j], c[j + 2]) || Apart(c[j + 2], c[j]);
    hide AllApart;
    assert Link(m, c[j], c[j + 1]) && Link(m, c[j + 1], c[j + 1 + 1]);
    PtrRoundTrip(c[j]);
    PtrRoundTrip(c[j + 2]);
  }

  lemma DelOnly(m: Mem, ns: seq<Addr>, prev: Addr, next: Addr)
    requires prev in ns && next in ns && Room(m, prev) && Room(m, next)
    ensures OnlyNodes(m, SetPrev(SetNext(m, prev, next), next, prev), ns)
  {
    NodesOf(ns, prev, next, prev);
  }

  /** The two writes of a deletion miss every other link. */
  lemma LinkKept(m: Mem, ns: seq<Addr>, k: nat, x: nat, y: nat, prev: Addr, next: Addr)
    requires AllApart(ns) && 0 < k < |ns| && x < |ns| && y == x + 1 <= |ns| && x != k - 1 && y != k + 1 && x != k
    requires prev == ns[k - 1] && next == ns[if k + 1 < |ns| then k + 1 else 0]
    requires Link(m, ns[x], ns[if y < |ns| then y else 0]) && Room(m, prev) && Room(m, next)
    ensures Link(SetPrev(SetNext(m, prev, next), next, prev), ns[x], ns[if y < |ns| then y else 0])
  {
    var b := if y < |ns| then y else 0;
    var n := if k + 1 < |ns| then k + 1 else 0;
    assert x < k - 1 ==> Apart(ns[x], ns[k - 1]);
    assert x > k - 1 ==> Apart(ns[k - 1], ns[x]);
    assert x < n ==> Apart(ns[x], ns[n]);
    assert n < x ==> Apart(ns[n], ns[x]);
    assert b < n ==> Apart(ns[b], ns[n]);
    assert n < b ==> Apart(ns[n], ns[b]);
    assert b < k - 1 ==> Apart(ns[b], ns[k - 1]);
    assert k - 1 < b ==> Apart(ns[k - 1], ns[b]);
  }

  /** The last node of a list is the sentinel's prev. */
  lemma LastOfList(m: Mem, h: Addr, s: seq<Addr>)
    requires IsList(m, h, s)
    ensures Room(m, h) && Prev(m, h) == if |s| > 0 then s[|s| - 1] else h
  {
    var c := [h] + s + [h];
    assert Link(m, c[|s|], c[|s| + 1]);
    PtrRoundTrip(c[|s|]);
  }

  lemma EmptyList(m: Mem, h: Addr)
    requires Room(m, h)
    ensures IsList(SetPrev(SetNext(m, h, h), h, h), h, [])
  {
  }

  /** _list_take_last */
  function TakeLast(m: Mem, h: Addr): (m': Mem)
    requires Room(m, h)
    ensures |m'| == |m|
  {
    if Room(m, Prev(m, h)) then Del(m, Prev(m, h)) else m
  }

  /** Taking from a nonempty list removes its back. */
  lemma TakeLastList(m: Mem, h: Addr, s: seq<Addr>)
    requires IsList(m, h, s) && |s| > 0
    ensures Room(m, h) && Room(m, Prev(m, h)) && Prev(m, h) == s[|s| - 1]
    ensures IsList(TakeLast(m, h), h, s[..|s| - 1]) && OnlyNodes(m, TakeLast(m, h), [h] + s)
  {
    LastOfList(m, h, s);
    DelList(m, h, s, |s| - 1);
    assert s[..|s| - 1] + s[|s| - 1 + 1..] == s[..|s| - 1];
  }

  // ------------------------------------------------------------------ list.h

  method ListHeadInit(ram: array<Word>, head: Addr)
    requires head + 1 < ram.Length
    modifies ram
    ensures ram[..] == SetPrev(SetNext(old(ram[..]), head, head), head, head)
    ensures IsList(ram[..], head, [])
  {
    ram[head] := ToPtr(head);
    ram[head + 1] := ToPtr(head);
    EmptyList(old(ram[..]), head);
  }

  /** _list_add */
  method ListAddBetween(ram: array<Word>, new_: Addr, prev: Addr, next: Addr)
    requires new_ + 1 < ram.Length && prev + 1 < ram.Length && next + 1 < ram.Length
    modifies ram
    ensures ram[..] == Add(old(ram[..]), new_, prev, next)
  {
    if FromPtr(ram[next + 1]) != prev || FromPtr(ram[prev]) != next {
      return;
    }
    ram[prev] := ToPtr(new_);
    ram[new_ + 1] := ToPtr(prev);
    ram[new_] := ToPtr(next);
    ram[next + 1] := ToPtr(new_);
  }

  /** list_add on a well-formed list: the silent rejection does not fire. */
  method ListAdd(ram: array<Word>, new_: Addr, head: Addr, ghost s: seq<Addr>)
    requires IsList(ram[..], head, s) && new_ + 1 < ram.Length
    requires forall i :: 0 <= i < |s| + 1 ==> Apart(new_, ([head] + s)[i])
    modifies ram
    ensures old(Room(ram[..], head)) && ram[..] == AddFront(old(ram[..]), new_, head)
    ensures IsList(ram[..], head, [new_] + s)
  {
    AddFrontList(ram[..], new_, head, s);
    FirstInRoom(ram[..], head, s);
    ListAddBetween(ram, new_, head, FromPtr(ram[head]));
  }

  lemma FirstInRoom(m: Mem, h: Addr, s: seq<Addr>)
    requires IsList(m, h, s)
    ensures Room(m, h) && Room(m, Next(m, h))
  {
    var c := [h] + s + [h];
    assert Link(m, c[0], c[1]);
    PtrRoundTrip(c[1]);
  }

  /** list_del of the node at position j. */
  method ListDel(ram: array<Word>, node: Addr, ghost head: Addr, ghost s: seq<Addr>, ghost j: nat)
    requires IsList(ram[..], head, s) && j < |s| && s[j] == node
    modifies ram
    ensures old(Room(ram[..], node)) && ram[..] == Del(old(ram[..]), node)
    ensures IsList(ram[..], head, s[..j] + s[j + 1..])
  {
    DelList(ram[..], head, s, j);
    NeighboursInRoom(ram[..], head, s, j);
    var prev, next := FromPtr(ram[node + 1]), FromPtr(ram[node]);
    ram[prev] := ToPtr(next);
    ram[next + 1] := ToPtr(prev);
  }

  lemma NeighboursInRoom(m: Mem, h: Addr, s: seq<Addr>, j: nat)
    requires IsList(m, h, s) && j < |s|
    ensures Room(m, s[j]) && Room(m, Prev(m, s[j])) && Room(m, Next(m, s[j]))
  {
    var c := [h] + s + [h];
    assert Link(m, c[j], c[j + 1]) && Link(m, c[j + 1], c[j + 2]);
    PtrRoundTrip(c[j]);
    PtrRoundTrip(c[j + 2]);
  }

  method ListTakeLast(ram: array<Word>, head: Addr, ghost s: seq<Addr>) returns (last: Addr)
    requires IsList(ram[..], head, s) && |s| > 0
    modifies ram
    ensures last == s[|s| - 1]
    ensures old(Room(ram[..], head)) && ram[..] == TakeLast(old(ram[..]), head)
    ensures IsList(ram[..], head, s[..|s| - 1])
  {
    TakeLastList(ram[..], head, s);
    last := FromPtr(ram[head + 1]);
    ListDel(ram, last, head, s, |s| - 1);
  }
}
