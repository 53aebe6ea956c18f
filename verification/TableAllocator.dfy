/** The page allocator behind vm_map: what it answers, what vm_map relies on, and the
    record of the calls made to it. */
module TableAllocator {
  import opened PageTables

  /** What the table allocator answers: a page frame, an error, or no return at all. */
  datatype Answer = Page(frame: nat) | Fail(err: int) | Halt
  datatype Reply<A> = Reply(ctx: A, mem: Mem, answer: Answer)

  /** vm_pt_alloc_t: from its own state and memory to a new state, new memory and an answer. */
  type PtAlloc<!A> = (A, Mem) -> Reply<A>

  /** What vm_map relies on.  inv(a, m, live) is the allocator's own invariant, in which
      the frames of `live` belong to its clients: it leaves them alone, hands out only
      frames outside, and does not care what clients write in them. */
  ghost predicate Honest<A(!new)>(alloc: PtAlloc<A>, inv: (A, Mem, set<nat>) -> bool) {
    && (forall a: A, m: Mem, live: set<nat> {:trigger alloc(a, m), inv(a, m, live)} ::
          inv(a, m, live) ==> HonestReply(alloc(a, m), inv, m, live))
    && (forall a: A, m: Mem, m': Mem, live: set<nat> {:trigger inv(a, m, live), SameOutside(m, m', live)} ::
          inv(a, m, live) && SameOutside(m, m', live) ==> inv(a, m', live))
  }

  ghost predicate HonestReply<A(!new)>(r: Reply<A>, inv: (A, Mem, set<nat>) -> bool, m: Mem, live: set<nat>) {
    && AgreeOn(m, r.mem, live)
    && match r.answer
       case Page(q) => q !in live && q < FRAMES && 512 * q + 512 <= |m| && inv(r.ctx, r.mem, live + {q})
       case Fail(e) => e != 0 && inv(r.ctx, r.mem, live)
       case Halt => true
  }

  ghost predicate SameOutside(m: Mem, m': Mem, frames: set<nat>) {
    && |m'| == |m|
    && forall t: nat, i: Index :: t !in frames ==> Entry(m', t, i) == Entry(m, t, i)
  }

  lemma SameOutsideTrans(a: Mem, b: Mem, c: Mem, s: set<nat>)
    requires SameOutside(a, b, s) && SameOutside(b, c, s)
    ensures SameOutside(a, c, s)
  {
  }

  // ------------------------------------------------------------------ the calls

  /** The allocator's state, memory and client frames when vm_map was entered, and the
      memory each call to the allocator found. */
  datatype Log<A> = Log(ctx: A, mem: Mem, live: set<nat>, calls: seq<Mem>) {
    function Before(): Log<A>
      requires calls != []
    {
      Log(ctx, mem, live, calls[..|calls| - 1])
    }

    function Then(m: Mem): Log<A> {
      Log(ctx, mem, live, calls + [m])
    }
  }

  /** The reply to the last call. */
  function LastReply<A>(alloc: PtAlloc<A>, log: Log<A>): Reply<A>
    requires log.calls != []
    decreases |log.calls|, 0
  {
    alloc(StateNow(alloc, log.Before()), log.calls[|log.calls| - 1])
  }

  /** The allocator's own state after the calls. */
  function StateNow<A>(alloc: PtAlloc<A>, log: Log<A>): A
    decreases |log.calls|, 1
  {
    if log.calls == [] then log.ctx else LastReply(alloc, log).ctx
  }

  /** Memory as the last call left it. */
  function MemoryNow<A>(alloc: PtAlloc<A>, log: Log<A>): Mem {
    if log.calls == [] then log.mem else LastReply(alloc, log).mem
  }

  /** The frames the calls handed out. */
  function Granted<A>(alloc: PtAlloc<A>, log: Log<A>): set<nat>
    decreases |log.calls|
  {
    if log.calls == [] then {}
    else
      var before := Granted(alloc, log.Before());
      match LastReply(alloc, log).answer
      case Page(q) => before + {q}
      case Fail(_) => before
      case Halt => before
  }

  /** Every call was answered with a page. */
  predicate Served<A>(alloc: PtAlloc<A>, log: Log<A>)
    decreases |log.calls|
  {
    log.calls == [] || (Served(alloc, log.Before()) && LastReply(alloc, log).answer.Page?)
  }

  /** The calls follow one another: each but the last was served, and in between only
      client frames were written. */
  ghost predicate Follows<A>(alloc: PtAlloc<A>, log: Log<A>)
    decreases |log.calls|
  {
    log.calls == [] ||
    var past := log.Before();
    && Follows(alloc, past) && Served(alloc, past)
    && SameOutside(MemoryNow(alloc, past), log.calls[|log.calls| - 1], past.live + Granted(alloc, past))
  }

  /** The calls lead to allocator state a, memory m and the client frames `held`. */
  ghost predicate Reached<A>(alloc: PtAlloc<A>, log: Log<A>, a: A, m: Mem, held: set<nat>) {
    && Follows(alloc, log) && a == StateNow(alloc, log) && held == log.live + Granted(alloc, log)
    && SameOutside(MemoryNow(alloc, log), m, held)
  }

  lemma ReachedStart<A>(alloc: PtAlloc<A>, a: A, m: Mem, live: set<nat>)
    ensures Reached(alloc, Log(a, m, live, []), a, m, live) && Served(alloc, Log(a, m, live, []))
  {
  }

  /** Client writes do not count. */
  lemma ReachedWrite<A>(alloc: PtAlloc<A>, log: Log<A>, a: A, m: Mem, m': Mem, held: set<nat>)
    requires Reached(alloc, log, a, m, held) && SameOutside(m, m', held)
    ensures Reached(alloc, log, a, m', held)
  {
    SameOutsideTrans(MemoryNow(alloc, log), m, m', held);
  }

  /** One more call. */
  lemma ReachedCall<A>(alloc: PtAlloc<A>, log: Log<A>, a: A, m: Mem, held: set<nat>)
    requires Reached(alloc, log, a, m, held) && Served(alloc, log)
    ensures
      var r, log' := alloc(a, m), log.Then(m);
      && log'.calls != [] && LastReply(alloc, log') == r
      && Reached(alloc, log', r.ctx, r.mem, if r.answer.Page? then held + {r.answer.frame} else held)
      && (Served(alloc, log') <==> r.answer.Page?)
  {
    assert log.Then(m).Before() == log by {
      assert (log.calls + [m])[..|log.calls|] == log.calls;
    }
  }

  /** Honesty over all the calls: clients keep their frames, and every granted frame is new. */
  lemma {:induction false} HonestLog<A(!new)>(alloc: PtAlloc<A>, inv: (A, Mem, set<nat>) -> bool, log: Log<A>)
    requires Honest(alloc, inv) && inv(log.ctx, log.mem, log.live) && Follows(alloc, log)
    ensures Granted(alloc, log) !! log.live
    ensures |log.calls| == |Granted(alloc, log)| + (if Served(alloc, log) then 0 else 1)
    ensures log.calls != [] ==>
      inv(StateNow(alloc, log.Before()), log.calls[|log.calls| - 1], log.live + Granted(alloc, log.Before()))
    ensures Served(alloc, log) ==> inv(StateNow(alloc, log), MemoryNow(alloc, log), log.live + Granted(alloc, log))
    decreases |log.calls|
  {
    if log.calls == [] {
      assert log.live + {} == log.live;
    } else {
      var past, m := log.Before(), log.calls[|log.calls| - 1];
      HonestLog(alloc, inv, past);
      assert inv(StateNow(alloc, past), m, past.live + Granted(alloc, past));
      assert HonestReply(alloc(StateNow(alloc, past), m), inv, m, past.live + Granted(alloc, past));
      match LastReply(alloc, log).answer
      case Page(q) =>
        assert log.live + Granted(alloc, log) == (past.live + Granted(alloc, past)) + {q};
      case Fail(_) =>
      case Halt =>
    }
  }

  /** An allocator that always has a page in its invariant serves every call. */
  lemma AlwaysServed<A(!new)>(alloc: PtAlloc<A>, inv: (A, Mem, set<nat>) -> bool, log: Log<A>)
    requires Honest(alloc, inv) && inv(log.ctx, log.mem, log.live) && Follows(alloc, log)
    requires forall a: A, m: Mem, live: set<nat> {:trigger alloc(a, m), inv(a, m, live)} ::
      inv(a, m, live) ==> alloc(a, m).answer.Page?
    ensures Served(alloc, log)
  {
    HonestLog(alloc, inv, log);
  }
}
