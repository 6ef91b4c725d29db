/**
 * What calls on the registry achieve: a live handle is found, locked and run on, a free of it
 * destroys its engine, and a create makes it live. Stated over runs, in terms of the slots'
 * history and the calls' positions, so that a registry that refuses its callers is excluded.
 */
module EngineProgress {
  import opened Common
  import opened EngineRegistry

  /** The first engine has id 1, and the counter wraps at two to the power of 64. */
  lemma FirstIds()
    ensures IdOf(0) == 1 && IdOf(1) == 2 && IdOf(18_446_744_073_709_551_614) == 18_446_744_073_709_551_615
    ensures IdOf(18_446_744_073_709_551_615) == 0
  {
  }

  // ----- live handles are registered -----

  /** Created, inserted and detached by no free. */
  predicate Live(sh: Shared, k: nat) {
    k < |sh.slots| && sh.slots[k].inserted && sh.slots[k].remover.None?
  }

  /** Every live slot is registered, and an engine is gone only where a free detached the slot. */
  predicate Kept(sh: Shared) {
    && (forall k :: 0 <= k < |sh.slots| && Live(sh, k) ==> Holds(sh, k))
    && forall k :: 0 <= k < |sh.slots| && !sh.slots[k].full ==> sh.slots[k].remover.Some?
  }

  lemma StepKept(sh: Shared, me: Site, f: Frame, active: seq<nat>)
    requires SharedOk(sh) && Ready(sh, f) && FrameOk(sh, me, f) && Kept(sh)
    requires |Act(sh, me, f, active).sh.slots| <= WRAP
    ensures Kept(Act(sh, me, f, active).sh)
  {
    var o := Act(sh, me, f, active);
    forall k | 0 <= k < |o.sh.slots| && Live(o.sh, k)
      ensures Holds(o.sh, k)
    {
      if k < |sh.slots| && Live(sh, k) {
        assert Holds(sh, k);
        if f.pc.NewInsert? && IdOf(f.pc.slot) == IdOf(k) {
          IdsDistinct(f.pc.slot, k);
        }
      }
    }
  }

  lemma NextKept(s: State, t: Tid, a: Action)
    requires Inv(s) && Kept(s.sh) && Enabled(s, t, a) && |Next(s, t, a).sh.slots| <= WRAP
    ensures Kept(Next(s, t, a).sh)
  {
    if a.Advance? {
      var th := s.threads[t];
      var me: Site := (t, |th.frames| - 1);
      assert At(s, me) && FrameOk(s.sh, me, FrameAt(s, me));
      StepKept(s.sh, me, Top(th), th.active);
    }
  }

  lemma NextGrows(s: State, t: Tid, a: Action)
    requires Enabled(s, t, a)
    ensures |s.sh.slots| <= |Next(s, t, a).sh.slots|
  {
    if |s.sh.slots| > 0 {
      NextLater(s, Next(s, t, a), 0);
    }
  }

  lemma StepsKept(s: State, s': State)
    requires Inv(s) && Steps(s, s') && |s'.sh.slots| <= WRAP
    ensures |s.sh.slots| <= |s'.sh.slots| && (Kept(s.sh) ==> Kept(s'.sh))
  {
    var t, a :| Enabled(s, t, a) && s' == Next(s, t, a);
    NextGrows(s, t, a);
    if Kept(s.sh) {
      NextKept(s, t, a);
    }
  }

  lemma {:induction false} RunKept(ss: seq<State>, tids: set<Tid>, i: nat)
    requires Run(ss, tids) && i < |ss| && |ss[i].sh.slots| <= WRAP
    ensures Kept(ss[i].sh)
  {
    if i > 0 {
      assert Steps(ss[i - 1], ss[i - 1 + 1]);
      RunKeeps(ss, tids, i - 1);
      StepsKept(ss[i - 1], ss[i]);
      RunKept(ss, tids, i - 1);
    }
  }

  /** In every state of every run, while ids last, a handle is registered exactly while it is live. */
  lemma RegisteredExactly(ss: seq<State>, tids: set<Tid>, i: nat, k: nat)
    requires Run(ss, tids) && i < |ss| && |ss[i].sh.slots| <= WRAP
    ensures Holds(ss[i].sh, k) <==> Live(ss[i].sh, k)
    ensures IdOf(k) in ss[i].sh.registry && k < |ss[i].sh.slots| ==> ss[i].sh.registry[IdOf(k)] == k
  {
    RunKeeps(ss, tids, i);
    RunKept(ss, tids, i);
    if IdOf(k) in ss[i].sh.registry {
      assert Registered(ss[i].sh, IdOf(k));
      if k < |ss[i].sh.slots| {
        IdsDistinct(ss[i].sh.registry[IdOf(k)], k);
      }
    }
  }

  // ----- what a step of a call leads to -----

  /** Thread `t` steps from state `i` of the run to the next, with call `f` on top. */
  ghost predicate Advancing(ss: seq<State>, tids: set<Tid>, i: nat, t: Tid, f: Frame) {
    && Run(ss, tids) && i + 1 < |ss| && |ss[i].sh.slots| <= WRAP
    && Enabled(ss[i], t, Advance) && Top(ss[i].threads[t]) == f && ss[i + 1] == Next(ss[i], t, Advance)
  }

  /** The call has gone on to `pc`. */
  predicate GoesTo(s: State, s': State, t: Tid, pc: Pc) {
    && t in s.threads && s.threads[t].frames != [] && t in s'.threads
    && s'.threads[t].frames == s.threads[t].frames[..|s.threads[t].frames| - 1] + [Top(s.threads[t]).(pc := pc)]
  }

  /** The call is over. */
  predicate Ends(s: State, s': State, t: Tid) {
    && t in s.threads && s.threads[t].frames != [] && t in s'.threads
    && s'.threads[t].frames == s.threads[t].frames[..|s.threads[t].frames| - 1]
  }

  lemma CurrentFrame(ss: seq<State>, tids: set<Tid>, i: nat, t: Tid, f: Frame)
    requires Advancing(ss, tids, i, t, f)
    ensures Inv(ss[i]) && Kept(ss[i].sh) && FrameOk(ss[i].sh, (t, |ss[i].threads[t].frames| - 1), f)
    ensures ThreadOk(ss[i].threads[t])
  {
    RunKeeps(ss, tids, i);
    RunKept(ss, tids, i);
    var me: Site := (t, |ss[i].threads[t].frames| - 1);
    assert At(ss[i], me) && FrameAt(ss[i], me) == f;
  }

  /** A lookup ends the call exactly when no live handle has the id; otherwise it clones that handle. */
  lemma LookupFinds(ss: seq<State>, tids: set<Tid>, i: nat, t: Tid, f: Frame)
    requires Advancing(ss, tids, i, t, f) && f.pc.OpLookup?
    ensures forall k: nat :: Live(ss[i].sh, k) && IdOf(k) == f.id ==> GoesTo(ss[i], ss[i + 1], t, OpCloned(k))
    ensures (forall k: nat :: Live(ss[i].sh, k) ==> IdOf(k) != f.id) ==> Ends(ss[i], ss[i + 1], t)
  {
    CurrentFrame(ss, tids, i, t, f);
    forall k: nat | Live(ss[i].sh, k) && IdOf(k) == f.id
      ensures GoesTo(ss[i], ss[i + 1], t, OpCloned(k))
    {
      assert Holds(ss[i].sh, k);
    }
    if f.id in ss[i].sh.registry {
      assert Registered(ss[i].sh, f.id) && Live(ss[i].sh, ss[i].sh.registry[f.id]);
    }
  }

  /** The thread is inside another call with this id. */
  predicate Inside(th: Thread, id: nat) {
    exists j :: 0 <= j < |th.frames| - 1 && IsOpen(th.frames[j].pc) && th.frames[j].id == id
  }

  lemma {:induction false} ActiveIsOpen(frames: seq<Frame>, id: nat)
    ensures id in ActiveIds(frames) <==> exists j :: 0 <= j < |frames| && IsOpen(frames[j].pc) && frames[j].id == id
  {
    if frames != [] {
      var below := frames[..|frames| - 1];
      ActiveIsOpen(below, id);
      assert forall j :: 0 <= j < |below| ==> below[j] == frames[j];
    }
  }

  /** A cloned handle is refused exactly when the thread is inside the engine already. */
  lemma CloneEnters(ss: seq<State>, tids: set<Tid>, i: nat, t: Tid, f: Frame)
    requires Advancing(ss, tids, i, t, f) && f.pc.OpCloned?
    ensures if Inside(ss[i].threads[t], f.id) then Ends(ss[i], ss[i + 1], t)
            else GoesTo(ss[i], ss[i + 1], t, OpEntered(f.pc.slot))
  {
    CurrentFrame(ss, tids, i, t, f);
    var th := ss[i].threads[t];
    ActiveIsOpen(th.frames, f.id);
    if f.id in th.active {
      var j :| 0 <= j < |th.frames| && IsOpen(th.frames[j].pc) && th.frames[j].id == f.id;
      assert j < |th.frames| - 1;
    }
  }

  /** With the mutex held the operation runs, unless a free has detached the slot and taken the engine. */
  lemma LockServes(ss: seq<State>, tids: set<Tid>, i: nat, t: Tid, f: Frame)
    requires Advancing(ss, tids, i, t, f) && f.pc.OpLocked?
    ensures GoesTo(ss[i], ss[i + 1], t, OpRunning(f.pc.slot)) ||
      (GoesTo(ss[i], ss[i + 1], t, OpClosing(f.pc.slot)) && ss[i].sh.slots[f.pc.slot].remover.Some?)
    ensures Live(ss[i].sh, f.pc.slot) ==> GoesTo(ss[i], ss[i + 1], t, OpRunning(f.pc.slot))
  {
    CurrentFrame(ss, tids, i, t, f);
  }

  /** A free ends at once exactly when no live handle has the id; otherwise it detaches that handle. */
  lemma FreeFinds(ss: seq<State>, tids: set<Tid>, i: nat, t: Tid, f: Frame)
    requires Advancing(ss, tids, i, t, f) && f.pc.FreeRemove?
    ensures forall k: nat :: Live(ss[i].sh, k) && IdOf(k) == f.id ==>
      GoesTo(ss[i], ss[i + 1], t, FreeRemoved(k)) && !Live(ss[i + 1].sh, k)
    ensures (forall k: nat :: Live(ss[i].sh, k) ==> IdOf(k) != f.id) ==> Ends(ss[i], ss[i + 1], t)
  {
    CurrentFrame(ss, tids, i, t, f);
    forall k: nat | Live(ss[i].sh, k) && IdOf(k) == f.id
      ensures GoesTo(ss[i], ss[i + 1], t, FreeRemoved(k)) && !Live(ss[i + 1].sh, k)
    {
      assert Holds(ss[i].sh, k);
    }
    if f.id in ss[i].sh.registry {
      assert Registered(ss[i].sh, f.id) && Live(ss[i].sh, ss[i].sh.registry[f.id]);
    }
  }

  /** What a free detached it takes out, and what it took it destroys. */
  lemma FreeTakes(ss: seq<State>, tids: set<Tid>, i: nat, t: Tid, f: Frame)
    requires Advancing(ss, tids, i, t, f)
    ensures f.pc.FreeLocked? ==> GoesTo(ss[i], ss[i + 1], t, FreeTaken(f.pc.slot, true))
    ensures f.pc.FreeDrop? ==> ss[i].sh.slots[f.pc.slot].drops == 0 && ss[i + 1].sh.slots[f.pc.slot].drops == 1
    ensures f.pc.FreeReturn? ==> Ends(ss[i], ss[i + 1], t) && ss[i + 1].sh.slots[f.pc.slot].freed
  {
    CurrentFrame(ss, tids, i, t, f);
  }

  /** An insert makes the engine live. */
  lemma InsertLives(ss: seq<State>, tids: set<Tid>, i: nat, t: Tid, f: Frame)
    requires Advancing(ss, tids, i, t, f) && f.pc.NewInsert?
    ensures Ends(ss[i], ss[i + 1], t) && f.id == IdOf(f.pc.slot) && Live(ss[i + 1].sh, f.pc.slot)
    ensures Holds(ss[i + 1].sh, f.pc.slot)
  {
    CurrentFrame(ss, tids, i, t, f);
    assert SlotOk(ss[i].sh.slots[f.pc.slot]);
  }

  // ----- runs that can be continued -----

  function Last(ss: seq<State>): State
    requires ss != []
  {
    ss[|ss| - 1]
  }

  lemma RunSnoc(ss: seq<State>, tids: set<Tid>, t: Tid, a: Action)
    requires Run(ss, tids) && Enabled(Last(ss), t, a)
    ensures Run(ss + [Next(Last(ss), t, a)], tids)
  {
    var r := ss + [Next(Last(ss), t, a)];
    forall i | 0 <= i < |r| - 1
      ensures Steps(r[i], r[i + 1])
    {
      if i < |ss| - 1 {
        assert r[i] == ss[i] && r[i + 1] == ss[i + 1];
      } else {
        assert r[i] == Last(ss) && r[i + 1] == Next(Last(ss), t, a);
      }
    }
  }

  /** The run `r` continues `ss`: the shared state is now `sh`, and thread `t` is `th`. */
  ghost predicate Continues(ss: seq<State>, r: seq<State>, tids: set<Tid>, t: Tid, sh: Shared, th: Thread) {
    && ss != [] && Run(r, tids) && ss <= r
    && Last(r) == State(sh, Last(ss).threads[t := th])
  }

  /** The thread can make a call: it is idle, or an operation or a destructor calls back in. */
  predicate Callable(s: State, t: Tid) {
    t in s.threads && (s.threads[t].frames == [] || Nests(Top(s.threads[t]).pc))
  }

  /** A call by thread `t` at the end of a run. */
  lemma CallStep(ss: seq<State>, tids: set<Tid>, t: Tid, a: Action) returns (r: seq<State>)
    requires Run(ss, tids) && Callable(Last(ss), t) && !a.Advance?
    ensures var th := Last(ss).threads[t];
      Continues(ss, r, tids, t, Last(ss).sh, th.(frames := th.frames + [Called(a)]))
  {
    RunSnoc(ss, tids, t, a);
    r := ss + [Next(Last(ss), t, a)];
  }

  /** One more step of the call `f` of thread `t`. */
  lemma StepOn(ss: seq<State>, r: seq<State>, tids: set<Tid>, t: Tid, sh: Shared, below: seq<Frame>, f: Frame,
               active: seq<nat>)
    returns (q: seq<State>)
    requires ss != [] && t in Last(ss).threads
    requires Continues(ss, r, tids, t, sh, Thread(below + [f], active)) && Ready(sh, f)
    ensures var o := Act(sh, (t, |below|), f, active);
      Continues(ss, q, tids, t, o.sh, Thread(if o.next.Some? then below + [o.next.value] else below, o.active))
  {
    assert (below + [f])[..|below|] == below;
    RunSnoc(r, tids, t, Advance);
    q := r + [Next(Last(r), t, Advance)];
    var o := Act(sh, (t, |below|), f, active);
    var th := Thread(if o.next.Some? then below + [o.next.value] else below, o.active);
    assert Last(ss).threads[t := Thread(below + [f], active)][t := th] == Last(ss).threads[t := th];
  }

  /** A call on a live handle, up to where it waits for the engine's mutex. */
  lemma OperationEnters(ss: seq<State>, tids: set<Tid>, t: Tid, k: nat) returns (r: seq<State>)
    requires Run(ss, tids) && |Last(ss).sh.slots| <= WRAP
    requires Callable(Last(ss), t) && IdOf(k) !in Last(ss).threads[t].active
    requires Live(Last(ss).sh, k) && Last(ss).sh.holder.None?
    ensures var th := Last(ss).threads[t];
      Continues(ss, r, tids, t, Last(ss).sh,
        Thread(th.frames + [Frame(IdOf(k), OpEntered(k))], th.active + [IdOf(k)]))
  {
    var sh, th := Last(ss).sh, Last(ss).threads[t];
    var id := IdOf(k);
    RegisteredExactly(ss, tids, |ss| - 1, k);
    r := CallStep(ss, tids, t, CallOp(id));
    r := StepOn(ss, r, tids, t, sh, th.frames, Frame(id, OpCall), th.active);
    var locked := sh.(holder := Some((t, |th.frames|)));
    r := StepOn(ss, r, tids, t, locked, th.frames, Frame(id, OpLookup), th.active);
    r := StepOn(ss, r, tids, t, sh, th.frames, Frame(id, OpCloned(k)), th.active);
  }

  /** The slot with its mutex held by, or free of, a call. */
  function Owned(sh: Shared, k: nat, owner: Option<Site>): Shared
    requires k < |sh.slots|
  {
    sh.(slots := sh.slots[k := sh.slots[k].(owner := owner)])
  }

  /**
   * From any reachable state in which the handle is live and neither its mutex nor the registry
   * is locked, any thread that can make a call and is not inside the engine gets to run on it.
   */
  lemma OperationRuns(ss: seq<State>, tids: set<Tid>, t: Tid, k: nat) returns (r: seq<State>)
    requires Run(ss, tids) && |Last(ss).sh.slots| <= WRAP
    requires Callable(Last(ss), t) && IdOf(k) !in Last(ss).threads[t].active
    requires Live(Last(ss).sh, k) && Last(ss).sh.holder.None? && Last(ss).sh.slots[k].owner.None?
    ensures var th := Last(ss).threads[t];
      Continues(ss, r, tids, t, Owned(Last(ss).sh, k, Some((t, |th.frames|))),
        Thread(th.frames + [Frame(IdOf(k), OpRunning(k))], th.active + [IdOf(k)]))
  {
    var sh, th := Last(ss).sh, Last(ss).threads[t];
    var id, active := IdOf(k), th.active + [IdOf(k)];
    RunKept(ss, tids, |ss| - 1);
    r := OperationEnters(ss, tids, t, k);
    r := StepOn(ss, r, tids, t, sh, th.frames, Frame(id, OpEntered(k)), active);
    r := StepOn(ss, r, tids, t, Owned(sh, k, Some((t, |th.frames|))), th.frames, Frame(id, OpLocked(k)), active);
  }

  /** A whole operation leaves everything as it was. */
  lemma OperationReturns(ss: seq<State>, tids: set<Tid>, t: Tid, k: nat) returns (r: seq<State>)
    requires Run(ss, tids) && |Last(ss).sh.slots| <= WRAP
    requires Callable(Last(ss), t) && IdOf(k) !in Last(ss).threads[t].active
    requires Live(Last(ss).sh, k) && Last(ss).sh.holder.None? && Last(ss).sh.slots[k].owner.None?
    ensures Continues(ss, r, tids, t, Last(ss).sh, Last(ss).threads[t])
  {
    var sh, th := Last(ss).sh, Last(ss).threads[t];
    var id, active := IdOf(k), th.active + [IdOf(k)];
    var owned := Owned(sh, k, Some((t, |th.frames|)));
    r := OperationRuns(ss, tids, t, k);
    r := StepOn(ss, r, tids, t, owned, th.frames, Frame(id, OpRunning(k)), active);
    assert Owned(owned, k, None) == sh;
    RemoveLastOfLast(th.active, id);
    r := StepOn(ss, r, tids, t, sh, th.frames, Frame(id, OpLeaving(k)), active);
  }

  /** The shared state after a free at `me` has detached slot `k`. */
  function Detached(sh: Shared, k: nat, me: Site): Shared
    requires k < |sh.slots|
  {
    sh.(registry := sh.registry - {IdOf(k)}, slots := sh.slots[k := sh.slots[k].(remover := Some(me))])
  }

  /** A free of a live handle, up to where it waits for the engine's mutex. */
  lemma FreeDetaches(ss: seq<State>, tids: set<Tid>, t: Tid, k: nat) returns (r: seq<State>)
    requires Run(ss, tids) && |Last(ss).sh.slots| <= WRAP && Callable(Last(ss), t)
    requires Live(Last(ss).sh, k) && Last(ss).sh.holder.None?
    ensures var th := Last(ss).threads[t];
      Continues(ss, r, tids, t, Detached(Last(ss).sh, k, (t, |th.frames|)),
        th.(frames := th.frames + [Frame(IdOf(k), FreeRemoved(k))]))
  {
    var sh, th := Last(ss).sh, Last(ss).threads[t];
    RegisteredExactly(ss, tids, |ss| - 1, k);
    r := CallStep(ss, tids, t, CallFree(IdOf(k)));
    r := StepOn(ss, r, tids, t, sh, th.frames, Frame(IdOf(k), FreeCall), th.active);
    var locked := sh.(holder := Some((t, |th.frames|)));
    r := StepOn(ss, r, tids, t, locked, th.frames, Frame(IdOf(k), FreeRemove), th.active);
  }

  /** With the mutex free, a detached engine is taken out, and the mutex is free again. */
  lemma FreeTakesOut(ss: seq<State>, r: seq<State>, tids: set<Tid>, t: Tid, k: nat, sh: Shared, th: Thread)
    returns (q: seq<State>)
    requires ss != [] && t in Last(ss).threads && k < |sh.slots| && sh.slots[k].owner.None? && sh.slots[k].full
    requires Continues(ss, r, tids, t, sh, th.(frames := th.frames + [Frame(IdOf(k), FreeRemoved(k))]))
    ensures Continues(ss, q, tids, t, sh.(slots := sh.slots[k := sh.slots[k].(full := false)]),
      th.(frames := th.frames + [Frame(IdOf(k), FreeDrop(k, true))]))
  {
    var me := (t, |th.frames|);
    q := StepOn(ss, r, tids, t, sh, th.frames, Frame(IdOf(k), FreeRemoved(k)), th.active);
    q := StepOn(ss, q, tids, t, Owned(sh, k, Some(me)), th.frames, Frame(IdOf(k), FreeLocked(k)), th.active);
    var taken := sh.slots[k].(full := false, owner := Some(me));
    q := StepOn(ss, q, tids, t, sh.(slots := sh.slots[k := taken]), th.frames, Frame(IdOf(k), FreeTaken(k, true)),
      th.active);
    assert sh.slots[k := taken][k := taken.(owner := None)] == sh.slots[k := sh.slots[k].(full := false)];
  }

  /** The slot of a destroyed engine whose free has returned. */
  predicate Gone(slot: Slot) {
    slot.freed && slot.drops == 1 && !slot.full && slot.owner.None? && slot.remover.Some?
  }

  /** Likewise any such thread can free the handle: its engine is destroyed and the call returns. */
  lemma FreeSucceeds(ss: seq<State>, tids: set<Tid>, t: Tid, k: nat) returns (r: seq<State>)
    requires Run(ss, tids) && |Last(ss).sh.slots| <= WRAP && Callable(Last(ss), t)
    requires Live(Last(ss).sh, k) && Last(ss).sh.holder.None? && Last(ss).sh.slots[k].owner.None?
    ensures Run(r, tids) && ss <= r && Last(r).threads == Last(ss).threads
    ensures var sh, now := Last(ss).sh, Last(r).sh;
      && now.registry == sh.registry - {IdOf(k)} && now.holder.None?
      && k < |now.slots| && now.slots == sh.slots[k := now.slots[k]] && Gone(now.slots[k])
  {
    var sh, th := Last(ss).sh, Last(ss).threads[t];
    RunKeeps(ss, tids, |ss| - 1);
    RunKept(ss, tids, |ss| - 1);
    assert SlotOk(sh.slots[k]);
    r := FreeDetaches(ss, tids, t, k);
    var detached := Detached(sh, k, (t, |th.frames|));
    r := FreeTakesOut(ss, r, tids, t, k, detached, th);
    var taken := detached.(slots := detached.slots[k := detached.slots[k].(full := false)]);
    r := StepOn(ss, r, tids, t, taken, th.frames, Frame(IdOf(k), FreeDrop(k, true)), th.active);
    var dropped := SetSlot(taken, k, taken.slots[k].(drops := 1));
    r := StepOn(ss, r, tids, t, dropped, th.frames, Frame(IdOf(k), FreeReturn(k)), th.active);
    assert Last(ss).threads[t := th] == Last(ss).threads;
  }

  /** And any such thread can create an engine, which is then live under the next id. */
  lemma CreateSucceeds(ss: seq<State>, tids: set<Tid>, t: Tid) returns (r: seq<State>)
    requires Run(ss, tids) && |Last(ss).sh.slots| < WRAP
    requires Callable(Last(ss), t) && Last(ss).sh.holder.None?
    ensures Run(r, tids) && ss <= r && Last(r).threads == Last(ss).threads
    ensures var sh, now, n := Last(ss).sh, Last(r).sh, |Last(ss).sh.slots|;
      && |now.slots| == n + 1 && now.slots[..n] == sh.slots && now.holder.None?
      && Live(now, n) && now.slots[n].owner.None? && now.registry == sh.registry[IdOf(n) := n]
  {
    var sh, th, n := Last(ss).sh, Last(ss).threads[t], |Last(ss).sh.slots|;
    r := CallStep(ss, tids, t, CallNew);
    r := StepOn(ss, r, tids, t, sh, th.frames, Frame(0, NewCall), th.active);
    r := StepOn(ss, r, tids, t, Last(r).sh, th.frames, Frame(IdOf(n), NewNumbered(n)), th.active);
    r := StepOn(ss, r, tids, t, Last(r).sh, th.frames, Frame(IdOf(n), NewInsert(n)), th.active);
    assert Last(ss).threads[t := th] == Last(ss).threads;
  }

  // ----- when nothing can advance -----

  /** No call in progress can take its next step. */
  predicate AllWait(s: State) {
    forall t :: t in s.threads && s.threads[t].frames != [] ==> !Ready(s.sh, Top(s.threads[t]))
  }

  /** The top call of `t` waits for an engine whose operation has called back in and not returned. */
  predicate WaitsForNested(s: State, t: Tid) {
    && t in s.threads && s.threads[t].frames != []
    && var f := Top(s.threads[t]);
       && WaitsForMutex(f.pc) && f.pc.slot < |s.sh.slots| && s.sh.slots[f.pc.slot].owner.Some?
       && var site := s.sh.slots[f.pc.slot].owner.value;
          At(s, site) && FrameAt(s, site).pc == OpRunning(f.pc.slot) && site.1 < |s.threads[site.0].frames| - 1
  }

  lemma OnTop(s: State, site: Site)
    requires Inv(s) && At(s, site) && !Nests(FrameAt(s, site).pc)
    ensures FrameAt(s, site) == Top(s.threads[site.0]) && FrameOk(s.sh, site, FrameAt(s, site))
  {
    assert ThreadOk(s.threads[site.0]);
  }

  /** The registry lock is never what everyone waits for: its holder can always go on. */
  lemma HolderGoesOn(s: State)
    requires Inv(s) && s.sh.holder.Some?
    ensures !AllWait(s)
  {
    var site := s.sh.holder.value;
    OnTop(s, site);
    var f := FrameAt(s, site);
    if f.pc.FreeRemove? && f.id in s.sh.registry {
      assert Registered(s.sh, f.id);
    }
    assert Ready(s.sh, Top(s.threads[site.0]));
  }

  /** Whoever holds an engine mutex goes on, unless its operation has called back in. */
  lemma OwnerGoesOn(s: State, k: nat)
    requires Inv(s) && k < |s.sh.slots| && s.sh.slots[k].owner.Some? && AllWait(s)
    ensures var site := s.sh.slots[k].owner.value;
      At(s, site) && FrameAt(s, site).pc == OpRunning(k) && site.1 < |s.threads[site.0].frames| - 1
  {
    var site := s.sh.slots[k].owner.value;
    assert At(s, site) && HoldsMutex(FrameAt(s, site).pc) && FrameAt(s, site).pc.slot == k;
    assert ThreadOk(s.threads[site.0]);
  }

  /** Every call in progress waits for an engine whose operation has called back in. */
  predicate AllWaitForNested(s: State) {
    forall t :: t in s.threads && s.threads[t].frames != [] ==> WaitsForNested(s, t)
  }

  /**
   * In a reachable state no call in progress can advance exactly when every one of them waits for an
   * engine whose operation has called back in. In particular some call advances when none is nested.
   */
  lemma WaitingExactly(ss: seq<State>, tids: set<Tid>, i: nat)
    requires Run(ss, tids) && i < |ss|
    ensures AllWait(ss[i]) <==> AllWaitForNested(ss[i])
  {
    RunKeeps(ss, tids, i);
    if AllWait(ss[i]) {
      AllNested(ss[i]);
    }
  }

  lemma AllNested(s: State)
    requires Inv(s) && AllWait(s)
    ensures AllWaitForNested(s)
  {
    forall t | t in s.threads && s.threads[t].frames != []
      ensures WaitsForNested(s, t)
    {
      EveryoneWaits(s, t);
    }
  }

  lemma EveryoneWaits(s: State, t: Tid)
    requires Inv(s) && AllWait(s) && t in s.threads && s.threads[t].frames != []
    ensures WaitsForNested(s, t)
  {
    var f := Top(s.threads[t]);
    var me: Site := (t, |s.threads[t].frames| - 1);
    assert At(s, me) && FrameOk(s.sh, me, FrameAt(s, me));
    if s.sh.holder.Some? {
      HolderGoesOn(s);
    }
    assert WaitsForMutex(f.pc);
    OwnerGoesOn(s, f.pc.slot);
  }

  /** Two threads inside two engines can call back into each other's engine and wait for ever. */
  lemma CrosswiseDeadlock() returns (ss: seq<State>)
    ensures Run(ss, {0, 1}) && forall t, a :: !Enabled(Last(ss), t, a)
    ensures forall t :: t in {0, 1} ==> t in Last(ss).threads && Last(ss).threads[t].frames != []
  {
    ss := [Init({0, 1})];
    ss := CreateSucceeds(ss, {0, 1}, 0);
    ss := CreateSucceeds(ss, {0, 1}, 0);
    ss := OperationRuns(ss, {0, 1}, 0, 0);
    ss := OperationRuns(ss, {0, 1}, 1, 1);
    ss := OperationEnters(ss, {0, 1}, 0, 1);
    ss := OperationEnters(ss, {0, 1}, 1, 0);
  }
}
