/**
 * The engine handle registry as a state machine: any number of threads, each with a
 * stack of nested calls, advance one atomic step at a time in any interleaving.
 *
 * A call is one of three: run an operation on a handle, free a handle, or create an
 * engine. One lock guards the registry; each slot has a mutex around its optional
 * engine; each thread keeps a list of the handles it is inside.
 */
module EngineRegistry {
  import opened Common

  /** Handle ids are 64-bit and the counter wraps. */
  const WRAP: nat := 0x1_0000_0000_0000_0000

  type Tid = nat

  /** A call frame: the thread and its position on that thread's stack. */
  type Site = (Tid, nat)

  /** The id given to the n-th engine created: the counter starts at one. */
  function IdOf(n: nat): nat {
    (1 + n) % WRAP
  }

  datatype Pc =
    | OpCall                          // about to lock the registry
    | OpLookup                        // registry locked
    | OpCloned(slot: nat)             // handle cloned, registry unlocked
    | OpEntered(slot: nat)            // on the active list, waiting for the engine mutex
    | OpLocked(slot: nat)             // engine mutex held
    | OpRunning(slot: nat)            // the operation runs on the engine
    | OpClosing(slot: nat)            // the engine was gone; mutex still held
    | OpLeaving(slot: nat)            // mutex released, still on the active list
    | FreeCall                        // about to lock the registry
    | FreeRemove                      // registry locked
    | FreeRemoved(slot: nat)          // slot detached, waiting for the engine mutex
    | FreeLocked(slot: nat)           // engine mutex held
    | FreeTaken(slot: nat, got: bool) // engine taken out, mutex still held
    | FreeDrop(slot: nat, got: bool)  // no lock held, engine being destroyed
    | FreeReturn(slot: nat)
    | NewCall                         // engine built, about to draw an id
    | NewNumbered(slot: nat)          // about to lock the registry
    | NewInsert(slot: nat)            // registry locked

  datatype Frame = Frame(id: nat, pc: Pc)

  datatype Thread = Thread(frames: seq<Frame>, active: seq<nat>)

  /**
   * One engine's slot. `owner` is the frame holding the mutex, `full` whether the
   * engine is still inside. The rest is history: who created and who detached the
   * slot, how often the engine was destroyed, whether a free of it returned.
   */
  datatype Slot = Slot(owner: Option<Site>, full: bool, inserted: bool, creator: Site, remover: Option<Site>,
                       drops: nat, freed: bool)

  /** What all threads share: the registry, who holds its lock, and the slots. */
  datatype Shared = Shared(registry: map<nat, nat>, holder: Option<Site>, slots: seq<Slot>)

  datatype State = State(sh: Shared, threads: map<Tid, Thread>)

  function Init(tids: set<Tid>): State {
    State(Shared(map[], None, []), map t | t in tids :: Thread([], []))
  }

  // ----- what a program counter implies -----

  predicate HoldsRegistry(pc: Pc) {
    pc.OpLookup? || pc.FreeRemove? || pc.NewInsert?
  }

  predicate HoldsMutex(pc: Pc) {
    pc.OpLocked? || pc.OpRunning? || pc.OpClosing? || pc.FreeLocked? || pc.FreeTaken?
  }

  predicate WaitsForMutex(pc: Pc) {
    pc.OpEntered? || pc.FreeRemoved?
  }

  /** Inside `with_engine`, between entering and leaving the active list. */
  predicate IsOpen(pc: Pc) {
    pc.OpEntered? || pc.OpLocked? || pc.OpRunning? || pc.OpClosing? || pc.OpLeaving?
  }

  /** Points from which foreign code may call back in. */
  predicate Nests(pc: Pc) {
    pc.OpRunning? || pc.FreeDrop?
  }

  // ----- steps -----

  datatype Action = CallOp(id: nat) | CallFree(id: nat) | CallNew | Advance

  /** The active list of a thread after the guard of `id` is dropped: the last occurrence goes. */
  function RemoveLast(active: seq<nat>, id: nat): seq<nat> {
    if active == [] then []
    else if active[|active| - 1] == id then active[..|active| - 1]
    else RemoveLast(active[..|active| - 1], id) + [active[|active| - 1]]
  }

  /** Can the step of frame `f` be taken now? Only lock acquisitions wait. */
  predicate Ready(sh: Shared, f: Frame) {
    match f.pc
    case OpCall => sh.holder.None?
    case FreeCall => sh.holder.None?
    case NewNumbered(_) => sh.holder.None?
    case OpEntered(k) => k < |sh.slots| && sh.slots[k].owner.None?
    case FreeRemoved(k) => k < |sh.slots| && sh.slots[k].owner.None?
    case OpLookup => true
    case NewCall => true
    case FreeRemove => f.id in sh.registry ==> sh.registry[f.id] < |sh.slots|
    case _ => f.pc.slot < |sh.slots|
  }

  /** The effect of one step of a call: shared state, what the call does next, its thread's active list. */
  datatype Outcome = Outcome(sh: Shared, next: Option<Frame>, active: seq<nat>)

  function SetSlot(sh: Shared, k: nat, slot: Slot): Shared
    requires k < |sh.slots|
  {
    sh.(slots := sh.slots[k := slot])
  }

  function Act(sh: Shared, me: Site, f: Frame, active: seq<nat>): Outcome
    requires Ready(sh, f)
  {
    match f.pc
    case OpCall => Outcome(sh.(holder := Some(me)), Some(f.(pc := OpLookup)), active)
    case OpLookup =>
      var next := if f.id in sh.registry then Some(f.(pc := OpCloned(sh.registry[f.id]))) else None;
      Outcome(sh.(holder := None), next, active)
    case OpCloned(k) =>
      if f.id in active then Outcome(sh, None, active)
      else Outcome(sh, Some(f.(pc := OpEntered(k))), active + [f.id])
    case OpEntered(k) =>
      Outcome(SetSlot(sh, k, sh.slots[k].(owner := Some(me))), Some(f.(pc := OpLocked(k))), active)
    case OpLocked(k) =>
      Outcome(sh, Some(f.(pc := if sh.slots[k].full then OpRunning(k) else OpClosing(k))), active)
    case OpRunning(k) =>
      Outcome(SetSlot(sh, k, sh.slots[k].(owner := None)), Some(f.(pc := OpLeaving(k))), active)
    case OpClosing(k) =>
      Outcome(SetSlot(sh, k, sh.slots[k].(owner := None)), Some(f.(pc := OpLeaving(k))), active)
    case OpLeaving(k) => Outcome(sh, None, RemoveLast(active, f.id))
    case FreeCall => Outcome(sh.(holder := Some(me)), Some(f.(pc := FreeRemove)), active)
    case FreeRemove =>
      if f.id in sh.registry then
        var k := sh.registry[f.id];
        var sh1 := Shared(sh.registry - {f.id}, None, sh.slots[k := sh.slots[k].(remover := Some(me))]);
        Outcome(sh1, Some(f.(pc := FreeRemoved(k))), active)
      else Outcome(sh.(holder := None), None, active)
    case FreeRemoved(k) =>
      Outcome(SetSlot(sh, k, sh.slots[k].(owner := Some(me))), Some(f.(pc := FreeLocked(k))), active)
    case FreeLocked(k) =>
      Outcome(SetSlot(sh, k, sh.slots[k].(full := false)), Some(f.(pc := FreeTaken(k, sh.slots[k].full))), active)
    case FreeTaken(k, got) =>
      Outcome(SetSlot(sh, k, sh.slots[k].(owner := None)), Some(f.(pc := FreeDrop(k, got))), active)
    case FreeDrop(k, got) =>
      var drops := sh.slots[k].drops + if got then 1 else 0;
      Outcome(SetSlot(sh, k, sh.slots[k].(drops := drops)), Some(f.(pc := FreeReturn(k))), active)
    case FreeReturn(k) => Outcome(SetSlot(sh, k, sh.slots[k].(freed := true)), None, active)
    case NewCall =>
      var n := |sh.slots|;
      var slot := Slot(None, true, false, me, None, 0, false);
      Outcome(sh.(slots := sh.slots + [slot]), Some(Frame(IdOf(n), NewNumbered(n))), active)
    case NewNumbered(n) => Outcome(sh.(holder := Some(me)), Some(f.(pc := NewInsert(n))), active)
    case NewInsert(n) =>
      var sh1 := Shared(sh.registry[f.id := n], None, sh.slots[n := sh.slots[n].(inserted := true)]);
      Outcome(sh1, None, active)
  }

  function Top(th: Thread): Frame
    requires th.frames != []
  {
    th.frames[|th.frames| - 1]
  }

  predicate Enabled(s: State, t: Tid, a: Action) {
    && t in s.threads
    && var th := s.threads[t];
       if a.Advance? then th.frames != [] && Ready(s.sh, Top(th))
       else th.frames == [] || Nests(Top(th).pc)
  }

  function Called(a: Action): Frame
    requires !a.Advance?
  {
    match a
    case CallOp(id) => Frame(id, OpCall)
    case CallFree(id) => Frame(id, FreeCall)
    case CallNew => Frame(0, NewCall)
  }

  /** One step of thread `t`: a new call, or an advance of its top call. */
  function Next(s: State, t: Tid, a: Action): State
    requires Enabled(s, t, a)
  {
    var th := s.threads[t];
    if a.Advance? then
      var below := th.frames[..|th.frames| - 1];
      var o := Act(s.sh, (t, |below|), Top(th), th.active);
      var frames := if o.next.Some? then below + [o.next.value] else below;
      State(o.sh, s.threads[t := Thread(frames, o.active)])
    else
      State(s.sh, s.threads[t := th.(frames := th.frames + [Called(a)])])
  }

  // ----- the invariant -----

  predicate NewOk(sh: Shared, me: Site, id: nat, n: nat) {
    n < |sh.slots| && id == IdOf(n) && !sh.slots[n].inserted && sh.slots[n].creator == me
  }

  predicate FreeOk(sh: Shared, me: Site, id: nat, k: nat) {
    k < |sh.slots| && id == IdOf(k) && sh.slots[k].inserted && sh.slots[k].remover == Some(me)
  }

  predicate OpOk(sh: Shared, id: nat, k: nat) {
    k < |sh.slots| && id == IdOf(k) && sh.slots[k].inserted
  }

  /** What the shared state owes to a call `f` whose frame is at `me`. */
  predicate FrameOk(sh: Shared, me: Site, f: Frame) {
    && (HoldsRegistry(f.pc) ==> sh.holder == Some(me))
    && match f.pc
       case NewNumbered(n) => NewOk(sh, me, f.id, n)
       case NewInsert(n) => NewOk(sh, me, f.id, n)
       case OpCloned(k) => OpOk(sh, f.id, k)
       case OpEntered(k) => OpOk(sh, f.id, k)
       case OpLocked(k) => OpOk(sh, f.id, k) && sh.slots[k].owner == Some(me)
       case OpRunning(k) => OpOk(sh, f.id, k) && sh.slots[k].owner == Some(me) && sh.slots[k].full
       case OpClosing(k) => OpOk(sh, f.id, k) && sh.slots[k].owner == Some(me)
       case OpLeaving(k) => OpOk(sh, f.id, k)
       case FreeRemoved(k) => FreeOk(sh, me, f.id, k) && sh.slots[k].full
       case FreeLocked(k) => FreeOk(sh, me, f.id, k) && sh.slots[k].full && sh.slots[k].owner == Some(me)
       case FreeTaken(k, got) =>
         FreeOk(sh, me, f.id, k) && !sh.slots[k].full && sh.slots[k].drops == 0 && got && sh.slots[k].owner == Some(me)
       case FreeDrop(k, got) => FreeOk(sh, me, f.id, k) && !sh.slots[k].full && sh.slots[k].drops == 0 && got
       case FreeReturn(k) => FreeOk(sh, me, f.id, k) && !sh.slots[k].full && sh.slots[k].drops == 1
       case _ => true
  }

  predicate SlotOk(slot: Slot) {
    && (slot.full ==> slot.drops == 0)
    && slot.drops <= 1
    && (slot.freed ==> slot.drops == 1)
    && (!slot.inserted ==> slot.full && slot.owner.None? && slot.remover.None?)
  }

  predicate Registered(sh: Shared, id: nat)
    requires id in sh.registry
  {
    var k := sh.registry[id];
    k < |sh.slots| && id == IdOf(k) && sh.slots[k].inserted && sh.slots[k].remover.None? && sh.slots[k].full
  }

  predicate SharedOk(sh: Shared) {
    && (forall k :: 0 <= k < |sh.slots| ==> SlotOk(sh.slots[k]))
    && (forall id :: id in sh.registry ==> Registered(sh, id))
  }

  function ActiveIds(frames: seq<Frame>): seq<nat> {
    if frames == [] then []
    else
      var f := frames[|frames| - 1];
      ActiveIds(frames[..|frames| - 1]) + if IsOpen(f.pc) then [f.id] else []
  }

  predicate NoDuplicates(xs: seq<nat>) {
    forall i, j :: 0 <= i < j < |xs| ==> xs[i] != xs[j]
  }

  /** The active list is exactly the ids of the open calls, each once; only the top call is not nested into. */
  predicate ThreadOk(th: Thread) {
    && th.active == ActiveIds(th.frames) && NoDuplicates(th.active)
    && forall i :: 0 <= i < |th.frames| - 1 ==> Nests(th.frames[i].pc)
  }

  predicate At(s: State, site: Site) {
    site.0 in s.threads && site.1 < |s.threads[site.0].frames|
  }

  function FrameAt(s: State, site: Site): Frame
    requires At(s, site)
  {
    s.threads[site.0].frames[site.1]
  }

  ghost predicate FramesOk(s: State) {
    forall site: Site :: At(s, site) ==> FrameOk(s.sh, site, FrameAt(s, site))
  }

  /** A lock that is held is held by a frame that is there and says so. */
  predicate LocksOk(s: State) {
    && (s.sh.holder.Some? ==> At(s, s.sh.holder.value) && HoldsRegistry(FrameAt(s, s.sh.holder.value).pc))
    && forall k :: 0 <= k < |s.sh.slots| && s.sh.slots[k].owner.Some? ==>
         var site := s.sh.slots[k].owner.value;
         At(s, site) && HoldsMutex(FrameAt(s, site).pc) && FrameAt(s, site).pc.slot == k
  }

  ghost predicate Inv(s: State) {
    && FramesOk(s)
    && SharedOk(s.sh)
    && LocksOk(s)
    && forall t :: t in s.threads ==> ThreadOk(s.threads[t])
  }

  // ----- every step keeps it -----

  lemma OtherFrameOp(sh: Shared, me: Site, f: Frame, active: seq<nat>, other: Site, g: Frame)
    requires SharedOk(sh) && Ready(sh, f) && FrameOk(sh, me, f)
    requires f.pc.OpCall? || f.pc.OpLookup? || f.pc.OpCloned? || f.pc.OpEntered? || f.pc.OpLocked?
          || f.pc.OpRunning? || f.pc.OpClosing? || f.pc.OpLeaving?
    requires other != me && FrameOk(sh, other, g)
    ensures FrameOk(Act(sh, me, f, active).sh, other, g)
  {
  }

  lemma OtherFrameFree(sh: Shared, me: Site, f: Frame, active: seq<nat>, other: Site, g: Frame)
    requires SharedOk(sh) && Ready(sh, f) && FrameOk(sh, me, f)
    requires f.pc.FreeRemove? || f.pc.FreeRemoved? || f.pc.FreeLocked? || f.pc.FreeTaken? || f.pc.FreeDrop? ||
      f.pc.FreeReturn?
    requires other != me && FrameOk(sh, other, g)
    ensures FrameOk(Act(sh, me, f, active).sh, other, g)
  {
  }

  /** A step keeps what the shared state owes to any other call. */
  lemma OtherFrame(sh: Shared, me: Site, f: Frame, active: seq<nat>, other: Site, g: Frame)
    requires SharedOk(sh) && Ready(sh, f) && FrameOk(sh, me, f)
    requires other != me && FrameOk(sh, other, g)
    ensures FrameOk(Act(sh, me, f, active).sh, other, g)
  {
    match f.pc
    case FreeCall =>
    case NewCall =>
    case NewNumbered(_) =>
    case NewInsert(_) =>
    case FreeRemove => OtherFrameFree(sh, me, f, active, other, g);
    case FreeRemoved(_) => OtherFrameFree(sh, me, f, active, other, g);
    case FreeLocked(_) => OtherFrameFree(sh, me, f, active, other, g);
    case FreeTaken(_, _) => OtherFrameFree(sh, me, f, active, other, g);
    case FreeDrop(_, _) => OtherFrameFree(sh, me, f, active, other, g);
    case FreeReturn(_) => OtherFrameFree(sh, me, f, active, other, g);
    case _ => OtherFrameOp(sh, me, f, active, other, g);
  }

  /** A step leaves the stepping call where its own next step finds what it needs. */
  lemma OwnFrame(sh: Shared, me: Site, f: Frame, active: seq<nat>)
    requires SharedOk(sh) && Ready(sh, f) && FrameOk(sh, me, f)
    ensures var o := Act(sh, me, f, active); o.next.Some? ==> FrameOk(o.sh, me, o.next.value)
  {
  }

  lemma StepShared(sh: Shared, me: Site, f: Frame, active: seq<nat>)
    requires SharedOk(sh) && Ready(sh, f) && FrameOk(sh, me, f)
    ensures SharedOk(Act(sh, me, f, active).sh)
  {
  }

  /** A step changes the owner of a lock only to or from the stepping call. */
  lemma StepLocks(sh: Shared, me: Site, f: Frame, active: seq<nat>)
    requires SharedOk(sh) && Ready(sh, f) && FrameOk(sh, me, f)
    requires sh.holder == Some(me) ==> HoldsRegistry(f.pc)
    requires forall k :: 0 <= k < |sh.slots| && sh.slots[k].owner == Some(me) ==> HoldsMutex(f.pc) && f.pc.slot == k
    ensures var o := Act(sh, me, f, active);
            && (o.sh.holder.Some? ==>
                  if o.sh.holder.value == me then o.next.Some? && HoldsRegistry(o.next.value.pc)
                  else o.sh.holder == sh.holder)
            && forall k :: 0 <= k < |o.sh.slots| && o.sh.slots[k].owner.Some? ==>
                 if o.sh.slots[k].owner.value == me
                 then o.next.Some? && HoldsMutex(o.next.value.pc) && o.next.value.pc.slot == k
                 else k < |sh.slots| && o.sh.slots[k].owner == sh.slots[k].owner
  {
  }

  lemma {:induction false} RemoveLastOfLast(xs: seq<nat>, id: nat)
    ensures RemoveLast(xs + [id], id) == xs
  {
    assert (xs + [id])[..|xs|] == xs;
  }

  lemma ActiveSnoc(below: seq<Frame>, f: Frame)
    ensures ActiveIds(below + [f]) == ActiveIds(below) + if IsOpen(f.pc) then [f.id] else []
  {
    assert (below + [f])[..|below|] == below;
  }

  /** How one step of call `f` turns the active list into `now` and the call into `next`. */
  predicate ActiveMoves(f: Frame, active: seq<nat>, next: Option<Frame>, now: seq<nat>) {
    if f.pc.OpCloned? && f.id !in active then
      now == active + [f.id] && next.Some? && IsOpen(next.value.pc) && next.value.id == f.id
    else if f.pc.OpLeaving? then next.None? && now == RemoveLast(active, f.id)
    else
      && now == active
      && (if next.None? then !IsOpen(f.pc)
          else IsOpen(next.value.pc) == IsOpen(f.pc) && (IsOpen(f.pc) ==> next.value.id == f.id))
  }

  lemma ActMoves(sh: Shared, me: Site, f: Frame, active: seq<nat>)
    requires Ready(sh, f)
    ensures var o := Act(sh, me, f, active); ActiveMoves(f, active, o.next, o.active)
  {
  }

  lemma MovesKeep(f: Frame, below: seq<Frame>, active: seq<nat>, next: Option<Frame>, now: seq<nat>)
    requires active == ActiveIds(below + [f]) && NoDuplicates(active) && ActiveMoves(f, active, next, now)
    ensures now == ActiveIds(if next.Some? then below + [next.value] else below) && NoDuplicates(now)
  {
    ActiveSnoc(below, f);
    if next.Some? {
      ActiveSnoc(below, next.value);
    }
    RemoveLastOfLast(ActiveIds(below), f.id);
  }

  /** A step keeps the active list equal to the open calls, without duplicates. */
  lemma StepActive(sh: Shared, me: Site, f: Frame, below: seq<Frame>, active: seq<nat>)
    requires Ready(sh, f) && active == ActiveIds(below + [f]) && NoDuplicates(active)
    ensures var o := Act(sh, me, f, active);
            && o.active == ActiveIds(if o.next.Some? then below + [o.next.value] else below)
            && NoDuplicates(o.active)
  {
    var o := Act(sh, me, f, active);
    ActMoves(sh, me, f, active);
    MovesKeep(f, below, active, o.next, o.active);
  }

  /** `s'` is `s` with the top call of `t` replaced by `next`, or gone. */
  predicate Advances(s: State, t: Tid, next: Option<Frame>, s': State) {
    && t in s.threads && s.threads[t].frames != []
    && var below := s.threads[t].frames[..|s.threads[t].frames| - 1];
       && s'.threads.Keys == s.threads.Keys
       && (forall u :: u in s.threads && u != t ==> s'.threads[u] == s.threads[u])
       && s'.threads[t].frames == if next.Some? then below + [next.value] else below
  }

  lemma SitesAfter(s: State, t: Tid, next: Option<Frame>, s': State, site: Site)
    requires Advances(s, t, next, s')
    ensures var me := (t, |s.threads[t].frames| - 1);
            if site == me then At(s', site) == next.Some? && (next.Some? ==> FrameAt(s', site) == next.value)
            else At(s', site) == At(s, site) && (At(s, site) ==> FrameAt(s', site) == FrameAt(s, site))
  {
  }

  lemma AdvanceLocks(s: State, t: Tid)
    requires Inv(s) && Enabled(s, t, Advance)
    ensures LocksOk(Next(s, t, Advance))
  {
    var th := s.threads[t];
    var me: Site := (t, |th.frames| - 1);
    assert At(s, me) && FrameOk(s.sh, me, FrameAt(s, me));
    StepLocks(s.sh, me, Top(th), th.active);
    var o := Act(s.sh, me, Top(th), th.active);
    var s' := Next(s, t, Advance);
    LocksTransfer(s, t, o, s');
  }

  lemma LocksTransfer(s: State, t: Tid, o: Outcome, s': State)
    requires Advances(s, t, o.next, s') && s'.sh == o.sh && LocksOk(s)
    requires var me := (t, |s.threads[t].frames| - 1);
             && (o.sh.holder.Some? ==>
                   if o.sh.holder.value == me then o.next.Some? && HoldsRegistry(o.next.value.pc)
                   else o.sh.holder == s.sh.holder)
             && forall k :: 0 <= k < |o.sh.slots| && o.sh.slots[k].owner.Some? ==>
                  if o.sh.slots[k].owner.value == me
                  then o.next.Some? && HoldsMutex(o.next.value.pc) && o.next.value.pc.slot == k
                  else k < |s.sh.slots| && o.sh.slots[k].owner == s.sh.slots[k].owner
    ensures LocksOk(s')
  {
    if o.sh.holder.Some? {
      SitesAfter(s, t, o.next, s', o.sh.holder.value);
    }
    forall k | 0 <= k < |s'.sh.slots| && s'.sh.slots[k].owner.Some?
      ensures var site := s'.sh.slots[k].owner.value;
              At(s', site) && HoldsMutex(FrameAt(s', site).pc) && FrameAt(s', site).pc.slot == k
    {
      SitesAfter(s, t, o.next, s', s'.sh.slots[k].owner.value);
    }
  }

  lemma AdvanceFrames(s: State, t: Tid, site: Site)
    requires Inv(s) && Enabled(s, t, Advance) && At(Next(s, t, Advance), site)
    ensures FrameOk(Next(s, t, Advance).sh, site, FrameAt(Next(s, t, Advance), site))
  {
    var th := s.threads[t];
    var me: Site := (t, |th.frames| - 1);
    assert At(s, me) && FrameOk(s.sh, me, FrameAt(s, me));
    SitesAfter(s, t, Act(s.sh, me, Top(th), th.active).next, Next(s, t, Advance), site);
    if site == me {
      OwnFrame(s.sh, me, Top(th), th.active);
    } else {
      OtherFrame(s.sh, me, Top(th), th.active, site, FrameAt(s, site));
    }
  }

  lemma AdvanceKeeps(s: State, t: Tid)
    requires Inv(s) && Enabled(s, t, Advance)
    ensures Inv(Next(s, t, Advance))
  {
    var th := s.threads[t];
    var me: Site := (t, |th.frames| - 1);
    assert At(s, me) && FrameAt(s, me) == Top(th);
    StepShared(s.sh, me, Top(th), th.active);
    AdvanceLocks(s, t);
    assert th.frames == th.frames[..me.1] + [Top(th)];
    StepActive(s.sh, me, Top(th), th.frames[..me.1], th.active);
    forall site: Site | At(Next(s, t, Advance), site)
      ensures FrameOk(Next(s, t, Advance).sh, site, FrameAt(Next(s, t, Advance), site))
    {
      AdvanceFrames(s, t, site);
    }
  }

  lemma CallThread(th: Thread, f: Frame)
    requires ThreadOk(th) && (th.frames == [] || Nests(Top(th).pc)) && !IsOpen(f.pc)
    ensures ThreadOk(th.(frames := th.frames + [f]))
  {
    assert (th.frames + [f])[..|th.frames|] == th.frames;
  }

  lemma CallFrames(s: State, s': State, f: Frame)
    requires FramesOk(s) && s'.sh == s.sh && (f.pc.OpCall? || f.pc.FreeCall? || f.pc.NewCall?)
    requires forall site: Site :: At(s', site) ==>
      (At(s, site) && FrameAt(s', site) == FrameAt(s, site)) || FrameAt(s', site) == f
    ensures FramesOk(s')
  {
  }

  lemma CallKeeps(s: State, t: Tid, a: Action)
    requires Inv(s) && Enabled(s, t, a) && !a.Advance?
    ensures Inv(Next(s, t, a))
  {
    var s' := Next(s, t, a);
    CallThread(s.threads[t], Called(a));
    CallFrames(s, s', Called(a));
    CallLocks(s, s');
  }

  lemma CallLocks(s: State, s': State)
    requires LocksOk(s) && s'.sh == s.sh
    requires forall site: Site :: At(s, site) ==> At(s', site) && FrameAt(s', site) == FrameAt(s, site)
    ensures LocksOk(s')
  {
  }

  // ----- runs -----

  ghost predicate Steps(s: State, s': State) {
    exists t, a :: Enabled(s, t, a) && s' == Next(s, t, a)
  }

  /** A finite run of any threads in any interleaving. */
  ghost predicate Run(ss: seq<State>, tids: set<Tid>) {
    && ss != [] && ss[0] == Init(tids)
    && forall i :: 0 <= i < |ss| - 1 ==> Steps(ss[i], ss[i + 1])
  }

  lemma {:induction false} RunKeeps(ss: seq<State>, tids: set<Tid>, i: nat)
    requires Run(ss, tids) && i < |ss|
    ensures Inv(ss[i])
  {
    if i > 0 {
      RunKeeps(ss, tids, i - 1);
      assert Steps(ss[i - 1], ss[i - 1 + 1]);
      var t, a :| Enabled(ss[i - 1], t, a) && ss[i] == Next(ss[i - 1], t, a);
      if a.Advance? {
        AdvanceKeeps(ss[i - 1], t);
      } else {
        CallKeeps(ss[i - 1], t, a);
      }
    }
  }

  lemma StepMonotone(sh: Shared, me: Site, f: Frame, active: seq<nat>, k: nat)
    requires Ready(sh, f) && k < |sh.slots|
    ensures var sh' := Act(sh, me, f, active).sh;
            && |sh.slots| <= |sh'.slots|
            && sh.slots[k].drops <= sh'.slots[k].drops
            && (sh.slots[k].freed ==> sh'.slots[k].freed)
  {
  }

  /** Nothing that is history in `s` is undone in `s'`, as far as slot `k` goes. */
  predicate Later(s: State, s': State, k: nat) {
    && k < |s.sh.slots| <= |s'.sh.slots|
    && s.sh.slots[k].drops <= s'.sh.slots[k].drops
    && (s.sh.slots[k].freed ==> s'.sh.slots[k].freed)
  }

  lemma NextLater(s: State, s': State, k: nat)
    requires Steps(s, s') && k < |s.sh.slots|
    ensures Later(s, s', k)
  {
    var t, a :| Enabled(s, t, a) && s' == Next(s, t, a);
    if a.Advance? {
      var th := s.threads[t];
      StepMonotone(s.sh, (t, |th.frames| - 1), Top(th), th.active, k);
    }
  }

  lemma StepInRun(ss: seq<State>, tids: set<Tid>, j: nat, k: nat)
    requires Run(ss, tids) && 0 < j < |ss| && k < |ss[j - 1].sh.slots|
    ensures Later(ss[j - 1], ss[j], k)
  {
    assert Steps(ss[j - 1], ss[j - 1 + 1]);
    NextLater(ss[j - 1], ss[j], k);
  }

  /** Slots are never removed, a destruction is never undone, and neither is a returned free. */
  lemma {:induction false} RunMonotone(ss: seq<State>, tids: set<Tid>, i: nat, j: nat, k: nat)
    requires Run(ss, tids) && i <= j < |ss| && k < |ss[i].sh.slots|
    ensures Later(ss[i], ss[j], k)
    decreases j
  {
    if i < j {
      RunMonotone(ss, tids, i, j - 1, k);
      StepInRun(ss, tids, j, k);
    }
  }

  // ----- what a reader of the header is promised -----

  predicate RunsOn(s: State, site: Site, k: nat) {
    At(s, site) && FrameAt(s, site).pc == OpRunning(k)
  }

  predicate Destroys(s: State, site: Site, k: nat) {
    At(s, site) && FrameAt(s, site).pc.FreeDrop? && FrameAt(s, site).pc.slot == k
  }

  /** At most one call, of one thread, runs inside an engine. */
  ghost predicate Exclusive(s: State) {
    forall a: Site, b: Site, k: nat :: RunsOn(s, a, k) && RunsOn(s, b, k) ==> a == b
  }

  /** An engine is destroyed at most once, by one call, and neither before nor while an operation runs on it. */
  ghost predicate DestroyedOnce(s: State) {
    && (forall k :: 0 <= k < |s.sh.slots| ==> s.sh.slots[k].drops <= 1)
    && (forall a: Site, k: nat :: RunsOn(s, a, k) ==> k < |s.sh.slots| && s.sh.slots[k].drops == 0)
    && (forall a: Site, b: Site, k: nat :: RunsOn(s, a, k) ==> !Destroys(s, b, k))
    && (forall a: Site, b: Site, k: nat :: Destroys(s, a, k) && Destroys(s, b, k) ==> a == b)
    && (forall a: Site, k: nat :: Destroys(s, a, k) ==> k < |s.sh.slots| && s.sh.slots[k].drops == 0)
  }

  /** No thread holds the registry lock while it waits for, or holds, an engine mutex in the same call. */
  ghost predicate NoLockHeldWaiting(s: State) {
    forall t: Tid, i: nat :: At(s, (t, i)) && WaitsForMutex(FrameAt(s, (t, i)).pc) ==>
      !(s.sh.holder.Some? && s.sh.holder.value.0 == t)
  }

  /** A call of `with_engine` never waits for a mutex that its own thread holds. */
  ghost predicate NoSelfWait(s: State) {
    forall t: Tid, i: nat, k: nat :: At(s, (t, i)) && FrameAt(s, (t, i)).pc == OpEntered(k) ==>
      k < |s.sh.slots| && !(s.sh.slots[k].owner.Some? && s.sh.slots[k].owner.value.0 == t)
  }

  /** Each thread's active list is the ids of its open calls, in order and without duplicates. */
  ghost predicate ActiveListsExact(s: State) {
    forall t :: t in s.threads ==>
      s.threads[t].active == ActiveIds(s.threads[t].frames) && NoDuplicates(s.threads[t].active)
  }

  lemma {:induction false} OpenIsActive(frames: seq<Frame>, j: nat)
    requires j < |frames| && IsOpen(frames[j].pc)
    ensures frames[j].id in ActiveIds(frames)
  {
    if j < |frames| - 1 {
      OpenIsActive(frames[..|frames| - 1], j);
    }
  }

  lemma SelfWaitRefused(s: State, t: Tid, i: nat, k: nat)
    requires Inv(s) && At(s, (t, i)) && FrameAt(s, (t, i)).pc == OpEntered(k)
    ensures k < |s.sh.slots| && !(s.sh.slots[k].owner.Some? && s.sh.slots[k].owner.value.0 == t)
  {
    var th := s.threads[t];
    var f := FrameAt(s, (t, i));
    assert FrameOk(s.sh, (t, i), f) && ThreadOk(th);
    assert i == |th.frames| - 1;
    if s.sh.slots[k].owner.Some? && s.sh.slots[k].owner.value.0 == t {
      var j := s.sh.slots[k].owner.value.1;
      var g := FrameAt(s, (t, j));
      assert FrameOk(s.sh, (t, j), g);
      assert j < i && g.pc == OpRunning(k) && g.id == f.id;
      OpenIsActive(th.frames[..i], j);
      Repeated(ActiveIds(th.frames[..i]), f.id);
      assert false;
    }
  }

  lemma Repeated(xs: seq<nat>, x: nat)
    requires x in xs
    ensures !NoDuplicates(xs + [x])
  {
    var p :| 0 <= p < |xs| && xs[p] == x;
    assert (xs + [x])[p] == (xs + [x])[|xs|];
  }

  lemma InvIsExclusive(s: State)
    requires Inv(s)
    ensures Exclusive(s) && DestroyedOnce(s)
  {
    forall a: Site, k: nat | RunsOn(s, a, k)
      ensures k < |s.sh.slots| && s.sh.slots[k].owner == Some(a) && s.sh.slots[k].full && s.sh.slots[k].drops == 0
    {
      assert FrameOk(s.sh, a, FrameAt(s, a));
      assert SlotOk(s.sh.slots[k]);
    }
    forall a: Site, k: nat | Destroys(s, a, k)
      ensures k < |s.sh.slots| && s.sh.slots[k].remover == Some(a) && !s.sh.slots[k].full && s.sh.slots[k].drops == 0
    {
      assert FrameOk(s.sh, a, FrameAt(s, a));
    }
  }

  lemma InvIsWaitFree(s: State)
    requires Inv(s)
    ensures NoLockHeldWaiting(s)
  {
    forall t: Tid, i: nat | At(s, (t, i)) && WaitsForMutex(FrameAt(s, (t, i)).pc)
      ensures !(s.sh.holder.Some? && s.sh.holder.value.0 == t)
    {
      assert ThreadOk(s.threads[t]);
    }
  }

  lemma InvIsSafe(s: State)
    requires Inv(s)
    ensures Exclusive(s) && DestroyedOnce(s) && NoLockHeldWaiting(s) && NoSelfWait(s) && ActiveListsExact(s)
  {
    InvIsExclusive(s);
    InvIsWaitFree(s);
    forall t: Tid, i: nat, k: nat | At(s, (t, i)) && FrameAt(s, (t, i)).pc == OpEntered(k)
      ensures k < |s.sh.slots| && !(s.sh.slots[k].owner.Some? && s.sh.slots[k].owner.value.0 == t)
    {
      SelfWaitRefused(s, t, i, k);
    }
  }

  /** Every state of every run is safe. */
  lemma RunsAreSafe(ss: seq<State>, tids: set<Tid>, i: nat)
    requires Run(ss, tids) && i < |ss| && |ss[i].sh.slots| <= WRAP
    ensures Exclusive(ss[i]) && DestroyedOnce(ss[i]) && NoLockHeldWaiting(ss[i])
    ensures NoSelfWait(ss[i]) && ActiveListsExact(ss[i])
  {
    RunKeeps(ss, tids, i);
    InvIsSafe(ss[i]);
  }

  /** Once a free of a handle has returned, no operation on its id runs, then or ever after. */
  lemma QuietAfterFree(ss: seq<State>, tids: set<Tid>, i: nat, j: nat, k: nat, site: Site)
    requires Run(ss, tids) && i <= j < |ss| && |ss[j].sh.slots| <= WRAP
    requires k < |ss[i].sh.slots| && ss[i].sh.slots[k].freed
    requires At(ss[j], site) && FrameAt(ss[j], site).pc.OpRunning?
    ensures FrameAt(ss[j], site).id != IdOf(k)
  {
    RunKeeps(ss, tids, j);
    RunMonotone(ss, tids, i, j, k);
    var f := FrameAt(ss[j], site);
    assert FrameOk(ss[j].sh, site, f);
    if f.id == IdOf(k) {
      IdsDistinct(f.pc.slot, k);
    }
  }

  /** The engine's slot is registered under its own id. */
  predicate Holds(sh: Shared, k: nat) {
    IdOf(k) in sh.registry && sh.registry[IdOf(k)] == k
  }

  /**
   * In any run an insert would replace an entry exactly when an engine created a whole number of
   * counter periods away is still registered.
   */
  lemma InsertOverwritesExactly(ss: seq<State>, tids: set<Tid>, i: nat, site: Site)
    requires Run(ss, tids) && i < |ss|
    requires At(ss[i], site) && FrameAt(ss[i], site).pc.NewInsert?
    ensures var sh, f := ss[i].sh, FrameAt(ss[i], site);
      f.id in sh.registry <==>
        exists k: nat :: k != f.pc.slot && (k - f.pc.slot) % WRAP == 0 && Holds(sh, k)
  {
    RunKeeps(ss, tids, i);
    var sh, f := ss[i].sh, FrameAt(ss[i], site);
    assert FrameOk(sh, site, f);
    if f.id in sh.registry {
      var k := sh.registry[f.id];
      assert Registered(sh, f.id);
      IdsRepeat(k, f.pc.slot);
      assert Holds(sh, k);
    }
    if k: nat :| k != f.pc.slot && (k - f.pc.slot) % WRAP == 0 && Holds(sh, k) {
      IdsRepeat(k, f.pc.slot);
    }
  }

  /** An insert never replaces an entry, so no handle is lost, while ids last. */
  lemma InsertNeverOverwrites(ss: seq<State>, tids: set<Tid>, i: nat, site: Site)
    requires Run(ss, tids) && i < |ss| && |ss[i].sh.slots| <= WRAP
    requires At(ss[i], site) && FrameAt(ss[i], site).pc.NewInsert?
    ensures FrameAt(ss[i], site).id !in ss[i].sh.registry
  {
    RunKeeps(ss, tids, i);
    var s := ss[i];
    var f := FrameAt(s, site);
    assert FrameOk(s.sh, site, f);
    if f.id in s.sh.registry {
      assert Registered(s.sh, f.id);
      IdsDistinct(s.sh.registry[f.id], f.pc.slot);
    }
  }

  /** Ids are distinct as long as the counter has not wrapped. */
  lemma IdsDistinct(m: nat, n: nat)
    requires m < WRAP && n < WRAP && IdOf(m) == IdOf(n)
    ensures m == n
  {
  }

  /** Two creations share an id exactly when a whole number of counter periods lies between them. */
  lemma IdsRepeat(m: nat, n: nat)
    ensures IdOf(m) == IdOf(n) <==> (m - n) % WRAP == 0
  {
  }
}
