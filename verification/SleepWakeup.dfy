/** sleep, wakeup, kill, the scheduler and process creation, as atomic steps of any number of processes
    in any order, over any family of channels. Each channel has the spinlock its sleepers pass to sleep,
    several channels may share one, and what each process waits for on a channel may be changed by
    anybody who holds that lock. Interrupt handlers count as processes that never sleep. */
module SleepWakeup {

  /** Where a process is. sleep and wakeup are cut wherever another process can intervene. */
  datatype Pc =
    | Normal                        // code outside sleep and wakeup
    | SleepLock(c: nat)             // sleep: acquire(&p->lock)
    | SleepUnlock(c: nat)           // release(lk)
    | SleepMark(c: nat)             // p->chan = chan; p->state = SLEEPING
    | Switch(c: nat)                // sched: the scheduler takes over and releases p->lock
    | Asleep(c: nat)                // waiting for the scheduler
    | Woken(c: nat)                 // p->chan = 0; release(&p->lock)
    | Relock(c: nat)                // acquire(lk)
    | Wake(c: nat, i: nat)          // wakeup at process i: skip it, or acquire(&p->lock)
    | WakeTest(c: nat, i: nat)      // make it runnable if it sleeps on the channel
    | WakeUnlock(c: nat, i: nat)    // release(&p->lock)

  datatype RunState = Unused | Used | Runnable | Running | Sleeping | Zombie

  datatype Proc = Proc(pc: Pc, state: RunState, chan: int)

  const NOBODY := -1
  const NOCHAN := -1

  /** `plock[q]` and `locks[l]` are the holders of process q's own lock and of spinlock l; channel c sleeps
      under spinlock `lk[c]`; `ready[c]` are the processes whose condition on c holds. Two histories are
      kept: `quiet[c]`, that nobody has gone to sleep on c since a wakeup made under its lock, and
      `owed[c]`, that a condition has come true after that and no such wakeup has followed. */
  datatype State = State(procs: seq<Proc>, plock: seq<int>, lk: seq<nat>, locks: seq<int>,
                         ready: seq<set<nat>>, quiet: seq<bool>, owed: seq<bool>)

  datatype Event =
    | Act(p: nat)                                  // the next step inside sleep or wakeup
    | Acquire(p: nat, l: nat)
    | Release(p: nat, l: nat)
    | Update(p: nat, c: nat, now: set<nat>)        // under the lock, conditions change
    | CallSleep(p: nat, c: nat)                    // under the lock, its condition seen false
    | CallWakeup(p: nat, c: nat)                   // with the lock or without
    | Schedule(p: nat)                             // a CPU picks a runnable process
    | Yield(p: nat)                                // by a process that holds no spinlock
    | LockProc(p: nat, q: nat)                     // allocproc, fork, wait, kill: acquire(&q->lock)
    | UnlockProc(p: nat, q: nat)
    | Mark(p: nat, q: nat, state: RunState)        // under that lock: created, killed or reaped
    | Exit(p: nat)

  function Everybody(n: nat): (r: set<nat>)
    ensures forall p: nat :: p in r <==> p < n
  {
    if n == 0 then {} else Everybody(n - 1) + {n - 1}
  }

  // ---------------------------------------------------------------- steps

  function Go(s: State, p: nat, pc: Pc): (t: State)
    requires p < |s.procs|
  {
    s.(procs := s.procs[p := s.procs[p].(pc := pc)])
  }

  function Set(s: State, q: nat, state: RunState, chan: int): State
    requires q < |s.procs|
  {
    s.(procs := s.procs[q := s.procs[q].(state := state, chan := chan)])
  }

  predicate InRange(s: State, c: nat) {
    c < |s.lk| && s.lk[c] < |s.locks|
  }

  predicate Shaped(s: State) {
    && |s.plock| == |s.procs| && |s.ready| == |s.quiet| == |s.owed| == |s.lk|
    && forall c :: 0 <= c < |s.lk| ==> s.lk[c] < |s.locks|
  }

  /** Process `p` is running outside sleep and wakeup. */
  predicate Free(s: State, p: nat) {
    p < |s.procs| && s.procs[p].state == Running && s.procs[p].pc == Normal
  }

  predicate Holds(s: State, p: nat, c: nat) {
    InRange(s, c) && s.locks[s.lk[c]] == p
  }

  /** The changes a holder of another process's lock makes to its state. */
  predicate Markable(was: RunState, now: RunState) {
    || (was == Unused && now == Used)
    || (was == Used && (now == Runnable || now == Unused))
    || (was == Zombie && now == Unused)
    || (was == Sleeping && now == Runnable)
  }

  /** A process that waits for a spinlock stays where it is. */
  function Sleep(s: State, p: nat): (t: State)
    requires Shaped(s) && p < |s.procs|
    ensures Shaped(t) && |t.procs| == |s.procs| && t.lk == s.lk && |t.locks| == |s.locks|
  {
    match s.procs[p].pc
    case SleepLock(c) => if s.plock[p] == NOBODY then Go(s.(plock := s.plock[p := p]), p, SleepUnlock(c)) else s
    case SleepUnlock(c) => if Holds(s, p, c) then Go(s.(locks := s.locks[s.lk[c] := NOBODY]), p, SleepMark(c)) else s
    case SleepMark(c) => Go(Set(s, p, Sleeping, c), p, Switch(c))
    case Woken(c) => Go(Set(s, p, Running, NOCHAN).(plock := s.plock[p := NOBODY]), p, Relock(c))
    case Relock(c) =>
      if InRange(s, c) && s.locks[s.lk[c]] == NOBODY then Go(s.(locks := s.locks[s.lk[c] := p]), p, Normal) else s
    case _ => s
  }

  function Wakeup(s: State, p: nat): (t: State)
    requires Shaped(s) && p < |s.procs|
    ensures Shaped(t) && |t.procs| == |s.procs| && t.lk == s.lk && |t.locks| == |s.locks|
  {
    match s.procs[p].pc
    case Wake(c, i) =>
      if i >= |s.procs| then
        var t := Go(s, p, Normal);
        if Holds(s, p, c) then t.(quiet := s.quiet[c := true], owed := s.owed[c := false]) else t
      else if i == p then Go(s, p, Wake(c, i + 1))
      else if s.plock[i] == p && s.procs[i].state == Used then Go(s, p, Wake(c, i + 1))
      else if s.plock[i] == NOBODY then Go(s.(plock := s.plock[i := p]), p, WakeTest(c, i))
      else s
    case WakeTest(c, i) =>
      if i < |s.procs| && s.procs[i].state == Sleeping && s.procs[i].chan == c
      then Go(Set(s, i, Runnable, c), p, WakeUnlock(c, i)) else Go(s, p, WakeUnlock(c, i))
    case WakeUnlock(c, i) =>
      if i < |s.procs| then Go(s.(plock := s.plock[i := NOBODY]), p, Wake(c, i + 1)) else s
    case _ => s
  }

  function Drop(locks: seq<int>, p: nat): seq<int> {
    seq(|locks|, l requires 0 <= l < |locks| => if locks[l] == p then NOBODY else locks[l])
  }

  function Do(s: State, e: Event): (t: State)
    requires Shaped(s)
    ensures Shaped(t) && |t.procs| == |s.procs| && t.lk == s.lk && |t.locks| == |s.locks|
  {
    match e
    case Act(p) =>
      if p >= |s.procs| then s
      else if s.procs[p].pc.Switch? then Go(s.(plock := s.plock[p := NOBODY]), p, Asleep(s.procs[p].pc.c))
      else if s.procs[p].state != Running then s
      else if s.procs[p].pc.Wake? || s.procs[p].pc.WakeTest? || s.procs[p].pc.WakeUnlock? then Wakeup(s, p)
      else Sleep(s, p)
    case Acquire(p, l) =>
      if Free(s, p) && l < |s.locks| && s.locks[l] == NOBODY then s.(locks := s.locks[l := p]) else s
    case Release(p, l) =>
      if Free(s, p) && l < |s.locks| && s.locks[l] == p then s.(locks := s.locks[l := NOBODY]) else s
    case Update(p, c, now) =>
      if Free(s, p) && Holds(s, p, c) then
        s.(ready := s.ready[c := now], owed := s.owed[c := s.owed[c] || (!s.quiet[c] && !(now <= s.ready[c]))])
      else s
    case CallSleep(p, c) =>
      if Free(s, p) && Holds(s, p, c) && p !in s.ready[c] then Go(s.(quiet := s.quiet[c := false]), p, SleepLock(c))
        else s
    case CallWakeup(p, c) => if Free(s, p) && InRange(s, c) then Go(s, p, Wake(c, 0)) else s
    case Schedule(p) =>
      if p >= |s.procs| || s.procs[p].state != Runnable || s.plock[p] != NOBODY then s
      else
        var t := Set(s, p, Running, s.procs[p].chan);
        if s.procs[p].pc.Asleep? then Go(t.(plock := s.plock[p := p]), p, Woken(s.procs[p].pc.c)) else t
    case Yield(p) =>
      if p < |s.procs| && s.procs[p].state == Running && s.plock[p] == NOBODY && p !in s.locks && p !in s.plock
         && (s.procs[p].pc.Normal? || s.procs[p].pc.Relock? || s.procs[p].pc.Wake?)
      then Set(s, p, Runnable, s.procs[p].chan) else s
    case LockProc(p, q) =>
      if Free(s, p) && q < |s.procs| && q != p && s.plock[q] == NOBODY then s.(plock := s.plock[q := p]) else s
    case UnlockProc(p, q) =>
      if Free(s, p) && q < |s.procs| && s.plock[q] == p then s.(plock := s.plock[q := NOBODY]) else s
    case Mark(p, q, state) =>
      if Free(s, p) && q < |s.procs| && q != p && s.plock[q] == p && Markable(s.procs[q].state, state)
      then Set(s, q, state, s.procs[q].chan) else s
    case Exit(p) =>
      if Free(s, p) && s.plock[p] == NOBODY then Set(s, p, Zombie, NOCHAN).(locks := Drop(s.locks, p)) else s
  }

  // ---------------------------------------------------------------- what every step keeps

  /** The process has decided to sleep on `c`, and no wakeup has reached it. */
  predicate Committed(pr: Proc, c: nat) {
    || pr.pc == SleepLock(c) || pr.pc == SleepUnlock(c) || pr.pc == SleepMark(c) || pr.pc == Switch(c)
    || (pr.pc == Asleep(c) && pr.state == Sleeping)
  }

  /** Where a process is tells how it stands with the scheduler. */
  predicate ProcOk(pr: Proc) {
    match pr.pc
    case Normal => pr.state != Sleeping
    case Switch(c) => pr.state == Sleeping && pr.chan == c
    case Asleep(c) => pr.state == Runnable || (pr.state == Sleeping && pr.chan == c)
    case Relock(_) => pr.state == Running || pr.state == Runnable
    case Wake(_, _) => pr.state == Running || pr.state == Runnable
    case _ => pr.state == Running
  }

  /** The locks a process relies on inside sleep and wakeup are its own. */
  predicate Claims(s: State, p: nat)
    requires Shaped(s) && p < |s.procs|
  {
    var pc := s.procs[p].pc;
    && (pc.SleepUnlock? || pc.SleepMark? || pc.Switch? || pc.Woken? ==> s.plock[p] == p)
    && (pc.WakeTest? || pc.WakeUnlock? ==> pc.i < |s.procs| && pc.i != p && s.plock[pc.i] == p)
    && (pc.SleepLock? || pc.SleepUnlock? ==> Holds(s, p, pc.c))
    && (!pc.Normal? ==> InRange(s, pc.c))
  }

  /** The processes a wakeup has been past. */
  function Past(pc: Pc): nat {
    match pc
    case Wake(_, i) => i
    case WakeTest(_, i) => i
    case WakeUnlock(_, i) => i + 1
    case _ => 0
  }

  /** A wakeup made under the channel's lock leaves nobody behind it committed. */
  ghost predicate Swept(s: State, p: nat)
    requires Shaped(s) && p < |s.procs|
  {
    var pc := s.procs[p].pc;
    (pc.Wake? || pc.WakeTest? || pc.WakeUnlock?) && Holds(s, p, pc.c) ==>
      forall q :: 0 <= q < |s.procs| && q < Past(pc) ==> !Committed(s.procs[q], pc.c)
  }

  ghost predicate Histories(s: State)
    requires Shaped(s)
  {
    && (forall c, q :: 0 <= c < |s.lk| && 0 <= q < |s.procs| && s.quiet[c] ==> !Committed(s.procs[q], c))
    && (forall c, q :: 0 <= c < |s.lk| && 0 <= q < |s.procs| && Committed(s.procs[q], c) && q in s.ready[c] ==>
        s.owed[c])
  }

  ghost predicate Good(s: State, p: nat)
    requires Shaped(s) && p < |s.procs|
  {
    ProcOk(s.procs[p]) && Claims(s, p) && Swept(s, p)
  }

  ghost predicate Inv(s: State) {
    Shaped(s) && Histories(s) && forall p :: 0 <= p < |s.procs| ==> Good(s, p)
  }

  /** A step of process `p` as the others see it: locks move only between nobody and `p`, nobody else moves
      inside sleep and wakeup, and new sleepers are there only under a lock `p` holds. */
  ghost predicate StepOf(s: State, t: State, p: nat)
    requires Shaped(s) && Shaped(t)
  {
    && p < |s.procs| == |t.procs| && t.lk == s.lk && |t.locks| == |s.locks|
    && (forall q :: 0 <= q < |s.procs| && q != p ==> t.procs[q].pc == s.procs[q].pc && ProcOk(t.procs[q]))
    && (forall q :: 0 <= q < |s.plock| && t.plock[q] != s.plock[q] ==> Passes(s.plock[q], t.plock[q], p))
    && (forall l :: 0 <= l < |s.locks| && t.locks[l] != s.locks[l] ==> Passes(s.locks[l], t.locks[l], p))
    && (forall q, c: nat :: 0 <= q < |s.procs| ==> OnlyUnder(s, t.procs[q], p, q, c))
  }

  predicate OnlyUnder(s: State, now: Proc, p: nat, q: nat, c: nat) {
    Committed(now, c) && q < |s.procs| ==> Committed(s.procs[q], c) || Holds(s, p, c)
  }

  predicate Passes(was: int, now: int, p: nat) {
    (was == NOBODY || was == p) && (now == NOBODY || now == p)
  }

  lemma OthersGood(s: State, t: State, p: nat, r: nat)
    requires Inv(s) && Shaped(t) && StepOf(s, t, p) && r < |s.procs| && r != p
    ensures Good(t, r)
  {
    hide Histories, ProcOk, Committed;
    assert Good(s, r);
    var pc := s.procs[r].pc;
    if !pc.Normal? {
      assert Holds(t, r, pc.c) <==> Holds(s, r, pc.c);
      forall q | 0 <= q < |s.procs| && q < Past(pc) && Holds(s, r, pc.c) ensures !Committed(t.procs[q], pc.c) {
        assert !Committed(s.procs[q], pc.c) && !Holds(s, p, pc.c);
        assert OnlyUnder(s, t.procs[q], p, q, pc.c);
      }
    }
  }

  lemma AllOk(s: State)
    requires Inv(s)
    ensures forall q :: 0 <= q < |s.procs| ==> ProcOk(s.procs[q])
  {
    forall q | 0 <= q < |s.procs| ensures ProcOk(s.procs[q]) { assert Good(s, q); }
  }

  /** A step that leaves the conditions and histories alone, with nobody newly committed. */
  lemma QuietStep(s: State, t: State, p: nat)
    requires Inv(s) && Shaped(t) && StepOf(s, t, p) && Good(t, p)
    requires t.ready == s.ready && t.quiet == s.quiet && t.owed == s.owed
    requires forall q, c: nat :: 0 <= q < |s.procs| && Committed(t.procs[q], c) ==> Committed(s.procs[q], c)
    ensures Inv(t)
  {
    hide Good, Committed, ProcOk;
    forall r | 0 <= r < |t.procs| ensures Good(t, r) {
      if r != p { OthersGood(s, t, p, r); }
    }
  }

  lemma SleepStep(s: State, p: nat)
    requires Inv(s) && p < |s.procs| && s.procs[p].state == Running && !s.procs[p].pc.Normal?
    requires Past(s.procs[p].pc) == 0
    ensures Inv(Sleep(s, p))
  {
    hide Histories;
    var t := Sleep(s, p);
    AllOk(s);
    assert Good(s, p);
    QuietStep(s, t, p);
  }

  lemma SwitchStep(s: State, p: nat)
    requires Inv(s) && p < |s.procs| && s.procs[p].pc.Switch?
    ensures Inv(Do(s, Act(p)))
  {
    hide Histories;
    AllOk(s);
    assert Good(s, p);
    QuietStep(s, Do(s, Act(p)), p);
  }

  lemma WakeStep(s: State, p: nat)
    requires Inv(s) && p < |s.procs| && s.procs[p].state == Running
    requires s.procs[p].pc.Wake? || s.procs[p].pc.WakeTest? || s.procs[p].pc.WakeUnlock?
    ensures Inv(Wakeup(s, p))
  {
    var pc := s.procs[p].pc;
    if pc.Wake? && pc.i >= |s.procs| {
      SweepEnds(s, p);
    } else if pc.WakeTest? {
      WakeTestStep(s, p);
    } else {
      WakeMoves(s, p);
    }
  }

  lemma WakeMoves(s: State, p: nat)
    requires Inv(s) && p < |s.procs| && s.procs[p].state == Running
    requires s.procs[p].pc.WakeUnlock? || (s.procs[p].pc.Wake? && s.procs[p].pc.i < |s.procs|)
    ensures Inv(Wakeup(s, p))
  {
    hide Histories, Committed;
    AllOk(s);
    assert Good(s, p);
    var t := Wakeup(s, p);
    NotCommitted(s.procs[p]);
    NotCommitted(t.procs[p]);
    if s.procs[p].pc.Wake? { UsedIsAwake(s, s.procs[p].pc.i); }
    assert forall q :: 0 <= q < |s.procs| && q != p ==> t.procs[q] == s.procs[q];
    QuietStep(s, t, p);
  }

  lemma NotCommitted(pr: Proc)
    ensures pr.pc.Normal? || pr.pc.Wake? || pr.pc.WakeTest? || pr.pc.WakeUnlock? ==> forall c: nat :: !Committed(pr, c)
  {
  }

  lemma UsedIsAwake(s: State, q: nat)
    requires Inv(s) && q < |s.procs|
    ensures s.procs[q].state == Used ==> forall c: nat :: !Committed(s.procs[q], c)
  {
    assert Good(s, q);
  }

  /** Whoever sleeps on the channel is made runnable, and whoever is on the way to sleep holds its own lock
      or the channel's, so it is not there. */
  lemma WakeTestStep(s: State, p: nat)
    requires Inv(s) && p < |s.procs| && s.procs[p].state == Running && s.procs[p].pc.WakeTest?
    ensures Inv(Wakeup(s, p))
  {
    hide Histories;
    AllOk(s);
    assert Good(s, p) && Good(s, s.procs[p].pc.i);
    QuietStep(s, Wakeup(s, p), p);
  }

  lemma SweepEnds(s: State, p: nat)
    requires Inv(s) && p < |s.procs| && s.procs[p].state == Running && s.procs[p].pc.Wake?
    requires s.procs[p].pc.i >= |s.procs|
    ensures Inv(Wakeup(s, p))
  {
    var t := Wakeup(s, p);
    AllOk(s);
    assert Good(s, p);
    forall r | 0 <= r < |t.procs| ensures Good(t, r) {
      if r != p { OthersGood(s, t, p, r); }
    }
  }

  lemma LockStep(s: State, e: Event)
    requires Inv(s) && (e.Acquire? || e.Release? || e.LockProc? || e.UnlockProc?)
    ensures Inv(Do(s, e))
  {
    hide Histories, Committed;
    AllOk(s);
    if Free(s, e.p) {
      assert Good(s, e.p);
      QuietStep(s, Do(s, e), e.p);
    }
  }

  lemma ScheduleStep(s: State, p: nat)
    requires Inv(s)
    ensures Inv(Do(s, Schedule(p)))
  {
    hide Histories;
    AllOk(s);
    if p < |s.procs| {
      assert Good(s, p);
      QuietStep(s, Do(s, Schedule(p)), p);
    }
  }

  lemma RunStep(s: State, e: Event)
    requires Inv(s) && (e.CallWakeup? || e.Yield?)
    ensures Inv(Do(s, e))
  {
    hide Histories;
    AllOk(s);
    if e.p < |s.procs| {
      assert Good(s, e.p);
      QuietStep(s, Do(s, e), e.p);
    }
  }

  lemma ExitStep(s: State, p: nat)
    requires Inv(s)
    ensures Inv(Do(s, Exit(p)))
  {
    hide Histories;
    AllOk(s);
    if Free(s, p) {
      assert Good(s, p);
      QuietStep(s, Do(s, Exit(p)), p);
    }
  }

  lemma MarkStep(s: State, p: nat, q: nat, state: RunState)
    requires Inv(s)
    ensures Inv(Do(s, Mark(p, q, state)))
  {
    hide Histories;
    AllOk(s);
    if Free(s, p) && q < |s.procs| {
      assert Good(s, p) && Good(s, q);
      QuietStep(s, Do(s, Mark(p, q, state)), p);
    }
  }

  lemma UpdateStep(s: State, p: nat, c: nat, now: set<nat>)
    requires Inv(s)
    ensures Inv(Do(s, Update(p, c, now)))
  {
    hide Committed;
    var t := Do(s, Update(p, c, now));
    forall r | 0 <= r < |t.procs| ensures Good(t, r) {
      assert Good(s, r);
    }
  }

  lemma CallSleepStep(s: State, p: nat, c: nat)
    requires Inv(s)
    ensures Inv(Do(s, CallSleep(p, c)))
  {
    var t := Do(s, CallSleep(p, c));
    AllOk(s);
    if t != s {
      assert Good(s, p);
      assert forall q, d: nat :: 0 <= q < |s.procs| && Committed(t.procs[q], d) ==>
               Committed(s.procs[q], d) || (q == p && d == c);
      forall r | 0 <= r < |t.procs| ensures Good(t, r) {
        if r != p { OthersGood(s, t, p, r); }
      }
    }
  }

  lemma DoKeeps(s: State, e: Event)
    requires Inv(s)
    ensures Inv(Do(s, e))
  {
    hide Good, Histories, Wakeup, Sleep;
    match e
    case Act(p) =>
      if p < |s.procs| && s.procs[p].pc.Switch? {
        SwitchStep(s, p);
      } else if p < |s.procs| && s.procs[p].state == Running {
        var pc := s.procs[p].pc;
        if pc.Wake? || pc.WakeTest? || pc.WakeUnlock? { WakeStep(s, p); }
        else if !pc.Normal? { SleepStep(s, p); }
        else { NormalStays(s, p); }
      }
    case Mark(p, q, state) => MarkStep(s, p, q, state);
    case Update(p, c, now) => UpdateStep(s, p, c, now);
    case CallSleep(p, c) => CallSleepStep(s, p, c);
    case CallWakeup(_, _) => RunStep(s, e);
    case Schedule(p) => ScheduleStep(s, p);
    case Yield(_) => RunStep(s, e);
    case Exit(p) => ExitStep(s, p);
    case _ => LockStep(s, e);
  }

  lemma NormalStays(s: State, p: nat)
    requires Shaped(s) && p < |s.procs| && s.procs[p].pc.Normal?
    ensures Sleep(s, p) == s
  {
  }

  // ---------------------------------------------------------------- what a step of one process can do

  predicate InSleep(pc: Pc, c: nat) {
    && (pc.SleepLock? || pc.SleepUnlock? || pc.SleepMark? || pc.Switch? || pc.Asleep? || pc.Woken? || pc.Relock?)
    && pc.c == c
  }

  predicate InWakeup(pc: Pc, c: nat) {
    (pc.Wake? || pc.WakeTest? || pc.WakeUnlock?) && pc.c == c
  }

  /** Other processes keep their place and their locks; conditions change, and wakeups come to be owed, only
      through an update under the channel's lock. */
  lemma StepIsLocal(s: State, e: Event)
    requires Inv(s)
    ensures var t := Do(s, e);
            && (e.p >= |s.procs| ==> t == s)
            && (e.p < |s.procs| ==> LocalStep(s, t, e.p))
            && (!e.Update? ==> t.ready == s.ready)
            && (forall c :: 0 <= c < |s.lk| && t.owed[c] && !s.owed[c] ==> e.Update? && e.c == c && Holds(s, e.p, c))
  {
    hide Good, Histories, Committed, ProcOk;
    if e.Act? && e.p < |s.procs| {
      SleepIsLocal(s, e.p);
      WakeupIsLocal(s, e.p);
    }
    hide Sleep, Wakeup;
  }

  lemma SleepIsLocal(s: State, p: nat)
    requires Shaped(s) && p < |s.procs|
    ensures var t := Sleep(s, p); LocalStep(s, t, p) && t.ready == s.ready && t.owed == s.owed
  {
  }

  lemma WakeupIsLocal(s: State, p: nat)
    requires Shaped(s) && p < |s.procs|
    ensures var t := Wakeup(s, p);
            LocalStep(s, t, p) && t.ready == s.ready && forall c :: 0 <= c < |s.lk| && t.owed[c] ==> s.owed[c]
  {
  }

  /** Scheduling moves no lock, and nobody inside sleep or wakeup but from asleep to woken. */
  lemma ScheduleMoves(s: State, e: Event)
    requires Shaped(s) && (e.Schedule? || e.Yield?) && e.p < |s.procs|
    ensures var pc, t := s.procs[e.p].pc, Do(s, e);
            && t.locks == s.locks && t.owed == s.owed
            && (t.procs[e.p].pc == pc || (pc.Asleep? && t.procs[e.p].pc == Woken(pc.c)))
  {
  }

  lemma ReadyKept(s: State, e: Event, c: nat)
    requires Shaped(s) && c < |s.lk| && !(e.Update? && e.c == c)
    ensures Do(s, e).ready[c] == s.ready[c]
  {
  }

  ghost predicate LocalStep(s: State, t: State, p: nat)
    requires Shaped(s) && Shaped(t)
  {
    && p < |s.procs| == |t.procs| && t.lk == s.lk && |t.locks| == |s.locks|
    && (forall q :: 0 <= q < |s.procs| && q != p ==> t.procs[q].pc == s.procs[q].pc)
    && (forall l :: 0 <= l < |s.locks| && t.locks[l] != s.locks[l] ==> Passes(s.locks[l], t.locks[l], p))
  }

  /** One step inside sleep or wakeup: sleep ends with the channel's lock held again, and a wakeup that holds it
      keeps it and ends with nothing owed. */
  lemma ActMoves(s: State, p: nat, c: nat)
    requires Inv(s) && p < |s.procs| && c < |s.lk|
    ensures var pc, t := s.procs[p].pc, Do(s, Act(p));
            && (pc == Normal ==> t == s)
            && (InSleep(pc, c) ==> InSleep(t.procs[p].pc, c) || (t.procs[p].pc == Normal && Holds(t, p, c)))
            && (InWakeup(pc, c) ==> InWakeup(t.procs[p].pc, c) || t.procs[p].pc == Normal)
            && (InWakeup(pc, c) && Holds(s, p, c) ==>
                  Holds(t, p, c) && (t.procs[p].pc == Normal ==> !t.owed[c]))
  {
    hide Histories, Swept;
    assert Good(s, p);
  }

  // ---------------------------------------------------------------- runs

  /** Nobody is inside sleep or wakeup and no wakeup is owed; spinlocks, conditions and channels are arbitrary. */
  ghost predicate Initial(s: State) {
    && Shaped(s)
    && (forall p :: 0 <= p < |s.procs| ==> s.procs[p].pc == Normal && s.procs[p].state != Sleeping)
    && (forall c :: 0 <= c < |s.lk| ==> !s.owed[c])
  }

  function Run(s: State, es: seq<Event>): (t: State)
    requires Shaped(s)
    ensures Shaped(t) && |t.procs| == |s.procs| && t.lk == s.lk && |t.locks| == |s.locks|
    decreases |es|
  {
    if es == [] then s else Run(Do(s, es[0]), es[1..])
  }

  lemma {:induction false} RunKeeps(s: State, es: seq<Event>)
    requires Inv(s)
    ensures Inv(Run(s, es))
    decreases |es|
  {
    hide Good, Histories;
    if es != [] {
      DoKeeps(s, es[0]);
      RunKeeps(Do(s, es[0]), es[1..]);
    }
  }

  lemma Reached(s: State, es: seq<Event>)
    requires Initial(s)
    ensures Inv(Run(s, es))
  {
    assert Inv(s);
    RunKeeps(s, es);
  }

  /** No lost wakeup. When a wakeup made under the channel's lock has been past every process, nobody is asleep
      on the channel or on the way to sleep there: every process still inside that sleep is runnable. */
  lemma WakeupMissesNobody(s0: State, es: seq<Event>, p: nat, q: nat, c: nat)
    requires Initial(s0) && p < |s0.procs| && q < |s0.procs|
    ensures var s := Run(s0, es);
            s.procs[p].pc == Wake(c, |s.procs|) && Holds(s, p, c) ==>
              && !Committed(s.procs[q], c)
              && !(s.procs[q].state == Sleeping && s.procs[q].chan == c)
              && (s.procs[q].pc == Asleep(c) ==> s.procs[q].state == Runnable)
  {
    Reached(s0, es);
    var s := Run(s0, es);
    assert Good(s, p) && Good(s, q);
  }

  /** A condition that has come true with no wakeup owed finds nobody asleep: whoever waits for it has been woken. */
  lemma NobodySleepsOnTrueCondition(s0: State, es: seq<Event>, q: nat, c: nat)
    requires Initial(s0) && q < |s0.procs| && c < |s0.lk|
    ensures var s := Run(s0, es);
            q in s.ready[c] && !s.owed[c] ==>
              !Committed(s.procs[q], c) && !(s.procs[q].state == Sleeping && s.procs[q].chan == c)
  {
    Reached(s0, es);
    assert Good(Run(s0, es), q);
  }

  /** Process `p` is in one wakeup on `c` from `s` on through all of `es`. */
  ghost predicate WithinWakeup(s: State, es: seq<Event>, p: nat, c: nat)
    requires Shaped(s)
    decreases |es|
  {
    p < |s.procs| && InWakeup(s.procs[p].pc, c) && (es != [] ==> WithinWakeup(Do(s, es[0]), es[1..], p, c))
  }

  lemma {:induction false} WakeupKeepsLock(s: State, es: seq<Event>, p: nat, c: nat)
    requires Inv(s) && WithinWakeup(s, es, p, c) && Holds(s, p, c)
    ensures Holds(Run(s, es), p, c) && InWakeup(Run(s, es).procs[p].pc, c)
    decreases |es|
  {
    if es != [] {
      StepKeepsLock(s, es[0], p, c);
      DoKeeps(s, es[0]);
      WakeupKeepsLock(Do(s, es[0]), es[1..], p, c);
    }
  }

  lemma StepKeepsLock(s: State, e: Event, p: nat, c: nat)
    requires Inv(s) && p < |s.procs| && InWakeup(s.procs[p].pc, c) && Holds(s, p, c)
    ensures Holds(Do(s, e), p, c)
  {
    hide Histories, Swept;
    assert Good(s, p);
  }

  /** The promise of proc.c: whoever is committed to sleep on `c` when a wakeup made under its lock begins
      is out of that sleep when the wakeup has been past every process, whatever happens in between. */
  lemma SleeperIsWoken(s0: State, before: seq<Event>, during: seq<Event>, p: nat, q: nat, c: nat)
    requires Initial(s0) && p < |s0.procs| && q < |s0.procs|
    requires var s1 := Run(s0, before);
             && Free(s1, p) && Holds(s1, p, c) && Committed(s1.procs[q], c)
             && WithinWakeup(Do(s1, CallWakeup(p, c)), during, p, c)
             && Run(Do(s1, CallWakeup(p, c)), during).procs[p].pc == Wake(c, |s1.procs|)
    ensures var s2 := Run(Do(Run(s0, before), CallWakeup(p, c)), during);
            && !Committed(s2.procs[q], c) && !(s2.procs[q].state == Sleeping && s2.procs[q].chan == c)
            && (s2.procs[q].pc == Asleep(c) ==> s2.procs[q].state == Runnable)
  {
    Reached(s0, before);
    var s1 := Run(s0, before);
    var s := Do(s1, CallWakeup(p, c));
    DoKeeps(s1, CallWakeup(p, c));
    WakeupKeepsLock(s, during, p, c);
    RunKeeps(s, during);
    var s2 := Run(s, during);
    assert Good(s2, p) && Good(s2, q);
  }
}
