/** Any number of sleeplocks built on sleep and wakeup. Sleeplock c is channel c with spinlock c of the
    machine in SleepWakeup; all other channels and spinlocks stay free for everybody's use. */
module SleepLock {
  import opened W = SleepWakeup
  import A = SleepProgress

  /** Where a process is in the code of sleeplock.c. */
  datatype Prog =
    | Idle               // elsewhere
    | Enter(c: nat)      // acquiresleep: acquire(&lk->lk)
    | Test(c: nat)       // while (lk->locked) sleep(lk, &lk->lk)
    | Leave(c: nat)      // locked is set: release(&lk->lk)
    | Retake(c: nat)     // releasesleep: acquire(&lk->lk)
    | Clear(c: nat)      // lk->locked = 0; lk->pid = 0
    | Notify(c: nat)     // wakeup(lk)
    | Waking(c: nat)     // in wakeup, then release(&lk->lk)

  /** `holds[p]` are the sleeplocks process p has taken and not given back. */
  datatype State = State(w: W.State, prog: seq<Prog>, locked: seq<bool>, pid: seq<int>, holds: seq<set<nat>>)

  datatype Event =
    | AcquireSleep(p: nat, c: nat)
    | ReleaseSleep(p: nat, c: nat)
    | Step(p: nat)               // the next step of acquiresleep or releasesleep
    | Other(e: W.Event)          // sleep and wakeup going on, scheduling, and all other kernel code

  ghost predicate Shaped(s: State) {
    && W.Shaped(s.w) && |s.prog| == |s.holds| == |s.w.procs| && |s.locked| == |s.pid| <= |s.w.lk|
    && |s.pid| <= |s.w.locks|
    && (forall c :: 0 <= c < |s.w.lk| ==>
        (c < |s.locked| ==> s.w.lk[c] == c) && (c >= |s.locked| ==> s.w.lk[c] >= |s.locked|))
  }

  /** Code outside sleeplock.c does not touch its spinlocks and conditions; it may wake whom it likes. */
  predicate Foreign(s: State, e: W.Event) {
    match e
    case Act(_) => true
    case Schedule(_) => true
    case Yield(_) => true
    case Acquire(p, l) => p < |s.prog| && s.prog[p].Idle? && l >= |s.locked|
    case Release(p, l) => p < |s.prog| && s.prog[p].Idle? && l >= |s.locked|
    case Update(p, c, _) => p < |s.prog| && s.prog[p].Idle? && c >= |s.locked|
    case CallSleep(p, c) => p < |s.prog| && s.prog[p].Idle? && c >= |s.locked|
    case _ => e.p < |s.prog| && s.prog[e.p].Idle?
  }

  function Goto(s: State, p: nat, w: W.State, prog: Prog): State
    requires p < |s.prog|
  {
    s.(w := w, prog := s.prog[p := prog])
  }

  /** The code of sleeplock.c; a process that waits for the spinlock stays where it is. */
  function Advance(s: State, p: nat): (t: State)
    requires Shaped(s) && p < |s.prog|
    ensures Shaped(t) && |t.prog| == |s.prog| && |t.locked| == |s.locked|
  {
    match s.prog[p]
    case Idle => s
    case Enter(c) =>
      var w := W.Do(s.w, Acquire(p, c));
      Goto(s, p, w, if Holds(w, p, c) then Test(c) else Enter(c))
    case Test(c) =>
      if c < |s.locked| && !s.locked[c] then
        Goto(s, p, W.Do(s.w, Update(p, c, {})), Leave(c))
          .(locked := s.locked[c := true], pid := s.pid[c := p], holds := s.holds[p := s.holds[p] + {c}])
      else Goto(s, p, W.Do(s.w, CallSleep(p, c)), Test(c))
    case Leave(c) => Goto(s, p, W.Do(s.w, Release(p, c)), Idle)
    case Retake(c) =>
      var w := W.Do(s.w, Acquire(p, c));
      Goto(s, p, w, if Holds(w, p, c) then Clear(c) else Retake(c))
    case Clear(c) =>
      if c < |s.locked| then
        Goto(s, p, W.Do(s.w, Update(p, c, Everybody(|s.prog|))), Notify(c))
          .(locked := s.locked[c := false], pid := s.pid[c := 0], holds := s.holds[p := s.holds[p] - {c}])
      else s
    case Notify(c) => Goto(s, p, W.Do(s.w, CallWakeup(p, c)), Waking(c))
    case Waking(c) => Goto(s, p, W.Do(s.w, Release(p, c)), Idle)
  }

  function Do(s: State, e: Event): (t: State)
    requires Shaped(s)
    ensures Shaped(t) && |t.prog| == |s.prog| && |t.locked| == |s.locked|
  {
    match e
    case AcquireSleep(p, c) =>
      if Free(s.w, p) && s.prog[p].Idle? && c < |s.locked| then Goto(s, p, s.w, Enter(c)) else s
    case ReleaseSleep(p, c) =>
      if Free(s.w, p) && s.prog[p].Idle? && c in s.holds[p] && c < |s.locked| then Goto(s, p, s.w, Retake(c)) else s
    case Step(p) => if Free(s.w, p) then Advance(s, p) else s
    case Other(e) => if Foreign(s, e) then s.(w := W.Do(s.w, e)) else s
  }

  // ---------------------------------------------------------------- what every step keeps

  /** A process in the code holds the spinlock where it should; one that sleeps does so on its lock. */
  predicate At(s: State, p: nat)
    requires Shaped(s) && p < |s.prog|
  {
    var pc := s.w.procs[p].pc;
    match s.prog[p]
    case Idle => true
    case Enter(c) => c < |s.locked| && pc == Normal
    case Retake(c) => c < |s.locked| && pc == Normal
    case Test(c) => c < |s.locked| && (InSleep(pc, c) || (pc == Normal && Holds(s.w, p, c)))
    case Waking(c) =>
      c < |s.locked| && Holds(s.w, p, c) && (InWakeup(pc, c) || (pc == Normal && !s.w.owed[c]))
    case _ => s.prog[p].c < |s.locked| && pc == Normal && Holds(s.w, p, s.prog[p].c)
  }

  /** A sleeplock's waiters wait for it to be free, and a wakeup owed to them is under way. */
  ghost predicate LockOk(s: State, c: nat)
    requires Shaped(s) && c < |s.locked|
  {
    && s.w.ready[c] == (if s.locked[c] then {} else Everybody(|s.prog|))
    && (s.w.owed[c] ==>
          var h := s.w.locks[c];
          0 <= h < |s.prog| && (s.prog[h] == Notify(c) || s.prog[h] == Waking(c)))
  }

  predicate Owner(s: State, c: nat, p: nat) {
    c < |s.locked| == |s.pid| && s.locked[c] && s.pid[c] == p
  }

  ghost predicate Owned(s: State)
    requires Shaped(s)
  {
    && (forall p, c: nat :: 0 <= p < |s.prog| && c in s.holds[p] ==> Owner(s, c, p))
    && (forall p :: 0 <= p < |s.prog| && Claiming(s.prog[p]) ==> s.prog[p].c in s.holds[p])
    && (forall c :: 0 <= c < |s.locked| && s.locked[c] ==> Held(s, c))
  }

  /** The recorded owner of a taken sleeplock holds it. */
  predicate Held(s: State, c: nat) {
    c < |s.pid| && 0 <= s.pid[c] < |s.holds| && c in s.holds[s.pid[c]]
  }

  ghost predicate Inv(s: State) {
    && Shaped(s) && W.Inv(s.w) && Owned(s)
    && (forall p :: 0 <= p < |s.prog| ==> At(s, p))
    && (forall c :: 0 <= c < |s.locked| ==> LockOk(s, c))
  }

  /** A step of the underlying machine by `p`, seen from another process. */
  lemma OtherAt(s: State, t: State, e: W.Event, r: nat)
    requires Inv(s) && Shaped(t) && t.w == W.Do(s.w, e) && |t.prog| == |s.prog| && |t.locked| == |s.locked|
    requires r < |s.prog| && r != e.p && t.prog[r] == s.prog[r]
    ensures At(t, r)
  {
    hide W.Inv, Owned, LockOk, W.Do;
    StepIsLocal(s.w, e);
    assert At(s, r);
  }

  /** ... and from a sleeplock whose waiters and holder it leaves alone. */
  lemma OtherLock(s: State, t: State, e: W.Event, c: nat)
    requires Inv(s) && Shaped(t) && t.w == W.Do(s.w, e) && |t.prog| == |s.prog| && |t.locked| == |s.locked|
    requires c < |s.locked| && t.locked[c] == s.locked[c] && !(e.Update? && e.c == c)
    requires forall r :: 0 <= r < |s.prog| && r != e.p ==> t.prog[r] == s.prog[r]
    requires t.w.owed[c] && s.w.locks[c] == e.p && e.p < |s.prog| ==>
               t.w.locks[c] == e.p && (t.prog[e.p] == Notify(c) || t.prog[e.p] == Waking(c))
    ensures LockOk(t, c)
  {
    hide W.Inv, Owned, At, W.Do;
    StepIsLocal(s.w, e);
    ReadyKept(s.w, e, c);
    assert LockOk(s, c);
  }

  lemma Together(s: State, t: State, e: W.Event)
    requires Inv(s) && Shaped(t) && t.w == W.Do(s.w, e) && |t.prog| == |s.prog| && |t.locked| == |s.locked|
    requires forall r :: 0 <= r < |s.prog| && r != e.p ==> t.prog[r] == s.prog[r]
    requires (e.p < |s.prog| ==> At(t, e.p)) && Owned(t) && forall c :: 0 <= c < |s.locked| ==> LockOk(t, c)
    ensures Inv(t)
  {
    hide W.Inv, Owned, LockOk, At, W.Do;
    W.DoKeeps(s.w, e);
    forall r | 0 <= r < |s.prog| ensures At(t, r) {
      if r != e.p { OtherAt(s, t, e, r); }
    }
  }

  predicate Claiming(prog: Prog) {
    prog.Leave? || prog.Retake? || prog.Clear?
  }

  lemma OwnedSame(s: State, t: State, p: nat)
    requires Shaped(s) && Owned(s) && Shaped(t) && p < |s.prog|
    requires t.locked == s.locked && t.pid == s.pid && t.holds == s.holds && t.prog == s.prog[p := t.prog[p]]
    requires Claiming(t.prog[p]) ==> t.prog[p].c in s.holds[p]
    ensures Owned(t)
  {
    forall c | 0 <= c < |t.locked| && t.locked[c] ensures Held(t, c) { assert Held(s, c); }
  }

  lemma TakeStep(s: State, p: nat)
    requires Inv(s) && Free(s.w, p) && (s.prog[p].Enter? || s.prog[p].Retake?)
    ensures Inv(Advance(s, p))
  {
    hide W.Inv, Owned;
    var t, c := Advance(s, p), s.prog[p].c;
    var e := Acquire(p, c);
    assert At(s, p) && LockOk(s, c);
    Claimed(s, p);
    OwnedSame(s, t, p);
    forall d | 0 <= d < |s.locked| ensures LockOk(t, d) {
      assert LockOk(s, d);
      OtherLock(s, t, e, d);
    }
    Together(s, t, e);
  }

  lemma Claimed(s: State, p: nat)
    requires Shaped(s) && Owned(s) && p < |s.prog|
    ensures Claiming(s.prog[p]) ==> s.prog[p].c in s.holds[p]
  {
  }

  lemma WaitStep(s: State, p: nat)
    requires Inv(s) && Free(s.w, p) && s.prog[p].Test? && (s.prog[p].c < |s.locked| ==> s.locked[s.prog[p].c])
    ensures Inv(Advance(s, p))
  {
    hide W.Inv, Owned;
    var t, c := Advance(s, p), s.prog[p].c;
    var e := CallSleep(p, c);
    assert At(s, p) && LockOk(s, c);
    OwnedSame(s, t, p);
    forall d | 0 <= d < |s.locked| ensures LockOk(t, d) {
      assert LockOk(s, d);
      OtherLock(s, t, e, d);
    }
    Together(s, t, e);
  }

  lemma GiveStep(s: State, p: nat)
    requires Inv(s) && Free(s.w, p) && (s.prog[p].Leave? || s.prog[p].Waking?)
    ensures Inv(Advance(s, p))
  {
    hide W.Inv, Owned;
    var t, c := Advance(s, p), s.prog[p].c;
    var e := Release(p, c);
    assert At(s, p) && LockOk(s, c);
    OwnedSame(s, t, p);
    forall d | 0 <= d < |s.locked| ensures LockOk(t, d) {
      assert LockOk(s, d);
      OtherLock(s, t, e, d);
    }
    Together(s, t, e);
  }

  lemma NotifyStep(s: State, p: nat)
    requires Inv(s) && Free(s.w, p) && s.prog[p].Notify?
    ensures Inv(Advance(s, p))
  {
    hide W.Inv, Owned;
    var t, c := Advance(s, p), s.prog[p].c;
    var e := CallWakeup(p, c);
    assert At(s, p) && LockOk(s, c);
    OwnedSame(s, t, p);
    forall d | 0 <= d < |s.locked| ensures LockOk(t, d) {
      assert LockOk(s, d);
      OtherLock(s, t, e, d);
    }
    Together(s, t, e);
  }

  /** `locked` and its owner change together with what the waiters wait for. */
  lemma ChangeStep(s: State, p: nat)
    requires Inv(s) && Free(s.w, p)
    requires s.prog[p].Clear? || (s.prog[p].Test? && (s.prog[p].c < |s.locked| ==> !s.locked[s.prog[p].c]))
    ensures Inv(Advance(s, p))
  {
    hide W.Inv, Owned;
    var t, c := Advance(s, p), s.prog[p].c;
    assert At(s, p);
    OwnedChange(s, p);
    var e := Update(p, c, if s.prog[p].Clear? then Everybody(|s.prog|) else {});
    assert At(s, p) && LockOk(s, c);
    forall d | 0 <= d < |s.locked| ensures LockOk(t, d) {
      assert LockOk(s, d);
      if d != c { OtherLock(s, t, e, d); }
    }
    Together(s, t, e);
  }

  lemma OwnedChange(s: State, p: nat)
    requires Shaped(s) && Owned(s) && p < |s.prog| && !s.prog[p].Idle? && s.prog[p].c < |s.locked|
    requires s.prog[p].Clear? || (s.prog[p].Test? && !s.locked[s.prog[p].c])
    ensures Owned(Advance(s, p))
  {
    var t, c := Advance(s, p), s.prog[p].c;
    Claimed(s, p);
    assert s.prog[p].Clear? ==> Owner(s, c, p);
    forall r, d: nat | 0 <= r < |t.prog| && d in t.holds[r] ensures Owner(t, d, r) {
      assert d in s.holds[r] ==> Owner(s, d, r);
    }
    forall r | 0 <= r < |t.prog| && Claiming(t.prog[r]) ensures t.prog[r].c in t.holds[r] {
      if r != p { Claimed(s, r); }
    }
    forall d | 0 <= d < |t.locked| && t.locked[d] ensures Held(t, d) {
      assert d != c ==> Held(s, d);
    }
  }

  /** Steps outside sleeplock.c, and sleep and wakeup on its behalf. */
  lemma OtherStep(s: State, e: W.Event)
    requires Inv(s) && Foreign(s, e)
    ensures Inv(Do(s, Other(e)))
  {
    hide W.Inv, Owned, LockOk, At, W.Do;
    var t := s.(w := W.Do(s.w, e));
    if e.p < |s.prog| {
      Claimed(s, e.p);
      OwnedSame(s, t, e.p);
      ForeignAt(s, e);
      forall c | 0 <= c < |s.locked| ensures LockOk(t, c) {
        assert LockOk(s, c);
        ForeignLock(s, e, c);
      }
      Together(s, t, e);
    } else {
      StepIsLocal(s.w, e);
    }
  }

  /** The only such steps of a process in the code of sleeplock.c. */
  predicate Passive(e: W.Event) {
    e.Act? || e.Schedule? || e.Yield?
  }

  lemma ForeignAt(s: State, e: W.Event)
    requires Inv(s) && Foreign(s, e) && e.p < |s.prog|
    ensures At(s.(w := W.Do(s.w, e)), e.p)
  {
    hide W.Inv, Owned, LockOk, W.Do;
    var p := e.p;
    assert At(s, p);
    if !s.prog[p].Idle? {
      assert Passive(e);
      if e.Act? { ActMoves(s.w, p, s.prog[p].c); } else { ScheduleMoves(s.w, e); }
    }
  }

  lemma ForeignLock(s: State, e: W.Event, c: nat)
    requires Inv(s) && Foreign(s, e) && e.p < |s.prog| && c < |s.locked|
    ensures LockOk(s.(w := W.Do(s.w, e)), c)
  {
    hide W.Inv, Owned, W.Do;
    var p, t := e.p, s.(w := W.Do(s.w, e));
    assert At(s, p) && LockOk(s, c);
    StepIsLocal(s.w, e);
    if s.prog[p] == Notify(c) || s.prog[p] == Waking(c) {
      assert Passive(e);
      if e.Act? { ActMoves(s.w, p, c); } else { ScheduleMoves(s.w, e); }
    }
    OtherLock(s, t, e, c);
  }

  lemma CallStep(s: State, p: nat, prog: Prog)
    requires Inv(s) && Free(s.w, p) && s.prog[p].Idle? && (prog.Enter? || prog.Retake?) && prog.c < |s.locked|
    requires prog.Retake? ==> prog.c in s.holds[p]
    ensures Inv(Goto(s, p, s.w, prog))
  {
    hide W.Inv, Owned;
    var t := Goto(s, p, s.w, prog);
    OwnedSame(s, t, p);
    forall r | 0 <= r < |s.prog| ensures At(t, r) { assert At(s, r); }
    forall c | 0 <= c < |s.locked| ensures LockOk(t, c) { assert LockOk(s, c); }
  }

  lemma DoKeeps(s: State, e: Event)
    requires Inv(s)
    ensures Inv(Do(s, e))
  {
    hide W.Inv, Owned, LockOk, At, W.Do;
    match e
    case AcquireSleep(p, c) =>
      if Do(s, e) != s { CallStep(s, p, Enter(c)); }
    case ReleaseSleep(p, c) =>
      if Do(s, e) != s { CallStep(s, p, Retake(c)); }
    case Step(p) =>
      if Free(s.w, p) {
        match s.prog[p]
        case Idle =>
        case Enter(_) => TakeStep(s, p);
        case Retake(_) => TakeStep(s, p);
        case Test(c) => if c < |s.locked| && !s.locked[c] { ChangeStep(s, p); } else { WaitStep(s, p); }
        case Clear(_) => ChangeStep(s, p);
        case Notify(_) => NotifyStep(s, p);
        case _ => GiveStep(s, p);
      }
    case Other(e) =>
      if Foreign(s, e) { OtherStep(s, e); }
  }

  // ---------------------------------------------------------------- runs

  /** Booted: every sleeplock is free and nobody is in its code. */
  ghost predicate Initial(s: State) {
    && Shaped(s) && W.Initial(s.w)
    && (forall p :: 0 <= p < |s.prog| ==> s.prog[p] == Idle && s.holds[p] == {})
    && (forall c :: 0 <= c < |s.locked| ==> !s.locked[c] && s.w.ready[c] == Everybody(|s.prog|))
  }

  function Run(s: State, es: seq<Event>): (t: State)
    requires Shaped(s)
    ensures Shaped(t) && |t.prog| == |s.prog| && |t.locked| == |s.locked|
    decreases |es|
  {
    if es == [] then s else Run(Do(s, es[0]), es[1..])
  }

  lemma {:induction false} RunKeeps(s: State, es: seq<Event>)
    requires Inv(s)
    ensures Inv(Run(s, es))
    decreases |es|
  {
    hide W.Inv, Owned, LockOk, At, Do;
    if es != [] {
      DoKeeps(s, es[0]);
      RunKeeps(Do(s, es[0]), es[1..]);
    }
  }

  lemma Reached(s: State, es: seq<Event>)
    requires Initial(s)
    ensures Inv(Run(s, es))
  {
    W.Reached(s.w, []);
    forall p | 0 <= p < |s.prog| ensures At(s, p) {}
    RunKeeps(s, es);
  }

  /** A run of sleeplocks is a run of the machine underneath. */
  lemma {:induction false} Projects(s: State, es: seq<Event>) returns (ws: seq<W.Event>)
    requires Shaped(s)
    ensures Run(s, es).w == W.Run(s.w, ws)
    decreases |es|
  {
    hide W.Do;
    ws := [];
    if es != [] {
      var w := StepProjects(s, es[0]);
      var rest := Projects(Do(s, es[0]), es[1..]);
      ws := w + rest;
      assert ws == if w == [] then rest else [w[0]] + rest;
      assert w != [] ==> ws[1..] == rest;
    }
  }

  lemma StepProjects(s: State, e: Event) returns (ws: seq<W.Event>)
    requires Shaped(s)
    ensures |ws| <= 1 && Do(s, e).w == if ws == [] then s.w else W.Do(s.w, ws[0])
  {
    hide W.Do;
    ws := [];
    match e
    case Other(f) => if Foreign(s, f) { ws := [f]; }
    case Step(p) =>
      if Free(s.w, p) {
        match s.prog[p]
        case Enter(c) => ws := [Acquire(p, c)];
        case Retake(c) => ws := [Acquire(p, c)];
        case Test(c) => ws := [if c < |s.locked| && !s.locked[c] then Update(p, c, {}) else CallSleep(p, c)];
        case Clear(c) => if c < |s.locked| { ws := [Update(p, c, Everybody(|s.prog|))]; }
        case Notify(c) => ws := [CallWakeup(p, c)];
        case Leave(c) => ws := [Release(p, c)];
        case Waking(c) => ws := [Release(p, c)];
        case Idle =>
      }
    case _ =>
  }

  /** At most one process holds a sleeplock, in every interleaving, and it is the recorded owner. */
  lemma MutualExclusion(s0: State, es: seq<Event>, p: nat, q: nat, c: nat)
    requires Initial(s0) && p < |s0.prog| && q < |s0.prog|
    ensures var s := Run(s0, es);
            && (c in s.holds[p] && c in s.holds[q] ==> p == q)
            && (c in s.holds[p] ==> c < |s.locked| && s.locked[c] && s.pid[c] == p)
  {
    hide W.Inv, LockOk, At;
    Reached(s0, es);
    var s := Run(s0, es);
    assert c in s.holds[p] ==> Owner(s, c, p);
    assert c in s.holds[q] ==> Owner(s, c, q);
  }

  /** A sleeplock is marked as taken exactly while some process holds it: none is taken for nobody, and one that
      has been given back is free. */
  lemma LockedIffHeld(s0: State, es: seq<Event>, c: nat)
    requires Initial(s0) && c < |s0.locked|
    ensures var s := Run(s0, es);
            s.locked[c] <==> exists p :: 0 <= p < |s.prog| && c in s.holds[p]
  {
    hide W.Inv, LockOk, At;
    Reached(s0, es);
    var s := Run(s0, es);
    assert s.locked[c] ==> Held(s, c);
    if p :| 0 <= p < |s.prog| && c in s.holds[p] {
      assert Owner(s, c, p);
    }
  }

  /** No process stays SLEEPING on a sleeplock, or on its way to sleep there, once the lock is free and its
      spinlock is free: an instance of the condition theorem, because releasesleep owes nothing when it is done. */
  lemma NobodySleepsOnFreeLock(s0: State, es: seq<Event>, q: nat, c: nat)
    requires Initial(s0) && q < |s0.prog| && c < |s0.locked|
    ensures var s := Run(s0, es);
            !s.locked[c] && s.w.locks[c] == NOBODY ==>
              && !Committed(s.w.procs[q], c)
              && !(s.w.procs[q].state == Sleeping && s.w.procs[q].chan == c)
  {
    hide Owned, At, W.Inv;
    Reached(s0, es);
    assert LockOk(Run(s0, es), c);
    var ws := Projects(s0, es);
    NobodySleepsOnTrueCondition(s0.w, ws, q, c);
  }

  /** When releasesleep's wakeup has been past every process, nobody is asleep on the lock or about to be. */
  lemma ReleaseWakesEverybody(s0: State, es: seq<Event>, p: nat, q: nat, c: nat)
    requires Initial(s0) && p < |s0.prog| && q < |s0.prog|
    ensures var s := Run(s0, es);
            s.prog[p] == Waking(c) && s.w.procs[p].pc == Wake(c, |s.prog|) ==>
              !Committed(s.w.procs[q], c) && !(s.w.procs[q].state == Sleeping && s.w.procs[q].chan == c)
  {
    hide Owned, LockOk, W.Inv;
    Reached(s0, es);
    assert At(Run(s0, es), p);
    var ws := Projects(s0, es);
    WakeupMissesNobody(s0.w, ws, p, q, c);
  }

  /** Whoever comes to hold a sleeplock has just found it free, even after being woken by kill. */
  lemma WokenTestsAgain(s: State, e: Event, p: nat, c: nat)
    requires Shaped(s) && p < |s.prog|
    ensures c !in s.holds[p] && c in Do(s, e).holds[p] ==> s.prog[p] == Test(c) && c < |s.locked| && !s.locked[c]
  {
  }

  // ---------------------------------------------------------------- getting there

  function Actor(e: Event): nat {
    match e
    case AcquireSleep(p, _) => p
    case ReleaseSleep(p, _) => p
    case Step(p) => p
    case Other(e) => e.p
  }

  /** All steps are made by, or give the CPU to, one of two processes. */
  predicate By(es: seq<Event>, p: nat, q: nat) {
    forall i :: 0 <= i < |es| ==> Actor(es[i]) == p || Actor(es[i]) == q
  }

  lemma {:induction false} RunSnoc(s: State, es: seq<Event>, e: Event)
    requires Shaped(s)
    ensures Run(s, es + [e]) == Do(Run(s, es), e)
    decreases |es|
  {
    hide Do;
    if es == [] {
      assert ([] + [e])[1..] == [];
      assert Run(Do(s, e), []) == Do(s, e);
    } else {
      assert (es + [e])[1..] == es[1..] + [e];
      RunSnoc(Do(s, es[0]), es[1..], e);
    }
  }

  /** What one step of the code does to a process that has, or can get, the spinlock. */
  lemma OwnStep(s: State, p: nat)
    requires Shaped(s) && Free(s.w, p) && !s.prog[p].Idle? && s.prog[p].c < |s.locked|
    requires s.w.locks[s.prog[p].c] == if s.prog[p].Enter? || s.prog[p].Retake? then NOBODY else p
    ensures var t, c, prog := Do(s, Step(p)), s.prog[p].c, s.prog[p];
            && t.w.plock == s.w.plock
            && (!prog.Notify? && !(prog.Test? && s.locked[c]) ==> t.w.procs == s.w.procs)
            && (match prog
                case Enter(_) => Moved(s, t, p, Test(c)) && t.w.locks == s.w.locks[c := p]
                case Retake(_) => Moved(s, t, p, Clear(c)) && t.w.locks == s.w.locks[c := p]
                case Test(_) =>
                  !s.locked[c] ==>
                    && t.prog == s.prog[p := Leave(c)] && t.w.locks == s.w.locks && t.locked == s.locked[c := true]
                    && t.pid == s.pid[c := p] && t.holds == s.holds[p := s.holds[p] + {c}]
                case Clear(_) =>
                  && t.prog == s.prog[p := Notify(c)] && t.w.locks == s.w.locks && t.locked == s.locked[c := false]
                  && t.pid == s.pid[c := 0] && t.holds == s.holds[p := s.holds[p] - {c}]
                case Notify(_) =>
                  && Moved(s, t, p, Waking(c)) && t.w.locks == s.w.locks
                  && t.w.procs == s.w.procs[p := s.w.procs[p].(pc := Wake(c, 0))]
                case _ => Moved(s, t, p, Idle) && t.w.locks == s.w.locks[c := NOBODY])
  {
  }

  predicate Moved(s: State, t: State, p: nat, prog: Prog) {
    && p < |s.prog| && t.prog == s.prog[p := prog]
    && t.locked == s.locked && t.pid == s.pid && t.holds == s.holds
  }

  /** One more event. */
  lemma Also(s: State, es: seq<Event>, e: Event, p: nat, q: nat)
    requires Shaped(s) && By(es, p, q) && (Actor(e) == p || Actor(e) == q)
    ensures Run(s, es + [e]) == Do(Run(s, es), e) && By(es + [e], p, q)
  {
    hide Do, Run, Shaped;
    RunSnoc(s, es, e);
  }

  /** acquiresleep of a sleeplock that nobody holds, with nobody at its spinlock, gets it by its own steps. */
  lemma AcquireFree(s: State, p: nat, c: nat) returns (es: seq<Event>)
    requires Inv(s) && Free(s.w, p) && s.prog[p].Idle? && c < |s.locked| && s.w.locks[c] == NOBODY
    requires forall q :: 0 <= q < |s.prog| ==> c !in s.holds[q]
    ensures By(es, p, p) && es != [] && es[0] == AcquireSleep(p, c)
    ensures var t := Run(s, es);
            && t.holds == s.holds[p := s.holds[p] + {c}] && t.pid == s.pid[c := p]
            && t.prog == s.prog && t.w.locks == s.w.locks && t.w.procs == s.w.procs
  {
    hide W.Inv, At, LockOk, Advance;
    es := [AcquireSleep(p, c)];
    assert s.locked[c] ==> Held(s, c);
    var s1 := Do(s, AcquireSleep(p, c));
    assert Run(s, es) == s1;
    hide Do, Run;
    OwnStep(s1, p);
    Also(s, es, Step(p), p, p);
    es := es + [Step(p)];
    var s2 := Run(s, es);
    OwnStep(s2, p);
    Also(s, es, Step(p), p, p);
    es := es + [Step(p)];
    var s3 := Run(s, es);
    OwnStep(s3, p);
    Also(s, es, Step(p), p, p);
    es := es + [Step(p)];
    assert Run(s, es).w.locks == s.w.locks && Run(s, es).prog == s.prog;
  }

  /** Steps inside sleep or wakeup are steps of the machine underneath. */
  lemma {:induction false} ActAlong(s: State, es: seq<Event>, p: nat, q: nat, a: nat, k: nat) returns (fs: seq<Event>)
    requires Shaped(s) && By(es, p, q) && (a == p || a == q)
    ensures By(fs, p, q)
    ensures var t := Run(s, es); Run(s, fs) == t.(w := A.Acts(t.w, a, k))
    decreases k
  {
    hide W.Do, Run;
    fs := es;
    if k > 0 {
      Also(s, es, Other(Act(a)), p, q);
      fs := ActAlong(s, es + [Other(Act(a))], p, q, a, k - 1);
    }
  }

  /** acquiresleep of a sleeplock that is taken ends up asleep on it, with the spinlock given back. */
  lemma AcquireTaken(s: State, p: nat, q: nat, c: nat) returns (es: seq<Event>)
    requires Inv(s) && Free(s.w, p) && s.prog[p].Idle? && s.w.plock[p] == NOBODY
    requires c < |s.locked| && s.w.locks[c] == NOBODY && s.locked[c]
    ensures By(es, p, q)
    ensures var t := Run(s, es);
            && t.prog == s.prog[p := Test(c)] && t.w.procs == s.w.procs[p := Proc(Asleep(c), Sleeping, c)]
            && t.locked == s.locked && t.holds == s.holds && t.w.locks == s.w.locks && t.w.plock == s.w.plock
  {
    hide W.Inv, At, Advance, Owned, A.Acts;
    assert LockOk(s, c);
    es := [AcquireSleep(p, c)];
    var s1 := Do(s, AcquireSleep(p, c));
    assert Run(s, es) == s1;
    hide Do, Run;
    OwnStep(s1, p);
    Also(s, es, Step(p), p, q);
    es := es + [Step(p)];
    var s2 := Run(s, es);
    WaitsFor(s, s1, s2, p, c);
    Also(s, es, Step(p), p, q);
    es := es + [Step(p)];
    A.SleepEnds(Run(s, es).w, p);
    es := ActAlong(s, es, p, q, p, 4);
    assert Run(s, es).w.locks == s.w.locks;
  }

  lemma WaitsFor(s: State, s1: State, s2: State, p: nat, c: nat)
    requires Shaped(s) && Free(s.w, p) && c < |s.locked| && s.locked[c] && s.w.ready[c] == {} && s.w.locks[c] == NOBODY
    requires s1 == Goto(s, p, s.w, Enter(c)) && s2 == Do(s1, Step(p))
    ensures Moved(s1, s2, p, Test(c)) && Shaped(s2)
    ensures var t := Do(s2, Step(p));
            && Moved(s2, t, p, Test(c)) && t.w.locks == s.w.locks[c := p] && t.w.plock == s.w.plock
            && t.w.procs == s.w.procs[p := s.w.procs[p].(pc := W.SleepLock(c))]
  {
  }

  /** releasesleep up to its wakeup. */
  lemma ReleaseCalls(s: State, p: nat, q: nat, c: nat) returns (es: seq<Event>)
    requires Inv(s) && Free(s.w, p) && s.prog[p].Idle? && c in s.holds[p]
    requires c < |s.locked| && s.w.locks[c] == NOBODY
    ensures By(es, p, q)
    ensures var t := Run(s, es);
            && t.locked == s.locked[c := false] && t.holds == s.holds[p := s.holds[p] - {c}]
            && t.prog == s.prog[p := Waking(c)] && t.w.locks == s.w.locks[c := p] && t.w.plock == s.w.plock
            && t.w.procs == s.w.procs[p := s.w.procs[p].(pc := Wake(c, 0))]
  {
    hide W.Inv, At, LockOk, Advance, Owned;
    es := [ReleaseSleep(p, c)];
    var s1 := Do(s, ReleaseSleep(p, c));
    assert Run(s, es) == s1;
    hide Do, Run;
    OwnStep(s1, p);
    Also(s, es, Step(p), p, q);
    es := es + [Step(p)];
    OwnStep(Run(s, es), p);
    Also(s, es, Step(p), p, q);
    es := es + [Step(p)];
    OwnStep(Run(s, es), p);
    Also(s, es, Step(p), p, q);
    es := es + [Step(p)];
  }

  /** releasesleep, with nobody at the spinlock or at a process's own lock, gives the sleeplock back by its own
      steps and makes everybody runnable who sleeps on it. */
  lemma ReleaseEnds(s: State, p: nat, q: nat, c: nat) returns (es: seq<Event>)
    requires Inv(s) && Free(s.w, p) && s.prog[p].Idle? && c in s.holds[p] && A.Unlocked(s.w)
    requires c < |s.locked| && s.w.locks[c] == NOBODY
    ensures By(es, p, q)
    ensures var t := Run(s, es);
            && t.locked == s.locked[c := false] && t.holds == s.holds[p := s.holds[p] - {c}]
            && t.prog == s.prog && t.w.locks == s.w.locks && t.w.plock == s.w.plock
            && t.w.procs == A.RousedFrom(s.w.procs, p, c, 0)
  {
    hide W.Inv, At, LockOk, Owned, Do, Run, A.Acts;
    es := ReleaseCalls(s, p, q, c);
    var s1 := Run(s, es);
    var k := A.WakeupEnds(s1.w, p);
    es := ActAlong(s, es, p, q, p, k);
    OwnStep(Run(s, es), p);
    Also(s, es, Step(p), p, q);
    es := es + [Step(p)];
    var t := Run(s, es);
    assert t.w.locks == s.w.locks && t.prog == s.prog;
    assert A.RousedFrom(s1.w.procs, p, c, 0) == A.RousedFrom(s.w.procs, p, c, 0);
  }

  /** From the holder to a sleeper: once the holder gives the sleeplock back and the scheduler picks the sleeper,
      the steps of these two alone let the sleeper have it. */
  lemma HandOver(s: State, p: nat, q: nat, c: nat) returns (es: seq<Event>)
    requires Inv(s) && Free(s.w, p) && s.prog[p].Idle? && c in s.holds[p] && A.Unlocked(s.w)
    requires c < |s.locked| && s.w.locks[c] == NOBODY
    requires q < |s.prog| && s.prog[q] == Test(c) && s.w.procs[q] == Proc(Asleep(c), Sleeping, c)
    ensures By(es, p, q)
    ensures var t := Run(s, es);
            && c in t.holds[q] && c !in t.holds[p] && t.locked[c] && t.pid[c] == q
            && t.prog[q].Idle? && Free(t.w, q) && t.w.locks == s.w.locks
  {
    hide W.Inv, At, LockOk, Advance, Owned, Run, W.Do, A.Acts;
    es := ReleaseEnds(s, p, q, c);
    var s1 := Run(s, es);
    A.SleeperReturns(s1.w, q);
    Also(s, es, Other(Schedule(q)), p, q);
    es := es + [Other(Schedule(q))];
    es := ActAlong(s, es, p, q, q, 2);
    var s2 := Run(s, es);
    assert s2.w.locks == s1.w.locks[c := q];
    hide Do;
    OwnStep(s2, q);
    Also(s, es, Step(q), p, q);
    es := es + [Step(q)];
    var s3 := Run(s, es);
    OwnStep(s3, q);
    Also(s, es, Step(q), p, q);
    es := es + [Step(q)];
    assert Run(s, es).w.locks == s.w.locks;
  }
}
