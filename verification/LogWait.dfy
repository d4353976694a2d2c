/** begin_op, log_write and end_op around the log's spinlock and channel: the waiting that LogSpace leaves
    to sleep and wakeup. The log is channel 0 with spinlock 0 of the machine in SleepWakeup. */
module LogWait {
  import opened Params
  import opened W = SleepWakeup
  import S = LogSpace
  import A = SleepProgress
  import opened Seqs

  /** Where a process is in the code of log.c. */
  datatype Prog =
    | Idle
    | BeginEnter                      // begin_op: acquire(&log.lock)
    | BeginTest                       // committing, or too little room: sleep(&log, &log.lock)
    | LogEnter(op: nat, b: nat)       // log_write: acquire(&log.lock)
    | LogDo(op: nat, b: nat)
    | EndEnter(op: nat)               // end_op: acquire(&log.lock)
    | EndDo(op: nat)
    | CommitLeave                     // the last one out: release(&log.lock), then commit()
    | Commit
    | DoneEnter                       // acquire(&log.lock)
    | DoneDo                          // log.committing = 0
    | Notify                          // wakeup(&log)
    | Waking                          // in wakeup, then release(&log.lock)
    | Leave                           // release(&log.lock)
    | Panicked

  datatype State = State(w: W.State, prog: seq<Prog>, log: S.State, size: int)

  datatype Event =
    | BeginOp(p: nat)
    | LogWrite(p: nat, op: nat, b: nat)
    | EndOp(p: nat, op: nat)
    | Step(p: nat)               // the next step of one of these calls
    | Other(e: W.Event)          // sleep and wakeup going on, scheduling, and all other kernel code

  const LOG: nat := 0

  ghost predicate Shaped(s: State) {
    && W.Shaped(s.w) && |s.prog| == |s.w.procs| && |s.w.lk| > 0 && |s.w.locks| > 0 && s.w.lk[LOG] == LOG
    && forall c :: 0 < c < |s.w.lk| ==> s.w.lk[c] > 0
  }

  /** The log would admit one more operation. */
  predicate Admits(log: S.State) {
    !log.committing && |log.lh| + (|log.ops| + 1) * MAXOPBLOCKS <= LOGSIZE
  }

  function Waiters(log: S.State, n: nat): set<nat> {
    if Admits(log) then Everybody(n) else {}
  }

  predicate Foreign(s: State, e: W.Event) {
    match e
    case Act(_) => true
    case Schedule(_) => true
    case Yield(_) => true
    case Acquire(p, l) => p < |s.prog| && s.prog[p].Idle? && l > LOG
    case Release(p, l) => p < |s.prog| && s.prog[p].Idle? && l > LOG
    case Update(p, c, _) => p < |s.prog| && s.prog[p].Idle? && c > LOG
    case CallSleep(p, c) => p < |s.prog| && s.prog[p].Idle? && c > LOG
    case _ => e.p < |s.prog| && s.prog[e.p].Idle?
  }

  function Goto(s: State, p: nat, w: W.State, prog: Prog): State
    requires p < |s.prog|
  {
    s.(w := w, prog := s.prog[p := prog])
  }

  function Take(s: State, p: nat, prog: Prog): State
    requires Shaped(s) && p < |s.prog|
  {
    var w := W.Do(s.w, Acquire(p, LOG));
    Goto(s, p, w, if Holds(w, p, LOG) then prog else s.prog[p])
  }

  /** A critical section's change of the log, and with it of what the waiters wait for. */
  function Change(s: State, p: nat, log: S.State, prog: Prog): State
    requires Shaped(s) && p < |s.prog|
  {
    Goto(s, p, W.Do(s.w, Update(p, LOG, Waiters(log, |s.prog|))), prog).(log := log)
  }

  /** The code of log.c; a process that waits for the spinlock stays where it is. */
  function Advance(s: State, p: nat): (t: State)
    requires Shaped(s) && p < |s.prog|
    ensures Shaped(t) && |t.prog| == |s.prog| && t.size == s.size
  {
    match s.prog[p]
    case BeginEnter => Take(s, p, BeginTest)
    case BeginTest =>
      (match S.Step(s.size, s.log, S.Begin)
       case Next(log) => Change(s, p, log, Leave)
       case _ => Goto(s, p, W.Do(s.w, CallSleep(p, LOG)), BeginTest))
    case LogEnter(op, b) => Take(s, p, LogDo(op, b))
    case LogDo(op, b) =>
      if !S.Allowed(s.log, S.Log(op, b)) then Goto(s, p, s.w, Leave)
      else (match S.Step(s.size, s.log, S.Log(op, b))
            case Next(log) => Change(s, p, log, Leave)
            case _ => Goto(s, p, s.w, Panicked))
    case EndEnter(op) => Take(s, p, EndDo(op))
    case EndDo(op) =>
      if !S.Allowed(s.log, S.End(op)) then Goto(s, p, s.w, Leave)
      else (match S.Step(s.size, s.log, S.End(op))
            case Next(log) => Change(s, p, log, if log.committing then CommitLeave else Notify)
            case _ => Goto(s, p, s.w, Panicked))
    case CommitLeave => Goto(s, p, W.Do(s.w, Release(p, LOG)), Commit)
    case Commit => Goto(s, p, s.w, DoneEnter)
    case DoneEnter => Take(s, p, DoneDo)
    case DoneDo =>
      (match S.Step(s.size, s.log, S.CommitDone)
       case Next(log) => Change(s, p, log, Notify)
       case _ => Goto(s, p, s.w, Leave))
    case Notify => Goto(s, p, W.Do(s.w, CallWakeup(p, LOG)), Waking)
    case Waking => Goto(s, p, W.Do(s.w, Release(p, LOG)), Idle)
    case Leave => Goto(s, p, W.Do(s.w, Release(p, LOG)), Idle)
    case _ => s
  }

  function Do(s: State, e: Event): (t: State)
    requires Shaped(s)
    ensures Shaped(t) && |t.prog| == |s.prog| && t.size == s.size
  {
    match e
    case BeginOp(p) => if Free(s.w, p) && s.prog[p].Idle? then Goto(s, p, s.w, BeginEnter) else s
    case LogWrite(p, op, b) => if Free(s.w, p) && s.prog[p].Idle? then Goto(s, p, s.w, LogEnter(op, b)) else s
    case EndOp(p, op) => if Free(s.w, p) && s.prog[p].Idle? then Goto(s, p, s.w, EndEnter(op)) else s
    case Step(p) => if Free(s.w, p) then Advance(s, p) else s
    case Other(e) => if Foreign(s, e) then s.(w := W.Do(s.w, e)) else s
  }

  // ---------------------------------------------------------------- what every step keeps

  /** In a critical section, with the spinlock held. */
  predicate Inside(prog: Prog) {
    prog.LogDo? || prog.EndDo? || prog.CommitLeave? || prog.DoneDo? || prog.Notify? || prog.Leave? || prog.Panicked?
  }

  predicate At(s: State, p: nat)
    requires Shaped(s) && p < |s.prog|
  {
    var pc, prog := s.w.procs[p].pc, s.prog[p];
    && (Inside(prog) ==> pc == Normal && Holds(s.w, p, LOG))
    && (prog.BeginTest? ==> InSleep(pc, LOG) || (pc == Normal && Holds(s.w, p, LOG)))
    && (prog.Waking? ==> Holds(s.w, p, LOG) && (InWakeup(pc, LOG) || (pc == Normal && !s.w.owed[LOG])))
    && (!prog.Idle? && !prog.BeginTest? && !prog.Waking? ==> pc == Normal)
  }

  /** Waiters wait for room, and a wakeup owed to them is under way. */
  ghost predicate LogOk(s: State)
    requires Shaped(s)
  {
    && S.Reachable(s.size, s.log)
    && s.w.ready[LOG] == Waiters(s.log, |s.prog|)
    && (s.w.owed[LOG] ==>
          var h := s.w.locks[LOG];
          0 <= h < |s.prog| && (s.prog[h] == Notify || s.prog[h] == Waking))
  }

  ghost predicate Inv(s: State) {
    Shaped(s) && W.Inv(s.w) && LogOk(s) && forall p :: 0 <= p < |s.prog| ==> At(s, p)
  }

  /** A step of the underlying machine, seen from the processes that do not make it. */
  lemma Together(s: State, t: State, e: W.Event)
    requires Inv(s) && Shaped(t) && t.w == W.Do(s.w, e) && |t.prog| == |s.prog| && LogOk(t)
    requires forall r :: 0 <= r < |s.prog| && r != e.p ==> t.prog[r] == s.prog[r]
    requires e.p < |s.prog| ==> At(t, e.p)
    ensures Inv(t)
  {
    hide W.Inv, LogOk, W.Do;
    W.DoKeeps(s.w, e);
    StepIsLocal(s.w, e);
    forall r | 0 <= r < |s.prog| ensures At(t, r) {
      assert At(s, r);
    }
  }

  /** A step that changes neither the log nor what its waiters wait for. */
  lemma LogSame(s: State, t: State, e: W.Event)
    requires Inv(s) && Shaped(t) && t.w == W.Do(s.w, e) && |t.prog| == |s.prog| && t.log == s.log && t.size == s.size
    requires !(e.Update? && e.c == LOG)
    requires forall r :: 0 <= r < |s.prog| && r != e.p ==> t.prog[r] == s.prog[r]
    requires t.w.owed[LOG] && s.w.locks[LOG] == e.p && e.p < |s.prog| ==>
               t.w.locks[LOG] == e.p && (t.prog[e.p] == Notify || t.prog[e.p] == Waking)
    ensures LogOk(t)
  {
    hide W.Inv, At, W.Do;
    StepIsLocal(s.w, e);
    ReadyKept(s.w, e, LOG);
  }

  lemma SpinStep(s: State, p: nat, e: W.Event, prog: Prog)
    requires Inv(s) && Free(s.w, p) && e.p == p && (e == Acquire(p, LOG) || e == Release(p, LOG))
    requires e.Acquire? ==> !Inside(s.prog[p]) && !s.prog[p].BeginTest? && !s.prog[p].Waking?
    requires e.Acquire? ==> (Inside(prog) || prog.BeginTest? || prog == s.prog[p])
    requires e.Acquire? && prog != s.prog[p] ==> Holds(W.Do(s.w, e), p, LOG)
    requires e.Release? ==> (Inside(s.prog[p]) && !s.prog[p].Notify?) || s.prog[p].Waking?
    requires e.Release? ==> prog.Idle? || prog.Commit?
    ensures Inv(Goto(s, p, W.Do(s.w, e), prog))
  {
    hide W.Inv;
    var t := Goto(s, p, W.Do(s.w, e), prog);
    assert At(s, p);
    LogSame(s, t, e);
    Together(s, t, e);
  }

  /** Steps between critical sections. */
  lemma MoveStep(s: State, p: nat, prog: Prog)
    requires Inv(s) && Free(s.w, p) && !s.prog[p].Notify? && !s.prog[p].Waking?
    requires !prog.Waking? && (Inside(prog) || prog.BeginTest? ==> Holds(s.w, p, LOG))
    ensures Inv(Goto(s, p, s.w, prog))
  {
    hide W.Inv;
    var t := Goto(s, p, s.w, prog);
    forall r | 0 <= r < |s.prog| ensures At(t, r) { assert At(s, r); }
  }

  lemma WaitStep(s: State, p: nat)
    requires Inv(s) && Free(s.w, p) && s.prog[p].BeginTest? && !Admits(s.log)
    ensures Inv(Goto(s, p, W.Do(s.w, CallSleep(p, LOG)), BeginTest))
  {
    hide W.Inv;
    var t := Goto(s, p, W.Do(s.w, CallSleep(p, LOG)), BeginTest);
    assert At(s, p);
    LogSame(s, t, CallSleep(p, LOG));
    Together(s, t, CallSleep(p, LOG));
  }

  lemma NotifyStep(s: State, p: nat)
    requires Inv(s) && Free(s.w, p) && s.prog[p].Notify?
    ensures Inv(Goto(s, p, W.Do(s.w, CallWakeup(p, LOG)), Waking))
  {
    hide W.Inv;
    var t := Goto(s, p, W.Do(s.w, CallWakeup(p, LOG)), Waking);
    assert At(s, p);
    LogSame(s, t, CallWakeup(p, LOG));
    Together(s, t, CallWakeup(p, LOG));
  }

  /** A critical section that may make room goes on to wake the waiters. */
  lemma ChangeStep(s: State, p: nat, e: S.Event, log: S.State, prog: Prog)
    requires Inv(s) && Free(s.w, p) && Holds(s.w, p, LOG) && !s.prog[p].Notify? && !s.prog[p].Waking?
    requires S.Allowed(s.log, e) && S.Step(s.size, s.log, e) == S.Next(log)
    requires prog == Notify || (Inside(prog) && (Admits(log) ==> Admits(s.log)))
    ensures Inv(Change(s, p, log, prog))
  {
    hide W.Inv;
    var t := Change(s, p, log, prog);
    var es :| S.Reaches(s.size, S.INIT, es, s.log);
    S.ReachesAppend(s.size, S.INIT, es, s.log, e);
    assert S.Reachable(t.size, t.log);
    Together(s, t, Update(p, LOG, Waiters(log, |s.prog|)));
  }

  lemma TakeStep(s: State, p: nat, prog: Prog)
    requires Inv(s) && Free(s.w, p) && !Inside(s.prog[p]) && !s.prog[p].BeginTest? && !s.prog[p].Waking?
    requires Inside(prog) || prog.BeginTest?
    ensures Inv(Take(s, p, prog))
  {
    hide W.Inv, At, LogOk;
    var w := W.Do(s.w, Acquire(p, LOG));
    SpinStep(s, p, Acquire(p, LOG), if Holds(w, p, LOG) then prog else s.prog[p]);
  }

  lemma AdvanceKeeps(s: State, p: nat)
    requires Inv(s) && Free(s.w, p)
    ensures Inv(Advance(s, p))
  {
    hide W.Inv, LogOk, W.Do;
    assert At(s, p);
    match s.prog[p]
    case BeginEnter => TakeStep(s, p, BeginTest);
    case LogEnter(op, b) => TakeStep(s, p, LogDo(op, b));
    case EndEnter(op) => TakeStep(s, p, EndDo(op));
    case DoneEnter => TakeStep(s, p, DoneDo);
    case BeginTest =>
      if Admits(s.log) { ChangeStep(s, p, S.Begin, S.Step(s.size, s.log, S.Begin).s, Leave); } else { WaitStep(s, p); }
    case LogDo(op, b) => SectionKeeps(s, p, S.Log(op, b));
    case EndDo(op) => SectionKeeps(s, p, S.End(op));
    case DoneDo => SectionKeeps(s, p, S.CommitDone);
    case Commit => MoveStep(s, p, DoneEnter);
    case CommitLeave => SpinStep(s, p, Release(p, LOG), Commit);
    case Waking => SpinStep(s, p, Release(p, LOG), Idle);
    case Leave => SpinStep(s, p, Release(p, LOG), Idle);
    case Notify => NotifyStep(s, p);
    case _ =>
  }

  lemma SectionKeeps(s: State, p: nat, e: S.Event)
    requires Inv(s) && Free(s.w, p)
    requires (e.Log? && s.prog[p] == LogDo(e.op, e.block)) || (e.End? && s.prog[p] == EndDo(e.op))
             || (e.CommitDone? && s.prog[p] == DoneDo)
    ensures Inv(Advance(s, p))
  {
    hide W.Inv, LogOk, W.Do;
    assert At(s, p);
    if S.Allowed(s.log, e) && S.Step(s.size, s.log, e).Next? {
      var log := S.Step(s.size, s.log, e).s;
      ChangeStep(s, p, e, log, if e.Log? then Leave else if log.committing then CommitLeave else Notify);
    } else {
      MoveStep(s, p, if S.Allowed(s.log, e) && !e.CommitDone? then Panicked else Leave);
    }
  }

  /** Steps outside log.c, and sleep and wakeup on its behalf. */
  lemma OtherStep(s: State, e: W.Event)
    requires Inv(s) && Foreign(s, e)
    ensures Inv(Do(s, Other(e)))
  {
    hide W.Inv, W.Do, At, LogOk;
    var t := s.(w := W.Do(s.w, e));
    StepIsLocal(s.w, e);
    if e.p < |s.prog| {
      ForeignAt(s, e);
      ForeignLog(s, e);
      Together(s, t, e);
    }
  }

  /** The only such steps of a process in the code of log.c. */
  predicate Passive(e: W.Event) {
    e.Act? || e.Schedule? || e.Yield?
  }

  lemma ForeignAt(s: State, e: W.Event)
    requires Inv(s) && Foreign(s, e) && e.p < |s.prog|
    ensures At(s.(w := W.Do(s.w, e)), e.p)
  {
    hide W.Inv, LogOk, W.Do;
    assert At(s, e.p);
    if !s.prog[e.p].Idle? {
      assert Passive(e);
      if e.Act? { ActMoves(s.w, e.p, LOG); } else { ScheduleMoves(s.w, e); }
    }
  }

  lemma ForeignLog(s: State, e: W.Event)
    requires Inv(s) && Foreign(s, e) && e.p < |s.prog|
    ensures LogOk(s.(w := W.Do(s.w, e)))
  {
    hide W.Inv, W.Do;
    var p, t := e.p, s.(w := W.Do(s.w, e));
    assert At(s, p);
    StepIsLocal(s.w, e);
    if s.prog[p].Notify? || s.prog[p].Waking? {
      assert Passive(e);
      if e.Act? { ActMoves(s.w, p, LOG); } else { ScheduleMoves(s.w, e); }
    }
    LogSame(s, t, e);
  }

  lemma DoKeeps(s: State, e: Event)
    requires Inv(s)
    ensures Inv(Do(s, e))
  {
    hide W.Inv, LogOk, At, W.Do, Advance;
    match e
    case BeginOp(p) => if Free(s.w, p) && s.prog[p].Idle? { MoveStep(s, p, BeginEnter); }
    case LogWrite(p, op, b) => if Free(s.w, p) && s.prog[p].Idle? { MoveStep(s, p, LogEnter(op, b)); }
    case EndOp(p, op) => if Free(s.w, p) && s.prog[p].Idle? { MoveStep(s, p, EndEnter(op)); }
    case Step(p) => if Free(s.w, p) { AdvanceKeeps(s, p); }
    case Other(e) => if Foreign(s, e) { OtherStep(s, e); }
  }

  // ---------------------------------------------------------------- runs

  /** Booted, with an empty log and nobody in its code. */
  ghost predicate Initial(s: State) {
    && Shaped(s) && W.Initial(s.w) && s.log == S.INIT && s.w.ready[LOG] == Everybody(|s.prog|)
    && forall p :: 0 <= p < |s.prog| ==> s.prog[p] == Idle
  }

  function Run(s: State, es: seq<Event>): (t: State)
    requires Shaped(s)
    ensures Shaped(t) && |t.prog| == |s.prog| && t.size == s.size
    decreases |es|
  {
    if es == [] then s else Run(Do(s, es[0]), es[1..])
  }

  lemma {:induction false} RunKeeps(s: State, es: seq<Event>)
    requires Inv(s)
    ensures Inv(Run(s, es))
    decreases |es|
  {
    hide W.Inv, LogOk, At, Do;
    if es != [] {
      DoKeeps(s, es[0]);
      RunKeeps(Do(s, es[0]), es[1..]);
    }
  }

  lemma Reached(s: State, es: seq<Event>)
    requires Initial(s)
    ensures Inv(Run(s, es))
  {
    hide W.Inv;
    W.Reached(s.w, []);
    assert S.Reaches(s.size, S.INIT, [], s.log);
    assert S.Reachable(s.size, s.log);
    RunKeeps(s, es);
  }

  /** A run of the log is a run of the machine underneath. */
  lemma {:induction false} Projects(s: State, es: seq<Event>) returns (ws: seq<W.Event>)
    requires Shaped(s)
    ensures Run(s, es).w == W.Run(s.w, ws)
    decreases |es|
  {
    hide W.Do, Do;
    ws := [];
    if es != [] {
      var w := StepProjects(s, es[0]);
      var rest := Projects(Do(s, es[0]), es[1..]);
      ws := w + rest;
      assert ws == if w == [] then rest else [w[0]] + rest;
      assert w != [] ==> ws[1..] == rest;
    }
  }

  lemma StepProjects(s: State, e: Event) returns (ws: seq<W.Event>)
    requires Shaped(s)
    ensures |ws| <= 1 && Do(s, e).w == if ws == [] then s.w else W.Do(s.w, ws[0])
  {
    hide W.Do;
    ws := [];
    match e
    case Other(f) => if Foreign(s, f) { ws := [f]; }
    case Step(p) =>
      if Free(s.w, p) && Advance(s, p).w != s.w {
        var prog, log := s.prog[p], Advance(s, p).log;
        ws := [if prog.Notify? then CallWakeup(p, LOG)
               else if prog.BeginTest? && !Admits(s.log) then CallSleep(p, LOG)
               else if prog.Waking? || prog.Leave? || prog.CommitLeave? then Release(p, LOG)
               else if prog.BeginTest? || prog.LogDo? || prog.EndDo? || prog.DoneDo?
                 then Update(p, LOG, Waiters(log, |s.prog|))
               else Acquire(p, LOG)];
      }
    case _ =>
  }

  /** No operation stays SLEEPING in begin_op, or on its way to sleep there, once the log would admit it and the
      log's spinlock is free; and the log is in a state the reservation theorems cover. */
  lemma NobodyWaitsWithRoom(s0: State, es: seq<Event>, q: nat)
    requires Initial(s0) && q < |s0.prog|
    ensures var s := Run(s0, es);
            && S.Inv(s.log)
            && (S.Step(s.size, s.log, S.Begin).Next? && s.w.locks[LOG] == NOBODY ==>
                  && !Committed(s.w.procs[q], LOG)
                  && !(s.w.procs[q].state == Sleeping && s.w.procs[q].chan == LOG))
  {
    hide W.Inv, At;
    Reached(s0, es);
    var s := Run(s0, es);
    S.ReservationHolds(s.size, s.log);
    var ws := Projects(s0, es);
    NobodySleepsOnTrueCondition(s0.w, ws, q, LOG);
  }

  // ---------------------------------------------------------------- the one who commits

  /** Between marking the log as committing and clearing that mark. */
  predicate Committer(prog: Prog) {
    prog.CommitLeave? || prog.Commit? || prog.DoneEnter? || prog.DoneDo?
  }

  predicate CommitsAt(s: State, p: nat) {
    p < |s.prog| && Committer(s.prog[p])
  }

  ghost predicate OneCommitter(s: State) {
    && (s.log.committing <==> exists p :: CommitsAt(s, p))
    && (forall p, q :: CommitsAt(s, p) && CommitsAt(s, q) ==> p == q)
  }

  /** The mark changes just when the process begins or ends a commit. */
  predicate MarksCommit(s: State, t: State, p: nat) {
    && p < |s.prog| == |t.prog| && t.prog == s.prog[p := t.prog[p]]
    && (|| (Committer(t.prog[p]) == Committer(s.prog[p]) && t.log.committing == s.log.committing)
        || (Committer(t.prog[p]) && !Committer(s.prog[p]) && t.log.committing && !s.log.committing)
        || (!Committer(t.prog[p]) && Committer(s.prog[p]) && !t.log.committing))
  }

  lemma AdvanceMarks(s: State, p: nat)
    requires Shaped(s) && p < |s.prog|
    ensures MarksCommit(s, Advance(s, p), p)
  {
    hide W.Do, Shaped, W.Shaped, Waiters, Holds;
  }

  lemma CommitStep(s: State, e: Event) returns (p: nat)
    requires Shaped(s)
    ensures var t := Do(s, e);
            MarksCommit(s, t, p) || (t.prog == s.prog && t.log.committing == s.log.committing)
  {
    hide W.Do, Advance, MarksCommit;
    match e
    case BeginOp(q) => p := q; Marks(s, q, BeginEnter);
    case LogWrite(q, op, b) => p := q; Marks(s, q, LogEnter(op, b));
    case EndOp(q, op) => p := q; Marks(s, q, EndEnter(op));
    case Step(q) => p := q; if Free(s.w, q) { AdvanceMarks(s, q); }
    case Other(_) => p := 0;
  }

  lemma Marks(s: State, p: nat, prog: Prog)
    ensures p < |s.prog| && s.prog[p].Idle? && !Committer(prog) ==> MarksCommit(s, Goto(s, p, s.w, prog), p)
  {
  }

  lemma CommitterStep(s: State, e: Event)
    requires Shaped(s) && OneCommitter(s)
    ensures OneCommitter(Do(s, e))
  {
    hide Do, Shaped;
    var t := Do(s, e);
    var p := CommitStep(s, e);
    assert forall q: nat :: q != p || t.prog == s.prog ==> (CommitsAt(t, q) <==> CommitsAt(s, q));
    assert MarksCommit(s, t, p) ==>
        (CommitsAt(s, p) <==> Committer(s.prog[p])) && (CommitsAt(t, p) <==> Committer(t.prog[p]));
    if q :| CommitsAt(s, q) {
      assert t.log.committing ==> CommitsAt(t, q);
    }
  }

  lemma {:induction false} CommitterKept(s: State, es: seq<Event>)
    requires Shaped(s) && OneCommitter(s)
    ensures OneCommitter(Run(s, es))
    decreases |es|
  {
    hide Do, OneCommitter;
    if es != [] {
      CommitterStep(s, es[0]);
      CommitterKept(Do(s, es[0]), es[1..]);
    }
  }

  /** The log is marked as committing exactly while one process is at it, and never by two: the mark is not
      left behind, and no commit runs without it. */
  lemma CommitHasOneCommitter(s0: State, es: seq<Event>)
    requires Initial(s0)
    ensures OneCommitter(Run(s0, es))
  {
    CommitterKept(s0, es);
  }

  // ---------------------------------------------------------------- getting there

  function Actor(e: Event): nat {
    match e
    case BeginOp(p) => p
    case LogWrite(p, _, _) => p
    case EndOp(p, _) => p
    case Step(p) => p
    case Other(e) => e.p
  }

  /** All steps are made by, or give the CPU to, one of two processes. */
  predicate By(es: seq<Event>, p: nat, q: nat) {
    forall i :: 0 <= i < |es| ==> Actor(es[i]) == p || Actor(es[i]) == q
  }

  lemma {:induction false} RunSnoc(s: State, es: seq<Event>, e: Event)
    requires Shaped(s)
    ensures Run(s, es + [e]) == Do(Run(s, es), e)
    decreases |es|
  {
    hide Do;
    if es == [] {
      assert ([] + [e])[1..] == [];
      assert Run(Do(s, e), []) == Do(s, e);
    } else {
      assert (es + [e])[1..] == es[1..] + [e];
      RunSnoc(Do(s, es[0]), es[1..], e);
    }
  }

  /** One more event. */
  lemma Also(s: State, es: seq<Event>, e: Event, p: nat, q: nat)
    requires Shaped(s) && By(es, p, q) && (Actor(e) == p || Actor(e) == q)
    ensures Run(s, es + [e]) == Do(Run(s, es), e) && By(es + [e], p, q)
  {
    hide Do, Run, Shaped;
    RunSnoc(s, es, e);
  }

  /** Steps inside sleep or wakeup are steps of the machine underneath. */
  lemma {:induction false} ActAlong(s: State, es: seq<Event>, p: nat, q: nat, a: nat, k: nat) returns (fs: seq<Event>)
    requires Shaped(s) && By(es, p, q) && (a == p || a == q)
    ensures By(fs, p, q)
    ensures var t := Run(s, es); Run(s, fs) == t.(w := A.Acts(t.w, a, k))
    decreases k
  {
    hide W.Do, Run;
    fs := es;
    if k > 0 {
      Also(s, es, Other(Act(a)), p, q);
      fs := ActAlong(s, es + [Other(Act(a))], p, q, a, k - 1);
    }
  }

  /** Process `p` has moved on, the log has changed, and `h` has its spinlock. */
  ghost predicate Moved(s: State, t: State, p: nat, prog: Prog, log: S.State, h: int) {
    && Shaped(s) && p < |s.prog| && t.prog == s.prog[p := prog] && t.log == log && t.size == s.size
    && t.w.locks == s.w.locks[LOG := h] && t.w.plock == s.w.plock && t.w.procs == s.w.procs
  }

  /** What one step of the code does for a process that has, or can get, the spinlock. */
  lemma OwnStep(s: State, p: nat)
    requires Shaped(s) && Free(s.w, p)
    ensures var t := Do(s, Step(p));
            match s.prog[p]
            case BeginEnter => s.w.locks[LOG] == NOBODY ==> Moved(s, t, p, BeginTest, s.log, p)
            case LogEnter(op, b) => s.w.locks[LOG] == NOBODY ==> Moved(s, t, p, LogDo(op, b), s.log, p)
            case EndEnter(op) => s.w.locks[LOG] == NOBODY ==> Moved(s, t, p, EndDo(op), s.log, p)
            case DoneEnter => s.w.locks[LOG] == NOBODY ==> Moved(s, t, p, DoneDo, s.log, p)
            case Commit => Moved(s, t, p, DoneEnter, s.log, s.w.locks[LOG])
            case CommitLeave => s.w.locks[LOG] == p ==> Moved(s, t, p, Commit, s.log, NOBODY)
            case Leave => s.w.locks[LOG] == p ==> Moved(s, t, p, Idle, s.log, NOBODY)
            case Waking => s.w.locks[LOG] == p ==> Moved(s, t, p, Idle, s.log, NOBODY)
            case _ => true
  {
    hide S.Step;
  }

  /** The log with block `b` in it, counted to operation `op` if it is new. */
  function Noted(log: S.State, op: nat, b: nat): S.State
    requires op < |log.ops|
  {
    if b in log.lh then log else log.(lh := log.lh + [b], ops := log.ops[op := log.ops[op] + 1])
  }

  /** What the critical sections do. */
  lemma SectionStep(s: State, p: nat)
    requires Shaped(s) && Free(s.w, p) && s.w.locks[LOG] == p
    ensures var t, log := Do(s, Step(p)), s.log;
            match s.prog[p]
            case BeginTest =>
              !log.committing && |log.lh| + (|log.ops| + 1) * MAXOPBLOCKS <= LOGSIZE ==>
                Moved(s, t, p, Leave, log.(ops := log.ops + [0]), p)
            case LogDo(op, b) =>
              op < |log.ops| && log.ops[op] < MAXOPBLOCKS && |log.lh| < LOGSIZE && |log.lh| < s.size - 1 ==>
                Moved(s, t, p, Leave, Noted(log, op, b), p)
            case EndDo(op) =>
              op < |log.ops| && !log.committing ==>
                if |log.ops| == 1 then Moved(s, t, p, CommitLeave, log.(ops := [], committing := true), p)
                else Moved(s, t, p, Notify, log.(ops := Without(log.ops, op)), p)
            case DoneDo => log.committing ==> Moved(s, t, p, Notify, log.(lh := [], committing := false), p)
            case _ => true
  {
  }

  lemma NotifyCalls(s: State, p: nat)
    requires Shaped(s) && Free(s.w, p) && s.prog[p].Notify?
    ensures var t := Do(s, Step(p));
            && t.prog == s.prog[p := Waking] && t.log == s.log && t.size == s.size
            && t.w.locks == s.w.locks && t.w.plock == s.w.plock
            && t.w.procs == s.w.procs[p := s.w.procs[p].(pc := Wake(LOG, 0))]
  {
  }

  /** Process `p` is outside the code of log.c, and nobody is at the log's spinlock. */
  ghost predicate AtEase(s: State, p: nat) {
    Shaped(s) && Free(s.w, p) && s.prog[p].Idle? && s.w.locks[LOG] == NOBODY
  }

  /** begin_op, when there is room, admits its operation by its own steps and leaves the spinlock free. */
  lemma BeginAdmitted(s: State, p: nat, q: nat) returns (es: seq<Event>)
    requires AtEase(s, p) && Admits(s.log)
    ensures By(es, p, q)
    ensures Moved(s, Run(s, es), p, Idle, s.log.(ops := s.log.ops + [0]), NOBODY)
  {
    es := [BeginOp(p)];
    assert Run(s, es) == Goto(s, p, s.w, BeginEnter);
    hide Do, Run, S.Step;
    OwnStep(Run(s, es), p);
    Also(s, es, Step(p), p, q);
    es := es + [Step(p)];
    SectionStep(Run(s, es), p);
    Also(s, es, Step(p), p, q);
    es := es + [Step(p)];
    OwnStep(Run(s, es), p);
    Also(s, es, Step(p), p, q);
    es := es + [Step(p)];
  }

  /** begin_op, when there is no room, ends up asleep on the log with the spinlock given back. */
  lemma BeginWaits(s: State, p: nat, q: nat) returns (es: seq<Event>)
    requires AtEase(s, p) && Inv(s) && !Admits(s.log) && s.w.plock[p] == NOBODY
    ensures By(es, p, q)
    ensures var t := Run(s, es);
            && t.prog == s.prog[p := BeginTest] && t.w.procs == s.w.procs[p := Proc(Asleep(LOG), Sleeping, LOG)]
            && t.log == s.log && t.w.locks == s.w.locks && t.w.plock == s.w.plock
  {
    hide W.Inv, At, A.Acts;
    es := [BeginOp(p)];
    assert Run(s, es) == Goto(s, p, s.w, BeginEnter);
    var s1 := Goto(s, p, s.w, BeginEnter);
    hide Do, Run, S.Step;
    OwnStep(s1, p);
    Also(s, es, Step(p), p, q);
    es := es + [Step(p)];
    WaitsForRoom(s1, p);
    Also(s, es, Step(p), p, q);
    es := es + [Step(p)];
    A.SleepEnds(Run(s, es).w, p);
    es := ActAlong(s, es, p, q, p, 4);
    assert Run(s, es).w.locks == s.w.locks;
  }

  lemma WaitsForRoom(s: State, p: nat)
    requires Shaped(s) && Free(s.w, p) && s.prog[p].BeginEnter? && s.w.locks[LOG] == NOBODY
    requires !Admits(s.log) && p !in s.w.ready[LOG]
    ensures var t := Do(Do(s, Step(p)), Step(p));
            && t.prog == s.prog[p := BeginTest] && t.log == s.log && t.w.lk == s.w.lk
            && t.w.locks == s.w.locks[LOG := p] && t.w.plock == s.w.plock
            && t.w.procs == s.w.procs[p := s.w.procs[p].(pc := W.SleepLock(LOG))]
  {
  }

  /** log_write, with reservation and space left, notes the block once by its own steps. */
  lemma WriteNoted(s: State, p: nat, op: nat, b: nat) returns (es: seq<Event>)
    requires AtEase(s, p) && op < |s.log.ops| && s.log.ops[op] < MAXOPBLOCKS
    requires |s.log.lh| < LOGSIZE && |s.log.lh| < s.size - 1
    ensures By(es, p, p)
    ensures Moved(s, Run(s, es), p, Idle, Noted(s.log, op, b), NOBODY)
  {
    es := [LogWrite(p, op, b)];
    assert Run(s, es) == Goto(s, p, s.w, LogEnter(op, b));
    hide Do, Run, S.Step, Noted;
    OwnStep(Run(s, es), p);
    Also(s, es, Step(p), p, p);
    es := es + [Step(p)];
    SectionStep(Run(s, es), p);
    Also(s, es, Step(p), p, p);
    es := es + [Step(p)];
    OwnStep(Run(s, es), p);
    Also(s, es, Step(p), p, p);
    es := es + [Step(p)];
  }

  /** end_op up to its wakeup: the last one out commits, so that the log is empty and open again. */
  lemma EndNotifies(s: State, p: nat, q: nat, op: nat) returns (es: seq<Event>)
    requires AtEase(s, p) && op < |s.log.ops| && !s.log.committing
    ensures By(es, p, q)
    ensures Moved(s, Run(s, es), p, Notify,
                  if |s.log.ops| == 1 then S.INIT else s.log.(ops := Without(s.log.ops, op)), p)
  {
    es := [EndOp(p, op)];
    assert Run(s, es) == Goto(s, p, s.w, EndEnter(op));
    hide Do, Run, S.Step;
    OwnStep(Run(s, es), p);
    Also(s, es, Step(p), p, q);
    es := es + [Step(p)];
    SectionStep(Run(s, es), p);
    Also(s, es, Step(p), p, q);
    es := es + [Step(p)];
    if |s.log.ops| == 1 {
      es := CommitNotifies(s, es, p, q);
    }
  }

  lemma CommitNotifies(s: State, es0: seq<Event>, p: nat, q: nat) returns (es: seq<Event>)
    requires Shaped(s) && By(es0, p, q) && Free(s.w, p) && s.w.locks[LOG] == NOBODY && |s.log.ops| == 1
    requires Moved(s, Run(s, es0), p, CommitLeave, s.log.(ops := [], committing := true), p)
    ensures By(es, p, q) && Moved(s, Run(s, es), p, Notify, S.INIT, p)
  {
    hide Do, Run, S.Step;
    es := es0;
    OwnStep(Run(s, es), p);
    Also(s, es, Step(p), p, q);
    es := es + [Step(p)];
    OwnStep(Run(s, es), p);
    Also(s, es, Step(p), p, q);
    es := es + [Step(p)];
    OwnStep(Run(s, es), p);
    Also(s, es, Step(p), p, q);
    es := es + [Step(p)];
    SectionStep(Run(s, es), p);
    Also(s, es, Step(p), p, q);
    es := es + [Step(p)];
  }

  /** end_op, with nobody at a process's own lock, ends its operation by its own steps, and everybody is runnable
      who was asleep in begin_op. After the last operation the log is empty and not committing. */
  lemma EndEnds(s: State, p: nat, q: nat, op: nat) returns (es: seq<Event>)
    requires AtEase(s, p) && op < |s.log.ops| && !s.log.committing && A.Unlocked(s.w)
    ensures By(es, p, q)
    ensures var t := Run(s, es);
            && t.log == (if |s.log.ops| == 1 then S.INIT else s.log.(ops := Without(s.log.ops, op)))
            && t.size == s.size && t.prog == s.prog && t.w.locks == s.w.locks && t.w.plock == s.w.plock
            && t.w.procs == A.RousedFrom(s.w.procs, p, LOG, 0)
  {
    hide Do, Run, A.Acts;
    es := EndNotifies(s, p, q, op);
    NotifyCalls(Run(s, es), p);
    Also(s, es, Step(p), p, q);
    es := es + [Step(p)];
    var s1 := Run(s, es);
    var k := A.WakeupEnds(s1.w, p);
    es := ActAlong(s, es, p, q, p, k);
    OwnStep(Run(s, es), p);
    Also(s, es, Step(p), p, q);
    es := es + [Step(p)];
    var t := Run(s, es);
    assert t.w.locks == s.w.locks && t.prog == s.prog;
    assert A.RousedFrom(s1.w.procs, p, LOG, 0) == A.RousedFrom(s.w.procs, p, LOG, 0);
  }

  /** From the last operation to a waiting one: once the last operation ends and the scheduler picks the waiter,
      the steps of these two alone let the waiter's operation begin. */
  lemma WaiterAdmitted(s: State, p: nat, q: nat) returns (es: seq<Event>)
    requires AtEase(s, p) && |s.log.ops| == 1 && !s.log.committing && A.Unlocked(s.w)
    requires q < |s.prog| && s.prog[q].BeginTest? && s.w.procs[q] == Proc(Asleep(LOG), Sleeping, LOG)
    ensures By(es, p, q)
    ensures var t := Run(s, es);
            && t.log == S.State([], [0], false) && t.prog[q].Idle? && Free(t.w, q) && t.w.locks == s.w.locks
  {
    hide Run, W.Do, A.Acts;
    es := EndEnds(s, p, q, 0);
    var s1 := Run(s, es);
    A.SleeperReturns(s1.w, q);
    Also(s, es, Other(Schedule(q)), p, q);
    es := es + [Other(Schedule(q))];
    es := ActAlong(s, es, p, q, q, 2);
    var s2 := Run(s, es);
    assert s2.w.locks == s1.w.locks[LOG := q];
    hide Do;
    SectionStep(s2, q);
    Also(s, es, Step(q), p, q);
    es := es + [Step(q)];
    OwnStep(Run(s, es), q);
    Also(s, es, Step(q), p, q);
    es := es + [Step(q)];
    assert Run(s, es).w.locks == s.w.locks;
  }
}
