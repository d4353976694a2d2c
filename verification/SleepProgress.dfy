/** What sleep, wakeup, kill and the scheduler get done: the steps of one process with nobody in its way.
    SleepWakeup says what no interleaving can spoil; here the calls are shown to reach their ends. */
module SleepProgress {
  import opened SleepWakeup

  function Acts(s: State, p: nat, k: nat): (t: State)
    requires Shaped(s)
    ensures Shaped(t) && |t.procs| == |s.procs| && t.lk == s.lk && |t.locks| == |s.locks|
    decreases k
  {
    if k == 0 then s else Acts(Do(s, Act(p)), p, k - 1)
  }

  lemma {:induction false} ActsAppend(s: State, p: nat, j: nat, k: nat)
    requires Shaped(s)
    ensures Acts(Acts(s, p, j), p, k) == Acts(s, p, j + k)
    decreases j
  {
    hide Do;
    if j > 0 {
      ActsAppend(Do(s, Act(p)), p, j - 1, k);
    }
  }

  lemma ActsFew(s: State, p: nat)
    requires Shaped(s)
    ensures var s1 := Do(s, Act(p));
            var s2 := Do(s1, Act(p));
            var s3 := Do(s2, Act(p));
            Acts(s, p, 1) == s1 && Acts(s, p, 2) == s2 && Acts(s, p, 3) == s3 && Acts(s, p, 4) == Do(s3, Act(p))
  {
    hide Do;
    var s1 := Do(s, Act(p));
    var s2 := Do(s1, Act(p));
    var s3 := Do(s2, Act(p));
    var s4 := Do(s3, Act(p));
    assert Acts(s4, p, 0) == s4 && Acts(s3, p, 1) == s4 && Acts(s2, p, 2) == s4 && Acts(s1, p, 3) == s4;
    assert Acts(s3, p, 0) == s3 && Acts(s2, p, 1) == s3 && Acts(s1, p, 2) == s3;
    assert Acts(s2, p, 0) == s2 && Acts(s1, p, 1) == s2;
    assert Acts(s1, p, 0) == s1;
  }

  /** Nobody holds a process's own lock. */
  predicate Unlocked(s: State) {
    forall q :: 0 <= q < |s.plock| ==> s.plock[q] == NOBODY
  }

  /** Nobody is in the way of a wakeup by `p`: every process's own lock is free, or `p` has it because it is
      creating that process. */
  predicate Open(s: State, p: nat) {
    forall q :: 0 <= q < |s.plock| == |s.procs| ==>
      s.plock[q] == NOBODY || (q != p && s.plock[q] == p && s.procs[q].state == Used)
  }

  // ---------------------------------------------------------------- wakeup

  function Roused(pr: Proc, c: nat): Proc {
    if pr.state == Sleeping && pr.chan == c then pr.(state := Runnable) else pr
  }

  /** What one step inside sleep or wakeup does. */
  lemma OneStep(s: State, p: nat)
    requires Shaped(s) && p < |s.procs| && s.procs[p].state == Running
    ensures var pc, t := s.procs[p].pc, Do(s, Act(p));
            match pc
            case Wake(c, i) =>
              i < |s.procs| && (s.plock[i] == NOBODY || (s.plock[i] == p && s.procs[i].state == Used)) ==>
                t == if i == p || s.plock[i] != NOBODY then Go(s, p, Wake(c, i + 1))
                     else Go(s, p, WakeTest(c, i)).(plock := s.plock[i := p])
            case WakeTest(c, i) =>
              i < |s.procs| && i != p ==>
                t == Go(s.(procs := s.procs[i := Roused(s.procs[i], c)]), p, WakeUnlock(c, i))
            case WakeUnlock(c, i) =>
              i < |s.procs| ==> t == Go(s, p, Wake(c, i + 1)).(plock := s.plock[i := NOBODY])
            case SleepLock(c) =>
              s.plock[p] == NOBODY ==> t == Go(s, p, SleepUnlock(c)).(plock := s.plock[p := p])
            case SleepUnlock(c) =>
              Holds(s, p, c) ==> t == Go(s, p, SleepMark(c)).(locks := s.locks[s.lk[c] := NOBODY])
            case SleepMark(c) => t == s.(procs := s.procs[p := Proc(Switch(c), Sleeping, c)])
            case _ => true
  {
  }

  /** One turn of wakeup's loop. */
  lemma Turn(s: State, p: nat) returns (k: nat)
    requires Shaped(s) && Open(s, p) && p < |s.procs| && s.procs[p].state == Running
    requires s.procs[p].pc.Wake? && s.procs[p].pc.i < |s.procs|
    ensures var c, i := s.procs[p].pc.c, s.procs[p].pc.i;
            var procs := if i == p then s.procs else s.procs[i := Roused(s.procs[i], c)];
            Acts(s, p, k) == s.(procs := procs[p := s.procs[p].(pc := Wake(c, i + 1))])
  {
    hide Do, Acts;
    var c, i := s.procs[p].pc.c, s.procs[p].pc.i;
    ActsFew(s, p);
    OneStep(s, p);
    if i == p || s.plock[i] != NOBODY {
      k := 1;
      assert i != p ==> s.procs[i := Roused(s.procs[i], c)] == s.procs;
    } else {
      k := 3;
      var s1 := Do(s, Act(p));
      OneStep(s1, p);
      var s2 := Do(s1, Act(p));
      OneStep(s2, p);
      var s3 := Do(s2, Act(p));
      assert s3.plock == s.plock;
      assert s3.procs == s.procs[i := Roused(s.procs[i], c)][p := s.procs[p].(pc := Wake(c, i + 1))];
    }
  }

  /** The processes after a wakeup on `c` by `p`, from process `i` on. */
  function RousedFrom(procs: seq<Proc>, p: nat, c: nat, i: nat): seq<Proc> {
    seq(|procs|, q requires 0 <= q < |procs| =>
      if q == p then procs[q].(pc := Normal) else if q >= i then Roused(procs[q], c) else procs[q])
  }

  /** A wakeup ends, and has made runnable everybody who sleeps on its channel and nobody else. */
  lemma {:induction false} WakeupEnds(s: State, p: nat) returns (k: nat)
    requires Shaped(s) && Open(s, p) && p < |s.procs| && s.procs[p].state == Running && s.procs[p].pc.Wake?
    ensures var t, c := Acts(s, p, k), s.procs[p].pc.c;
            && t.procs == RousedFrom(s.procs, p, c, s.procs[p].pc.i)
            && t.plock == s.plock && t.locks == s.locks && t.ready == s.ready
            && (Holds(s, p, c) ==> t.quiet == s.quiet[c := true] && t.owed == s.owed[c := false])
    decreases |s.procs| - s.procs[p].pc.i
  {
    hide Do;
    var c, i := s.procs[p].pc.c, s.procs[p].pc.i;
    if i >= |s.procs| {
      k := 1;
      LastTurn(s, p);
    } else {
      var k1 := Turn(s, p);
      var s1 := Acts(s, p, k1);
      var k2 := WakeupEnds(s1, p);
      k := k1 + k2;
      ActsAppend(s, p, k1, k2);
      assert RousedFrom(s1.procs, p, c, i + 1) == RousedFrom(s.procs, p, c, i);
    }
  }

  lemma LastTurn(s: State, p: nat)
    requires Shaped(s) && p < |s.procs| && s.procs[p].state == Running
    requires s.procs[p].pc.Wake? && s.procs[p].pc.i >= |s.procs|
    ensures var t, c := Acts(s, p, 1), s.procs[p].pc.c;
            && t.procs == RousedFrom(s.procs, p, c, s.procs[p].pc.i)
            && t.plock == s.plock && t.locks == s.locks && t.ready == s.ready
            && (Holds(s, p, c) ==> t.quiet == s.quiet[c := true] && t.owed == s.owed[c := false])
  {
    ActsFew(s, p);
  }

  // ---------------------------------------------------------------- sleep

  /** A sleep gives the lock back and gives up the CPU, and nothing else changes. */
  lemma SleepEnds(s: State, p: nat)
    requires Shaped(s) && p < |s.procs| && s.plock[p] == NOBODY && s.procs[p].state == Running
    requires s.procs[p].pc.SleepLock? && Holds(s, p, s.procs[p].pc.c)
    ensures var c := s.procs[p].pc.c;
            Acts(s, p, 4) == s.(procs := s.procs[p := Proc(Asleep(c), Sleeping, c)],
                                locks := s.locks[s.lk[c] := NOBODY])
  {
    hide Acts;
    var c := s.procs[p].pc.c;
    ActsFew(s, p);
    OneStep(s, p);
    var s1 := Do(s, Act(p));
    OneStep(s1, p);
    var s2 := Do(s1, Act(p));
    OneStep(s2, p);
    var s3 := Do(s2, Act(p));
    var s4 := Do(s3, Act(p));
    hide Do;
    assert s4.plock == s.plock && s4.procs == s.procs[p := Proc(Asleep(c), Sleeping, c)];
  }

  /** A sleeper that has been made runnable, once scheduled, returns from sleep with the lock. */
  lemma SleeperReturns(s: State, p: nat)
    requires Shaped(s) && p < |s.procs| && s.plock[p] == NOBODY && s.procs[p].state == Runnable
    requires s.procs[p].pc.Asleep? && InRange(s, s.procs[p].pc.c) && s.locks[s.lk[s.procs[p].pc.c]] == NOBODY
    ensures Acts(Do(s, Schedule(p)), p, 2)
         == s.(procs := s.procs[p := Proc(Normal, Running, NOCHAN)],
               locks := s.locks[s.lk[s.procs[p].pc.c] := p])
  {
    var s1 := Do(s, Schedule(p));
    var s2 := Do(s1, Act(p));
    var s3 := Do(s2, Act(p));
    assert s3.plock == s.plock;
    ActsFew(s1, p);
  }

  /** kill makes a sleeping process runnable, whatever it sleeps on. */
  lemma KillWakes(s: State, p: nat, q: nat)
    requires Shaped(s) && Free(s, p) && q < |s.procs| && q != p && s.plock[q] == NOBODY
    requires s.procs[q].state == Sleeping
    ensures Run(s, [LockProc(p, q), Mark(p, q, Runnable), UnlockProc(p, q)])
         == s.(procs := s.procs[q := s.procs[q].(state := Runnable)])
  {
    Marked(s, p, q, Runnable);
  }

  /** A process that gives up the CPU between calls goes on where it was when it is scheduled again. */
  lemma YieldReturns(s: State, p: nat)
    requires Shaped(s) && Free(s, p) && s.plock[p] == NOBODY && p !in s.locks && p !in s.plock
    ensures Do(s, Yield(p)) == s.(procs := s.procs[p := s.procs[p].(state := Runnable)])
    ensures Do(Do(s, Yield(p)), Schedule(p)) == s
  {
    var t := Do(Do(s, Yield(p)), Schedule(p));
    assert t.procs == s.procs;
  }

  // ---------------------------------------------------------------- the life of a process

  /** A holder of another process's lock marks it, one state after the other. */
  lemma Marked(s: State, p: nat, q: nat, state: RunState)
    requires Shaped(s) && Free(s, p) && q < |s.procs| && q != p && s.plock[q] == NOBODY
    requires Markable(s.procs[q].state, state)
    ensures Run(s, [LockProc(p, q), Mark(p, q, state), UnlockProc(p, q)])
         == s.(procs := s.procs[q := s.procs[q].(state := state)])
  {
    var es := [LockProc(p, q), Mark(p, q, state), UnlockProc(p, q)];
    var s1 := Do(s, es[0]);
    var s2 := Do(s1, es[1]);
    var s3 := Do(s2, es[2]);
    assert s3.plock == s.plock;
    assert es[1..] == [es[1], es[2]] && es[1..][1..] == [es[2]] && [es[2]][1..] == [];
    assert Run(s3, []) == s3 && Run(s2, [es[2]]) == s3 && Run(s1, es[1..]) == s3;
  }

  /** fork takes an unused process to USED and to RUNNABLE, and the scheduler runs it from there. */
  lemma ForkRuns(s: State, p: nat, q: nat)
    requires Shaped(s) && Free(s, p) && q < |s.procs| && q != p && s.plock[q] == NOBODY
    requires s.procs[q] == Proc(Normal, Unused, NOCHAN)
    ensures var create := [LockProc(p, q), Mark(p, q, Used), UnlockProc(p, q)];
            var start := [LockProc(p, q), Mark(p, q, Runnable), UnlockProc(p, q)];
            Do(Run(Run(s, create), start), Schedule(q)) == s.(procs := s.procs[q := Proc(Normal, Running, NOCHAN)])
  {
    hide Run;
    Marked(s, p, q, Used);
    Marked(s.(procs := s.procs[q := s.procs[q].(state := Used)]), p, q, Runnable);
  }

  /** exit leaves a zombie that holds no spinlock, and wait makes the process unused again. */
  lemma ExitReaped(s: State, p: nat, q: nat)
    requires Shaped(s) && Free(s, p) && Free(s, q) && q != p && s.plock[q] == NOBODY
    ensures var t := Do(s, Exit(q));
            && t.procs == s.procs[q := Proc(Normal, Zombie, NOCHAN)] && q !in t.locks
            && (forall l :: 0 <= l < |s.locks| && s.locks[l] != q ==> t.locks[l] == s.locks[l])
            && Run(t, [LockProc(p, q), Mark(p, q, Unused), UnlockProc(p, q)])
            == t.(procs := s.procs[q := Proc(Normal, Unused, NOCHAN)])
  {
    hide Run;
    Marked(Do(s, Exit(q)), p, q, Unused);
  }
}
