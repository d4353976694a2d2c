/** Log space reservation: `begin_op`, `log_write` and `end_op` from any number of processes, in any order. */
module LogSpace {
  import opened Params
  import opened Seqs

  /** The shared log record. `ops` holds, for every outstanding operation, the number of blocks it added. */
  datatype State = State(lh: seq<nat>, ops: seq<nat>, committing: bool)

  datatype Event =
    | Begin
    | Log(op: nat, block: nat)
    | End(op: nat)
    | CommitDone

  datatype Outcome = Next(s: State) | Blocked | Panic

  const INIT := State([], [], false)

  /** One critical section of the log's spinlock; `size` is the number of blocks of the log area. */
  function Step(size: int, s: State, e: Event): Outcome {
    match e
    case Begin =>
      if s.committing || |s.lh| + (|s.ops| + 1) * MAXOPBLOCKS > LOGSIZE then Blocked
      else Next(s.(ops := s.ops + [0]))
    case Log(op, b) =>
      if |s.lh| >= LOGSIZE || |s.lh| >= size - 1 then Panic
      else if |s.ops| < 1 then Panic
      else if b in s.lh then Next(s)
      else if op < |s.ops| then Next(s.(lh := s.lh + [b], ops := s.ops[op := s.ops[op] + 1]))
      else Blocked
    case End(op) =>
      if op >= |s.ops| then Blocked
      else if s.committing then Panic
      else
        var ops := Without(s.ops, op);
        Next(s.(ops := ops, committing := ops == []))
    case CommitDone =>
      if s.committing then Next(s.(lh := [], committing := false)) else Blocked
  }

  /** What callers promise: an operation adds at most MAXOPBLOCKS blocks, and acts only between begin and end. */
  predicate Allowed(s: State, e: Event) {
    match e
    case Log(op, b) => op < |s.ops| && (b in s.lh || s.ops[op] < MAXOPBLOCKS)
    case End(op) => op < |s.ops|
    case _ => true
  }

  function Unspent(ops: seq<nat>): int {
    if ops == [] then 0 else Unspent(ops[1..]) + (MAXOPBLOCKS - ops[0])
  }

  ghost predicate Inv(s: State) {
    && (forall i :: 0 <= i < |s.ops| ==> s.ops[i] <= MAXOPBLOCKS)
    && |s.lh| + Unspent(s.ops) <= LOGSIZE
    && (forall i, j :: 0 <= i < j < |s.lh| ==> s.lh[i] != s.lh[j])
    && (s.committing ==> s.ops == [])
    && (s.ops == [] && s.lh != [] ==> s.committing)
  }

  lemma {:induction false} UnspentAppend(a: seq<nat>, b: seq<nat>)
    ensures Unspent(a + b) == Unspent(a) + Unspent(b)
  {
    if a == [] {
      assert a + b == b;
    } else {
      UnspentAppend(a[1..], b);
      assert (a + b)[1..] == a[1..] + b;
    }
  }

  lemma UnspentOne(k: nat)
    ensures Unspent([k]) == MAXOPBLOCKS - k
  {
    assert [k][1..] == [];
  }

  lemma UnspentSplit(ops: seq<nat>, i: nat)
    requires i < |ops|
    ensures Unspent(ops) == Unspent(ops[..i]) + (MAXOPBLOCKS - ops[i]) + Unspent(ops[i + 1..])
    ensures Unspent(Without(ops, i)) == Unspent(ops) - (MAXOPBLOCKS - ops[i])
  {
    UnspentAppend(ops[..i], ops[i..]);
    assert ops == ops[..i] + ops[i..] && ops[i..][1..] == ops[i + 1..];
    assert Unspent(ops[i..]) == Unspent(ops[i + 1..]) + (MAXOPBLOCKS - ops[i]);
    hide Unspent;
    UnspentAppend(ops[..i], ops[i + 1..]);
  }

  lemma {:induction false} UnspentBounds(ops: seq<nat>)
    requires forall i :: 0 <= i < |ops| ==> ops[i] <= MAXOPBLOCKS
    ensures 0 <= Unspent(ops) <= |ops| * MAXOPBLOCKS
  {
    if ops != [] {
      UnspentBounds(ops[1..]);
    }
  }

  /** Every allowed step keeps the reservation, and none panics for lack of an outstanding operation. */
  lemma StepKeeps(size: int, s: State, e: Event)
    requires Inv(s) && Allowed(s, e)
    ensures Step(size, s, e).Next? ==> Inv(Step(size, s, e).s)
    ensures Step(size, s, e).Panic? ==> e.Log? && (|s.lh| >= LOGSIZE || |s.lh| >= size - 1)
  {
    match e
    case Begin =>
      UnspentAppend(s.ops, [0]);
      UnspentBounds(s.ops);
      assert (s.ops + [0])[|s.ops|] == 0;
    case Log(op, b) =>
      if Step(size, s, e).Next? {
        LogKeeps(size, s, op, b);
      }
    case End(op) => EndKeeps(size, s, op);
    case CommitDone =>
  }

  lemma LogKeeps(size: int, s: State, op: nat, b: nat)
    requires Inv(s) && Allowed(s, Log(op, b)) && Step(size, s, Log(op, b)).Next?
    ensures Inv(Step(size, s, Log(op, b)).s)
  {
    if b !in s.lh {
      var ops := s.ops[op := s.ops[op] + 1];
      UnspentSplit(s.ops, op);
      UnspentSplit(ops, op);
      assert ops[..op] == s.ops[..op] && ops[op + 1..] == s.ops[op + 1..];
    }
  }

  lemma EndKeeps(size: int, s: State, op: nat)
    requires Inv(s) && op < |s.ops|
    ensures Step(size, s, End(op)).Next? && Inv(Step(size, s, End(op)).s)
  {
    UnspentSplit(s.ops, op);
    var r := Without(s.ops, op);
    assert forall i :: 0 <= i < |r| ==> r[i] == if i < op then s.ops[i] else s.ops[i + 1];
  }

  /** A history of allowed events, none of which blocked or panicked. */
  ghost predicate Reaches(size: int, s: State, es: seq<Event>, t: State)
    decreases |es|
  {
    if es == [] then s == t
    else Allowed(s, es[0]) && Step(size, s, es[0]).Next? && Reaches(size, Step(size, s, es[0]).s, es[1..], t)
  }

  ghost predicate Reachable(size: int, s: State) {
    exists es :: Reaches(size, INIT, es, s)
  }

  lemma {:induction false} ReachesInv(size: int, s: State, es: seq<Event>, t: State)
    requires Inv(s) && Reaches(size, s, es, t)
    ensures Inv(t)
    decreases |es|
  {
    if es != [] {
      StepKeeps(size, s, es[0]);
      ReachesInv(size, Step(size, s, es[0]).s, es[1..], t);
    }
  }

  /** In every reachable state logged blocks plus unspent reservations fit the log, logged numbers
      are distinct, no operation is outstanding during a commit, and logged blocks that no operation is
      outstanding for are being committed. */
  lemma ReservationHolds(size: int, s: State)
    requires Reachable(size, s)
    ensures Inv(s)
  {
    var es :| Reaches(size, INIT, es, s);
    ReachesInv(size, INIT, es, s);
  }

  function Begins(k: nat): (es: seq<Event>)
    ensures |es| == k
  {
    if k == 0 then [] else [Begin] + Begins(k - 1)
  }

  function Begun(s: State, k: nat): State {
    s.(ops := s.ops + seq(k, _ => 0))
  }

  /** How many operations can begin one after the other: as many as still find MAXOPBLOCKS blocks each, beside
      the blocks logged and a full reservation for everyone outstanding; none while a commit is under way. */
  lemma {:induction false} AdmittedIff(size: int, s: State, k: nat)
    requires |s.lh| <= LOGSIZE
    ensures Reaches(size, s, Begins(k), Begun(s, k)) <==>
              k == 0 || (!s.committing && |s.ops| + k <= (LOGSIZE - |s.lh|) / MAXOPBLOCKS)
    decreases k
  {
    if k == 0 {
      assert Begun(s, 0).ops == s.ops;
    } else {
      assert Begins(k)[0] == Begin && Begins(k)[1..] == Begins(k - 1);
      if Step(size, s, Begin).Next? {
        var u := Step(size, s, Begin).s;
        AdmittedIff(size, u, k - 1);
        assert Begun(u, k - 1).ops == Begun(s, k).ops;
      }
    }
  }

  /** An operation with reservation left can log a block without a panic. */
  ghost predicate NoPanic(size: int) {
    forall s, op: nat, b: nat {:trigger Step(size, s, Log(op, b))} ::
      Reachable(size, s) && op < |s.ops| && s.ops[op] < MAXOPBLOCKS ==> Step(size, s, Log(op, b)).Next?
  }

  /** That promise holds exactly for log areas larger than LOGSIZE; mkfs makes them equal. */
  lemma NoPanicIff(size: int)
    ensures NoPanic(size) <==> size > LOGSIZE
  {
    if size > LOGSIZE {
      forall s, op: nat, b: nat | Reachable(size, s) && op < |s.ops| && s.ops[op] < MAXOPBLOCKS
        ensures Step(size, s, Log(op, b)).Next?
      {
        ReservationHolds(size, s);
        UnspentSplit(s.ops, op);
        UnspentBounds(s.ops[..op]);
        UnspentBounds(s.ops[op + 1..]);
      }
    } else {
      ReservedPanicExample(size);
    }
  }

  /** With a smaller log area, the operation whose turn it is when the area is full panics within its reservation. */
  lemma ReservedPanicExample(size: int)
    requires size <= LOGSIZE
    ensures var k := if size >= 1 then size - 1 else 0;
            && Reachable(size, Filled(k)) && k / 10 < |Filled(k).ops| && Filled(k).ops[k / 10] < MAXOPBLOCKS
            && Step(size, Filled(k), Log(k / 10, k)).Panic?
  {
    var k := if size >= 1 then size - 1 else 0;
    var es := Fill(size, k);
  }

  /** Three operations, the first `k` blocks logged by them in turn. */
  function Filled(k: nat): State
    requires k <= LOGSIZE
  {
    State(seq(k, i => i), [Clamp(k), Clamp(k - 10), Clamp(k - 20)], false)
  }

  function Clamp(x: int): nat {
    if x < 0 then 0 else if x > 10 then 10 else x
  }

  lemma {:induction false} Fill(size: int, k: nat) returns (es: seq<Event>)
    requires k < LOGSIZE && (k <= size - 1 || k == 0)
    ensures Reaches(size, INIT, es, Filled(k))
  {
    if k == 0 {
      es := [Begin, Begin, Begin];
      assert es[1..] == [Begin, Begin] && [Begin, Begin][1..] == [Begin];
      var s1, s2 := State([], [0], false), State([], [0, 0], false);
      assert Step(size, INIT, Begin) == Next(s1) && Step(size, s1, Begin) == Next(s2);
      assert Step(size, s2, Begin).s.ops == Filled(0).ops;
      assert Reaches(size, s2, [Begin], Filled(0));
      assert Reaches(size, s1, [Begin, Begin], Filled(0));
    } else {
      var e := Log((k - 1) / 10, k - 1);
      var before := Fill(size, k - 1);
      es := before + [e];
      var s := Filled(k - 1);
      assert s.lh + [k - 1] == Filled(k).lh;
      assert Step(size, s, e).s.ops == Filled(k).ops;
      ReachesAppend(size, INIT, before, s, e);
    }
  }

  lemma {:induction false} ReachesAppend(size: int, s: State, es: seq<Event>, t: State, e: Event)
    requires Reaches(size, s, es, t) && Allowed(t, e) && Step(size, t, e).Next?
    ensures Reaches(size, s, es + [e], Step(size, t, e).s)
    decreases |es|
  {
    if es == [] {
      assert ([] + [e])[1..] == [];
    } else {
      assert (es + [e])[1..] == es[1..] + [e];
      ReachesAppend(size, Step(size, s, es[0]).s, es[1..], t, e);
    }
  }

  /** The space test comes before absorption, so rewriting an already logged block panics in a full log
      although it would need no space. */
  lemma AbsorbedPanicIff(size: int, s: State, op: nat, b: nat)
    requires Reachable(size, s) && op < |s.ops| && b in s.lh
    ensures Step(size, s, Log(op, b)).Panic? <==> |s.lh| == LOGSIZE || |s.lh| >= size - 1
    ensures Step(size, s, Log(op, b)).Panic? || Step(size, s, Log(op, b)) == Next(s)
  {
    ReservationHolds(size, s);
    UnspentBounds(s.ops);
  }

  /** With a log area of any size above LOGSIZE, three operations can fill the log, and the first of them then
      panics on its own first block. */
  lemma AbsorbedPanicExample(size: int)
    requires size > LOGSIZE
    ensures Reachable(size, Filled(LOGSIZE)) && Allowed(Filled(LOGSIZE), Log(0, 0)) && 0 in Filled(LOGSIZE).lh
    ensures Step(size, Filled(LOGSIZE), Log(0, 0)).Panic?
  {
    var k := LOGSIZE - 1;
    var es := Fill(size, k);
    var e := Log(k / 10, k);
    assert Filled(k).lh + [k] == Filled(LOGSIZE).lh;
    assert Step(size, Filled(k), e).s.ops == Filled(LOGSIZE).ops;
    ReachesAppend(size, INIT, es, Filled(k), e);
    assert Reaches(size, INIT, es + [e], Filled(LOGSIZE));
    assert Filled(LOGSIZE).lh[0] == 0;
  }
}
