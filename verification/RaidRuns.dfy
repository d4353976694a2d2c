/** A whole run of the engine: system calls, restarts and failed disks losing their data, in any order.
    What the caller is promised is stated in terms of the calls made and the replies received. */
module RaidRuns {
  import opened Params
  import opened Blocks
  import opened RaidMeta
  import opened RaidDevice
  import P = ParityRaid
  import R = ParityRuns
  import M = MirrorRaid
  import Z = StripeRaid

  datatype Call =
    | Read(b: nat)
    | Write(b: nat, x: Block)
    | Fail(diskn: int)
    | Repair(diskn: int)
    | Restart
    | Lose(d: nat, blocks: seq<Block>)

  /** RAID 0+1 trusts its caller for the number of a repaired disk; RAID 0 stands up to no lost data. */
  predicate Permitted(kind: Kind, n: nat, c: Call) {
    && (kind.Raid01? && c.Repair? ==> 1 <= c.diskn <= n)
    && (c.Lose? ==> !kind.Raid0?)
  }

  // ---------------------------------------------------------------- the promise

  /** What a caller can work out from its calls and their replies: the blocks stored, the disks in use,
      and the disks that are out of use and no longer hold their data. */
  datatype Known = Known(m: map<nat, Block>, up: set<int>, lost: set<int>)

  /** A write that reports success is stored, but for two cases: RAID 4 drops it while the parity disk, the
      last one, is out of use; RAID 5 spoils the block if its own disk has lost its data and the parity disk
      of its stripe is in use. */
  function WriteAfter(kind: Kind, n: nat, k: Known, b: nat, x: Block): Known {
    if kind.Raid4? && n - 1 !in k.up then k
    else if kind.Raid5? && n >= 2 && P.DataDisk(P.Rotating, n, b) in k.lost then
      var p := P.ParityDisk(P.Rotating, n, P.Stripe(n, b));
      if p in k.up then k.(m := k.m - {b}) else k.(m := k.m[b := x], lost := k.lost + {p})
    else k.(m := k.m[b := x])
  }

  function After(kind: Kind, n: nat, k: Known, c: Call, r: Reply): Known {
    match c
    case Read(_) => k
    case Write(b, x) => if r.code == 0 then WriteAfter(kind, n, k, b, x) else k
    case Fail(diskn) => if r.code == 0 then k.(up := k.up - {diskn - 1}) else k
    case Repair(diskn) =>
      if r.code == 0 then k.(up := k.up + {diskn - 1}, lost := k.lost - {diskn - 1}) else k
    case Restart => k
    case Lose(d, _) => if d < n && d !in k.up then k.(lost := k.lost + {d}) else k
  }

  /** The block numbers a level takes on `n` disks of `nb` blocks. */
  predicate Accepted(kind: Kind, n: nat, nb: nat, b: nat) {
    match kind
    case NoRaid => false
    case Raid0 => b < nb * n && b != (nb - 1) * n
    case Raid1 => b < nb - 1
    case Raid01 => b < (nb - 1) * (n / 2)
    case Raid4 => b < (nb - 1) * (n - 1)
    case Raid5 => b < (nb - 1) * (n - 1)
  }

  predicate AllBut(n: nat, up: set<int>, skip: int) {
    forall d :: 0 <= d < n && d != skip ==> d in up
  }

  /** The disks that must be in use to read a block. */
  predicate Readable(kind: Kind, n: nat, up: set<int>, b: nat)
    requires n >= 2 || kind.Raid0?
  {
    match kind
    case NoRaid => false
    case Raid0 => AllBut(n, up, -1)
    case Raid1 => exists d :: 0 <= d < n && d in up
    case Raid01 => var d := b % (n / 2) * 2; d in up || d + 1 in up
    case Raid4 => var d := P.DataDisk(P.Dedicated, n, b); d in up || AllBut(n, up, d)
    case Raid5 => var d := P.DataDisk(P.Rotating, n, b); d in up || AllBut(n, up, d)
  }

  /** A RAID 4 write needs the block's own disk, a RAID 5 write none; the mirrors need a copy to write to. */
  predicate Writable(kind: Kind, n: nat, up: set<int>, b: nat)
    requires n >= 2 || kind.Raid0?
  {
    match kind
    case Raid4 => P.DataDisk(P.Dedicated, n, b) in up
    case Raid5 => true
    case _ => Readable(kind, n, up, b)
  }

  /** The mirrors refuse to take a disk out of use twice. */
  predicate Failable(kind: Kind, n: nat, up: set<int>, d: int) {
    0 <= d < n && (kind.Raid1? || kind.Raid01? ==> d in up)
  }

  /** RAID 0 has no repair; RAID 1 refuses to repair a disk in use; RAID 5 has nothing to do for one. */
  predicate Repairable(kind: Kind, n: nat, up: set<int>, d: int) {
    match kind
    case NoRaid => false
    case Raid0 => false
    case Raid1 => 0 <= d < n && d !in up && exists e :: 0 <= e < n && e in up
    case Raid01 => 0 <= d < n && (if d % 2 == 0 then d + 1 else d - 1) in up
    case Raid4 => 0 <= d < n && AllBut(n, up, d)
    case Raid5 => 0 <= d < n && (d in up || AllBut(n, up, d))
  }

  /** Which calls report success. Left open are a RAID 0 array that is down already, where a failure is taken
      note of until the level is lost, and a RAID 4 data disk, which a cold cache may refuse to repair. */
  predicate Told(kind: Kind, n: nat, nb: nat, up: set<int>, c: Call, code: int)
    requires n >= 2 || kind.Raid0?
  {
    match c
    case Read(b) => code == 0 <==> Accepted(kind, n, nb, b) && Readable(kind, n, up, b)
    case Write(b, _) => code == 0 <==> Accepted(kind, n, nb, b) && Writable(kind, n, up, b)
    case Fail(diskn) =>
      && (code == 0 ==> Failable(kind, n, up, diskn - 1))
      && (Failable(kind, n, up, diskn - 1) && (kind.Raid0? ==> AllBut(n, up, -1)) ==> code == 0)
    case Repair(diskn) =>
      && (code == 0 ==> Repairable(kind, n, up, diskn - 1))
      && (Repairable(kind, n, up, diskn - 1) && (kind.Raid4? ==> diskn == n) ==> code == 0)
    case _ => true
  }

  /** Every call reports success exactly when it should, and every read that does returns the last block
      stored at its number. Only a RAID 0 array that is down may stop answering. */
  ghost predicate KeepsPromise(kind: Kind, n: nat, nb: nat, k: Known, calls: seq<Call>, replies: seq<Reply>)
    requires n >= 2 || kind.Raid0?
    decreases |replies|
  {
    |replies| <= |calls| &&
    if replies == [] then calls == [] || (kind.Raid0? && !AllBut(n, k.up, -1))
    else
      var c, r := calls[0], replies[0];
      && Told(kind, n, nb, k.up, c, r.code)
      && (c.Read? && r.code == 0 && c.b in k.m ==> r.data == k.m[c.b])
      && KeepsPromise(kind, n, nb, After(kind, n, k, c, r), calls[1..], replies[1..])
  }

  // ---------------------------------------------------------------- what the disks hold

  ghost predicate Balanced(s: Disks, ideal: Disks, a: seq<Block>, m: map<nat, Block>) {
    P.Inv(P.Dedicated, s, ideal, a) && R.Agrees(a, m)
  }

  ghost predicate Traced(s: Disks, ideal: Disks, a: seq<Block>, k: Known) {
    R.Current(s, ideal, a, k.lost) && R.Agrees(a, k.m)
  }

  /** The disks in use are those whose flag says so. */
  ghost predicate InUse(s: Disks, up: set<int>) {
    forall d :: 0 <= d < |s| ==> |s[d]| > 0 && (d in up <==> Up(s, d))
  }

  /** The disks hold the blocks known to be stored, in the way their level stores them. */
  ghost predicate Holds(kind: Kind, s: Disks, k: Known) {
    match kind
    case NoRaid => true
    case Raid0 => Z.Inv(s, k.m) && (Decode(s[0][0]).working != 0 <==> AllBut(|s|, k.up, -1))
    case Raid1 => InUse(s, k.up) && M.Inv(M.Full, s, k.m)
    case Raid01 => InUse(s, k.up) && M.Inv(M.Pairs, s, k.m)
    case Raid4 => InUse(s, k.up) && exists ideal, a :: Balanced(s, ideal, a, k.m)
    case Raid5 => InUse(s, k.up) && exists ideal, a :: Traced(s, ideal, a, k)
  }

  lemma HoldsUsable(kind: Kind, s: Disks, k: Known)
    requires Holds(kind, s, k)
    ensures Usable(kind, s) && (|s| >= 2 || kind.NoRaid? || kind.Raid0?)
  {
  }

  lemma Step4(s: Disks, m: map<nat, Block>, e: P.Event, ideal: Disks, a: seq<Block>)
    returns (ideal': Disks, a': seq<Block>)
    requires Balanced(s, ideal, a, m)
    ensures P.Ready(P.Dedicated, s)
    ensures var (t, r) := P.Step(P.Dedicated, s, e);
            && Balanced(t, ideal', a', if e.Write? && r.code == 0 && Up(s, |s| - 1) then m[e.b := e.x] else m)
            && (e.Read? && r.code == 0 && e.b in m ==> r.data == m[e.b])
  {
    ideal' := R.Raid4Step(s, ideal, a, e);
    a' := R.Effect(P.Dedicated, s, a, e);
    if e.Write? {
      P.AcceptedIff(|s|, |s[0]|, e.b);
    }
  }

  lemma MirrorHolds(l: M.Level, s: Disks, k: Known, e: M.Event, c: Call)
    requires InUse(s, k.up) && M.Inv(l, s, k.m) && M.Ready(l, s) && M.Callable(l, |s|, e)
    requires match e
             case Read(b) => c == Read(b)
             case Write(b, x) => c == Write(b, x)
             case Fail(diskn, _) => c == Fail(diskn)
             case Repair(diskn, _) => c == Repair(diskn)
             case Damage(d, blocks) => c == Lose(d, blocks)
    ensures var (t, r) := M.Step(l, s, e);
            var k' := After(M.KindOf(l), |s|, k, c, r);
            InUse(t, k'.up) && M.Inv(l, t, k'.m)
  {
    hide Decode, M.Inv, SetFlag, M.WriteCopies, M.CopyRows;
    M.StepKeeps(l, s, k.m, e);
    match e
    case Read(_) =>
    case Write(_, _) => M.DataResult(l, s, e);
    case Damage(_, _) => M.DataResult(l, s, e);
    case Fail(diskn, junk) => M.FailResult(l, s, diskn, junk); M.FailedIff(l, s, diskn, junk);
    case Repair(diskn, junk) =>
      if M.RepairStep(l, s, diskn, junk).1.code == 0 {
        M.RepairResult(l, s, diskn, junk);
      }
  }

  lemma ReadHolds(kind: Kind, s: Disks, k: Known, b: nat)
    requires Holds(kind, s, k) && Usable(kind, s)
    ensures ReadOf(kind, s, b).code == 0 && b in k.m ==> ReadOf(kind, s, b).data == k.m[b]
  {
    hide Balanced, R.Current;
    match kind
    case NoRaid =>
    case Raid0 =>
    case Raid1 => M.StepKeeps(M.Full, s, k.m, M.Read(b));
    case Raid01 => M.StepKeeps(M.Pairs, s, k.m, M.Read(b));
    case Raid4 =>
      var ideal, a :| Balanced(s, ideal, a, k.m);
      var _, _ := Step4(s, k.m, P.Read(b), ideal, a);
    case Raid5 =>
      var ideal, a :| Traced(s, ideal, a, k);
      var _, _ := R.CurrentStep(s, ideal, a, k.lost, k.m, P.Read(b));
  }

  lemma Write4Holds(s: Disks, k: Known, b: nat, x: Block)
    requires Holds(Raid4, s, k) && P.Ready(P.Dedicated, s)
    ensures var (t, r) := P.WriteStep(P.Dedicated, s, b, x);
            Holds(Raid4, t, After(Raid4, |s|, k, Write(b, x), r))
  {
    hide Balanced, Decode;
    P.DataResult(P.Dedicated, s, P.Write(b, x));
    var ideal, a :| Balanced(s, ideal, a, k.m);
    var ideal', a' := Step4(s, k.m, P.Write(b, x), ideal, a);
  }

  lemma Write5Holds(s: Disks, k: Known, b: nat, x: Block)
    requires Holds(Raid5, s, k) && P.Ready(P.Rotating, s)
    ensures var (t, r) := P.WriteStep(P.Rotating, s, b, x);
            Holds(Raid5, t, After(Raid5, |s|, k, Write(b, x), r))
  {
    hide R.Current, Decode, R.Agrees;
    P.DataResult(P.Rotating, s, P.Write(b, x));
    var ideal, a :| Traced(s, ideal, a, k);
    var ideal', a' := R.CurrentStep(s, ideal, a, k.lost, k.m, P.Write(b, x));
    var (t, r) := P.WriteStep(P.Rotating, s, b, x);
    assert Traced(t, ideal', a', After(Raid5, |s|, k, Write(b, x), r));
  }

  lemma WriteHolds(kind: Kind, s: Disks, k: Known, b: nat, x: Block)
    requires Holds(kind, s, k) && Usable(kind, s)
    ensures var (t, r) := WriteOf(kind, s, b, x);
            Holds(kind, t, After(kind, |s|, k, Write(b, x), r))
  {
    hide Decode, Balanced, Traced, InUse;
    match kind
    case NoRaid =>
    case Raid0 =>
      Z.StepKeeps(s, k.m, Z.Write(b, x));
      Z.StepSized(s, Z.Write(b, x));
    case Raid1 => MirrorHolds(M.Full, s, k, M.Write(b, x), Write(b, x));
    case Raid01 => MirrorHolds(M.Pairs, s, k, M.Write(b, x), Write(b, x));
    case Raid4 => Write4Holds(s, k, b, x);
    case Raid5 => Write5Holds(s, k, b, x);
  }

  lemma FailHolds(kind: Kind, s: Disks, k: Known, diskn: int, cached: Kind, junk: Block)
    requires Holds(kind, s, k) && Usable(kind, s)
    ensures var (t, r) := FailOf(kind, s, diskn, cached, junk);
            Holds(kind, t, After(kind, |s|, k, Fail(diskn), r))
  {
    hide Decode, Balanced, R.Current;
    match kind
    case NoRaid =>
    case Raid0 =>
      Z.StepKeeps(s, k.m, Z.Fail(diskn, cached, junk));
      Z.FailedIff(s, diskn, cached, junk);
    case Raid1 => MirrorHolds(M.Full, s, k, M.Fail(diskn, junk), Fail(diskn));
    case Raid01 => MirrorHolds(M.Pairs, s, k, M.Fail(diskn, junk), Fail(diskn));
    case Raid4 =>
      var ideal, a :| Balanced(s, ideal, a, k.m);
      var ideal', a' := Step4(s, k.m, P.Fail(diskn, junk), ideal, a);
      P.FailResult(P.Dedicated, s, diskn, junk);
    case Raid5 =>
      var ideal, a :| Traced(s, ideal, a, k);
      R.CurrentFail(s, ideal, a, k.lost, diskn, junk);
      P.FailResult(P.Rotating, s, diskn, junk);
      var (t, r) := P.FailStep(P.Rotating, s, diskn, junk);
      assert Traced(t, ideal, a, After(Raid5, |s|, k, Fail(diskn), r));
  }

  lemma Repair4Holds(s: Disks, k: Known, diskn: int, entry: RaidData, junk: Block)
    requires Holds(Raid4, s, k) && P.Ready(P.Dedicated, s)
    ensures var (t, r) := Repair4(s, diskn, entry, junk);
            Holds(Raid4, t, After(Raid4, |s|, k, Repair(diskn), r))
  {
    hide Decode, Balanced;
    if Repair4(s, diskn, entry, junk).1.code == 0 {
      var ideal, a :| Balanced(s, ideal, a, k.m);
      var ideal', a' := Step4(s, k.m, P.Repair(diskn, junk), ideal, a);
      P.RepairResult(P.Dedicated, s, diskn, junk);
    }
  }

  lemma Repair5Holds(s: Disks, k: Known, diskn: int, junk: Block)
    requires Holds(Raid5, s, k) && P.Ready(P.Rotating, s)
    ensures var (t, r) := P.RepairStep(P.Rotating, s, diskn, junk);
            Holds(Raid5, t, After(Raid5, |s|, k, Repair(diskn), r))
  {
    hide Decode, R.Current;
    var (t, r) := P.RepairStep(P.Rotating, s, diskn, junk);
    var ideal, a :| Traced(s, ideal, a, k);
    R.CurrentRepair(s, ideal, a, k.lost, diskn, junk);
    if 1 <= diskn <= |s| {
      P.RepairResult(P.Rotating, s, diskn, junk);
    }
    assert Traced(t, ideal, a, After(Raid5, |s|, k, Repair(diskn), r));
  }

  lemma RepairHolds(kind: Kind, s: Disks, k: Known, diskn: int, entry: RaidData, junk: Block)
    requires Holds(kind, s, k) && Usable(kind, s) && (kind.Raid01? ==> 1 <= diskn <= |s|)
    ensures var (t, r) := RepairOf(kind, s, diskn, entry, junk);
            Holds(kind, t, After(kind, |s|, k, Repair(diskn), r))
  {
    match kind
    case NoRaid =>
    case Raid0 =>
    case Raid1 => MirrorHolds(M.Full, s, k, M.Repair(diskn, junk), Repair(diskn));
    case Raid01 => MirrorHolds(M.Pairs, s, k, M.Repair(diskn, junk), Repair(diskn));
    case Raid4 => Repair4Holds(s, k, diskn, entry, junk);
    case Raid5 => Repair5Holds(s, k, diskn, junk);
  }

  lemma LoseHolds(kind: Kind, s: Disks, k: Known, d: nat, blocks: seq<Block>, t: Disks)
    requires Holds(kind, s, k) && Usable(kind, s) && !kind.NoRaid? && !kind.Raid0?
    requires t == if d < |s| && !Up(s, d) && |blocks| == |s[0]| - 1 then s[d := [s[d][0]] + blocks] else s
    ensures Holds(kind, t, After(kind, |s|, k, Lose(d, blocks), Reply(0, [])))
  {
    hide Decode, Balanced, R.Current;
    match kind
    case Raid1 => MirrorHolds(M.Full, s, k, M.Damage(d, blocks), Lose(d, blocks));
    case Raid01 => MirrorHolds(M.Pairs, s, k, M.Damage(d, blocks), Lose(d, blocks));
    case Raid4 =>
      var ideal, a :| Balanced(s, ideal, a, k.m);
      var ideal', a' := Step4(s, k.m, P.Damage(d, blocks), ideal, a);
      P.DataResult(P.Dedicated, s, P.Damage(d, blocks));
    case Raid5 =>
      var ideal, a :| Traced(s, ideal, a, k);
      R.CurrentDamage(s, ideal, a, k.lost, d, blocks);
      P.DataResult(P.Rotating, s, P.Damage(d, blocks));
      assert Traced(t, ideal, a, After(Raid5, |s|, k, Lose(d, blocks), Reply(0, [])));
  }

  // ---------------------------------------------------------------- who is told what

  lemma UpMeans(s: Disks, up: set<int>, skip: int)
    requires InUse(s, up)
    ensures P.OthersUp(s, skip) <==> AllBut(|s|, up, skip)
  {
    hide Decode;
  }

  lemma MirrorReadTold(l: M.Level, s: Disks, k: Known, b: nat)
    requires InUse(s, k.up) && M.Ready(l, s)
    ensures M.ReadReply(l, s, b).code == 0 <==>
              Accepted(M.KindOf(l), |s|, |s[0]|, b) && Readable(M.KindOf(l), |s|, k.up, b)
  {
    hide Decode, M.ReadReply, Formatted;
    M.ReadableIff(l, s, b, s[0][0]);
    if l.Pairs? {
      M.PairMembers(|s|, b);
      var d := b % (|s| / 2) * 2;
      assert M.Replica(l, |s|, b, d) && M.Replica(l, |s|, b, d + 1);
    }
  }

  lemma ParityReadTold(l: P.Level, s: Disks, k: Known, b: nat)
    requires InUse(s, k.up) && P.Ready(l, s)
    ensures P.ReadReply(l, s, b).code == 0 <==>
              Accepted(P.KindOf(l), |s|, |s[0]|, b) && Readable(P.KindOf(l), |s|, k.up, b)
  {
    hide Decode, P.ReadReply, Formatted, P.DataDisk;
    R.ReadableIff(l, s, b);
    UpMeans(s, k.up, P.DataDisk(l, |s|, b));
  }

  lemma ReadTold(kind: Kind, s: Disks, k: Known, b: nat)
    requires Holds(kind, s, k) && Usable(kind, s) && !kind.NoRaid?
    ensures Told(kind, |s|, |s[0]|, k.up, Read(b), ReadOf(kind, s, b).code)
  {
    hide Decode, Balanced, Traced, M.Inv, Z.Inv, M.ReadReply, P.ReadReply;
    match kind
    case Raid0 => Z.AcceptedIff(|s|, |s[0]|, b);
    case Raid1 => MirrorReadTold(M.Full, s, k, b);
    case Raid01 => MirrorReadTold(M.Pairs, s, k, b);
    case Raid4 => ParityReadTold(P.Dedicated, s, k, b);
    case Raid5 => ParityReadTold(P.Rotating, s, k, b);
  }

  lemma WriteTold(kind: Kind, s: Disks, k: Known, b: nat, x: Block)
    requires Holds(kind, s, k) && Usable(kind, s) && !kind.NoRaid?
    ensures Told(kind, |s|, |s[0]|, k.up, Write(b, x), WriteOf(kind, s, b, x).1.code)
  {
    hide Decode, Balanced, Traced, M.Inv, Z.Inv;
    match kind
    case Raid0 => Z.WritableIff(s, b, x, b);
    case Raid1 => ReadTold(kind, s, k, b); M.ReadableIff(M.Full, s, b, x);
    case Raid01 => ReadTold(kind, s, k, b); M.ReadableIff(M.Pairs, s, b, x);
    case Raid4 => R.WritableIff(P.Dedicated, s, b, x, 1, x);
    case Raid5 => R.WritableIff(P.Rotating, s, b, x, 1, x);
  }

  lemma FailTold(kind: Kind, s: Disks, k: Known, diskn: int, cached: Kind, junk: Block)
    requires Holds(kind, s, k) && Usable(kind, s) && !kind.NoRaid?
    ensures Told(kind, |s|, |s[0]|, k.up, Fail(diskn), FailOf(kind, s, diskn, cached, junk).1.code)
  {
    hide Decode, Balanced, Traced, M.Inv, Z.Inv;
    match kind
    case Raid0 => Z.FailedIff(s, diskn, cached, junk);
    case Raid1 => M.FailedIff(M.Full, s, diskn, junk);
    case Raid01 => M.FailedIff(M.Pairs, s, diskn, junk);
    case Raid4 => R.WritableIff(P.Dedicated, s, 0, junk, diskn, junk);
    case Raid5 => R.WritableIff(P.Rotating, s, 0, junk, diskn, junk);
  }

  lemma FullRepairTold(s: Disks, k: Known, diskn: int, junk: Block)
    requires InUse(s, k.up) && M.Ready(M.Full, s)
    ensures M.RepairStep(M.Full, s, diskn, junk).1.code == 0 <==> Repairable(Raid1, |s|, k.up, diskn - 1)
  {
    hide Decode, M.RepairStep, Formatted;
    if 1 <= diskn <= |s| {
      M.RepairedIff(M.Full, s, 0, diskn, junk);
    } else {
      M.RepairedNot(M.Full, s, diskn, junk);
    }
  }

  lemma PairRepairTold(s: Disks, k: Known, diskn: int, junk: Block)
    requires InUse(s, k.up) && M.Ready(M.Pairs, s) && 1 <= diskn <= |s|
    ensures M.RepairStep(M.Pairs, s, diskn, junk).1.code == 0 <==> Repairable(Raid01, |s|, k.up, diskn - 1)
  {
    hide Decode, M.RepairStep, Formatted;
    var b := (diskn - 1) / 2;
    M.RepairedIff(M.Pairs, s, b, diskn, junk);
    M.PairMembers(|s|, b);
    hide M.Group;
    var partner := if (diskn - 1) % 2 == 0 then diskn else diskn - 2;
    assert forall e: nat :: M.Replica(M.Pairs, |s|, b, e) && e != diskn - 1 ==> e == partner;
    assert M.Replica(M.Pairs, |s|, b, partner);
  }

  lemma RepairTold(kind: Kind, s: Disks, k: Known, diskn: int, entry: RaidData, junk: Block)
    requires Holds(kind, s, k) && Usable(kind, s) && !kind.NoRaid? && (kind.Raid01? ==> 1 <= diskn <= |s|)
    ensures Told(kind, |s|, |s[0]|, k.up, Repair(diskn), RepairOf(kind, s, diskn, entry, junk).1.code)
  {
    hide Decode, Balanced, Traced, M.Inv, Z.Inv, M.RepairStep, P.RepairStep;
    match kind
    case Raid0 =>
    case Raid1 => FullRepairTold(s, k, diskn, junk);
    case Raid01 => PairRepairTold(s, k, diskn, junk);
    case Raid4 =>
      UpMeans(s, k.up, diskn - 1);
      R.RepairedIff(P.Dedicated, s, diskn, junk);
    case Raid5 =>
      UpMeans(s, k.up, diskn - 1);
      R.RepairedIff(P.Rotating, s, diskn, junk);
  }

  // ---------------------------------------------------------------- initialisation

  function AllDisks(n: nat): (r: set<int>)
    ensures forall d :: d in r <==> 0 <= d < n
  {
    if n == 0 then {} else AllDisks(n - 1) + {n - 1}
  }

  /** All disks in use, nothing stored yet. */
  function Fresh(n: nat): Known {
    Known(map[], AllDisks(n), {})
  }

  /** A fresh array holds nothing yet; parity needs disks whose rows sum to zero, such as all-zero images. */
  lemma InitHolds(kind: Kind, s: Disks, t: Disks)
    requires Usable(kind, t) && |s| >= 1 && |s[0]| >= 2 && Shaped(s, |s|, |s[0]|)
    requires kind.Raid4? || kind.Raid5? ==> P.ZeroRows(s, |s|, |s[0]|)
    requires !kind.NoRaid? && !kind.Raid0? ==> Initialised(s, t, kind)
    requires kind.Raid0? ==> Decode(t[0][0]).working == 1
    ensures Holds(kind, t, Fresh(|t|))
  {
    match kind
    case NoRaid =>
    case Raid0 =>
    case Raid1 => M.InitInv(M.Full, s, t);
    case Raid01 => M.InitInv(M.Pairs, s, t);
    case Raid4 =>
      var a := R.InitIntact(P.Dedicated, s, t);
      assert Balanced(t, t, a, map[]);
    case Raid5 =>
      var a := R.InitIntact(P.Rotating, s, t);
      assert Traced(t, t, a, Fresh(|t|));
  }

  // ---------------------------------------------------------------- the engine at work

  /** On RAID 0 a failure on a cold cache takes the level off the disks, and from the next restart on
      the engine finds none: it then hangs on the lock its first call leaves behind. */
  ghost predicate Serving(dev: Device, kind: Kind, k: Known)
    reads dev
  {
    && dev.Valid() && !kind.NoRaid? && dev.Ready(dev.Level()) && (dev.locked ==> dev.Level().NoRaid?)
    && Holds(kind, dev.disks, k)
    && (if kind.Raid0?
        then
          && Marked(dev.Level()) && Marked(dev.cache[0].kind) && Marked(Decode(dev.disks[0][0]).kind)
          && (dev.Level().NoRaid? || Decode(dev.disks[0][0]).kind.NoRaid? ==> Decode(dev.disks[0][0]).working == 0)
        else dev.Level() == kind)
  }

  predicate Marked(kind: Kind) {
    kind.Raid0? || kind.NoRaid?
  }

  predicate Answered(dev: Device, c: Call)
    reads dev
  {
    dev.locked ==> c.Restart? || c.Lose?
  }

  /** One call. */
  method Do(dev: Device, ghost kind: Kind, c: Call, ghost k: Known) returns (r: Reply)
    requires Serving(dev, kind, k) && Permitted(kind, dev.N, c) && Answered(dev, c)
    modifies dev
    ensures Serving(dev, kind, After(kind, dev.N, k, c, r))
    ensures dev.N >= 2 || kind.Raid0?
    ensures Told(kind, dev.N, dev.NB, k.up, c, r.code)
    ensures c.Read? && r.code == 0 && c.b in k.m ==> r.data == k.m[c.b]
  {
    hide Holds, Accepted, Readable, Writable, Failable, Repairable;
    HoldsUsable(kind, dev.disks, k);
    match c {
      case Read(b) => r := DoRead(dev, kind, b, k);
      case Write(b, x) => r := DoWrite(dev, kind, b, x, k);
      case Fail(diskn) => r := DoFail(dev, kind, diskn, k);
      case Repair(diskn) => r := DoRepair(dev, kind, diskn, k);
      case Restart => DoRestart(dev, kind, k); r := Reply(0, []);
      case Lose(d, blocks) => DoLose(dev, kind, d, blocks, k); r := Reply(0, []);
    }
  }

  method DoRead(dev: Device, ghost kind: Kind, b: nat, ghost k: Known) returns (r: Reply)
    requires Serving(dev, kind, k) && !dev.locked
    modifies dev
    ensures Serving(dev, kind, k)
    ensures dev.N >= 2 || kind.Raid0?
    ensures Told(kind, dev.N, dev.NB, k.up, Read(b), r.code)
    ensures r.code == 0 && b in k.m ==> r.data == k.m[b]
  {
    hide Decode, Z.Inv, M.Inv, Balanced, Traced, Told, InUse, AllBut, Z.ReadReply, M.ReadReply, P.ReadReply;
    var data := new bv8[BSIZE];
    ghost var s, level := dev.disks, dev.Level();
    HoldsUsable(kind, s, k);
    ReadHolds(level, s, k, b);
    var ret := dev.ReadRaid(b, data);
    r := Reply(ret, data[..]);
    if level == kind { ReadTold(kind, s, k, b); }
    NoneTold(kind, level, s, k, Read(b), ret);
  }

  /** While a RAID 0 array has no level in force, calls change nothing that counts. */
  lemma NoneHolds(kind: Kind, level: Kind, s: Disks, t: Disks, n: nat, k: Known, c: Call, r: Reply)
    requires level == kind || (kind.Raid0? && level.NoRaid?)
    requires level == kind ==> Holds(kind, t, After(kind, n, k, c, r))
    requires level != kind ==> Holds(kind, s, k) && t == s && r.code != 0 && !c.Lose?
    ensures Holds(kind, t, After(kind, n, k, c, r))
  {
  }

  lemma NoneTold(kind: Kind, level: Kind, s: Disks, k: Known, c: Call, code: int)
    requires level == kind || (kind.Raid0? && level.NoRaid?)
    requires Holds(kind, s, k) && !kind.NoRaid? && Usable(kind, s) && (|s| >= 2 || kind.Raid0?)
    requires level == kind ==> Told(kind, |s|, |s[0]|, k.up, c, code)
    requires level != kind ==> code != 0 && Decode(s[0][0]).working == 0
    ensures Told(kind, |s|, |s[0]|, k.up, c, code)
  {
  }

  method DoWrite(dev: Device, ghost kind: Kind, b: nat, x: Block, ghost k: Known) returns (r: Reply)
    requires Serving(dev, kind, k) && !dev.locked
    modifies dev
    ensures Serving(dev, kind, After(kind, dev.N, k, Write(b, x), r))
    ensures dev.N >= 2 || kind.Raid0?
    ensures Told(kind, dev.N, dev.NB, k.up, Write(b, x), r.code)
  {
    hide Decode, Z.WriteStep, M.WriteStep, P.WriteStep, Z.Inv, M.Inv, Balanced, Traced, After, InUse, AllBut, Told;
    var data := new bv8[BSIZE](i requires 0 <= i < BSIZE => x[i]);
    assert data[..] == x;
    ghost var s, level := dev.disks, dev.Level();
    WriteHolds(level, s, k, b, x);
    var ret := dev.WriteRaid(b, data);
    r := Reply(ret, []);
    NoneHolds(kind, level, s, dev.disks, dev.N, k, Write(b, x), r);
    if level == kind { WriteTold(kind, s, k, b, x); }
    NoneTold(kind, level, s, k, Write(b, x), ret);
  }

  method DoFail(dev: Device, ghost kind: Kind, diskn: int, ghost k: Known) returns (r: Reply)
    requires Serving(dev, kind, k) && !dev.locked
    modifies dev
    ensures Serving(dev, kind, After(kind, dev.N, k, Fail(diskn), r))
    ensures dev.N >= 2 || kind.Raid0?
    ensures Told(kind, dev.N, dev.NB, k.up, Fail(diskn), r.code)
  {
    hide Decode, M.FailStep, P.FailStep, Z.Inv, M.Inv, Balanced, Traced, After, InUse, AllBut, Told;
    ghost var s, cached, level := dev.disks, dev.cache[0].kind, dev.Level();
    var ret := dev.DiskFailRaid(diskn);
    FailHolds(level, s, k, diskn, cached, dev.Header(if level.Raid0? then 1 else diskn));
    r := Reply(ret, []);
    NoneHolds(kind, level, s, dev.disks, dev.N, k, Fail(diskn), r);
    if level == kind { FailTold(kind, s, k, diskn, cached, dev.Header(if level.Raid0? then 1 else diskn)); }
    NoneTold(kind, level, s, k, Fail(diskn), ret);
  }

  method DoRepair(dev: Device, ghost kind: Kind, diskn: int, ghost k: Known) returns (r: Reply)
    requires Serving(dev, kind, k) && !dev.locked && Permitted(kind, dev.N, Repair(diskn))
    modifies dev
    ensures Serving(dev, kind, After(kind, dev.N, k, Repair(diskn), r))
    ensures dev.N >= 2 || kind.Raid0?
    ensures Told(kind, dev.N, dev.NB, k.up, Repair(diskn), r.code)
  {
    hide Decode, M.RepairStep, P.RepairStep, Repair4, Z.Inv, M.Inv, Balanced, Traced, After, InUse, AllBut, Told;
    ghost var s, entry, level := dev.disks, dev.cache[dev.N - 1], dev.Level();
    var ret := dev.DiskRepairedRaid(diskn);
    RepairHolds(level, s, k, diskn, entry, dev.Header(diskn));
    r := Reply(ret, []);
    NoneHolds(kind, level, s, dev.disks, dev.N, k, Repair(diskn), r);
    if level == kind { RepairTold(kind, s, k, diskn, entry, dev.Header(diskn)); }
    NoneTold(kind, level, s, k, Repair(diskn), ret);
  }

  method DoRestart(dev: Device, ghost kind: Kind, ghost k: Known)
    requires Serving(dev, kind, k)
    modifies dev
    ensures Serving(dev, kind, k) && !dev.locked
  {
    HoldsUsable(kind, dev.disks, k);
    dev.Reboot();
  }

  method DoLose(dev: Device, ghost kind: Kind, d: nat, blocks: seq<Block>, ghost k: Known)
    requires Serving(dev, kind, k) && Permitted(kind, dev.N, Lose(d, blocks))
    modifies dev
    ensures Serving(dev, kind, After(kind, dev.N, k, Lose(d, blocks), Reply(0, [])))
  {
    ghost var s := dev.disks;
    dev.LoseDisk(d, blocks);
    LoseHolds(kind, s, k, d, blocks, dev.disks);
    HoldsUsable(kind, dev.disks, After(kind, dev.N, k, Lose(d, blocks), Reply(0, [])));
  }

  lemma DownWhole(s: Disks, k: Known)
    requires Holds(Raid0, s, k) && Z.Sized(s) && Decode(s[0][0]).working == 0
    ensures !AllBut(|s|, k.up, -1)
  {
  }

  /** Whatever the caller does, and however often the machine is restarted, no successful read is stale.
      Only a RAID 0 array whose level was lost can stop answering. */
  method Run(dev: Device, ghost kind: Kind, calls: seq<Call>, ghost k: Known) returns (replies: seq<Reply>)
    requires Serving(dev, kind, k)
    requires forall i :: 0 <= i < |calls| ==> Permitted(kind, dev.N, calls[i])
    modifies dev
    ensures dev.N >= 2 || kind.Raid0?
    ensures KeepsPromise(kind, dev.N, dev.NB, k, calls, replies)
    ensures |replies| == |calls| || (kind.Raid0? && dev.locked)
    decreases |calls|
  {
    hide Holds, After, Told;
    HoldsUsable(kind, dev.disks, k);
    if calls == [] || (dev.locked && !calls[0].Restart? && !calls[0].Lose?) {
      if dev.locked { DownWhole(dev.disks, k); }
      return [];
    }
    var r := Do(dev, kind, calls[0], k);
    var rest := Run(dev, kind, calls[1..], After(kind, dev.N, k, calls[0], r));
    replies := [r] + rest;
    assert replies[1..] == rest;
  }

  /** The same from the start: initialise an array on some images, then anything. The levels with parity are
      given images whose rows sum to zero, and RAID 5 more than the one disk it would also take. */
  method RunFromInit(images: Disks, n: nat, nb: nat, kind: Kind, calls: seq<Call>)
    returns (ret: int, replies: seq<Reply>)
    requires n >= 1 && nb >= 2 && Shaped(images, n, nb)
    requires kind.Raid4? || kind.Raid5? ==> P.ZeroRows(images, n, nb)
    requires kind.Raid5? ==> n >= 2
    requires forall i :: 0 <= i < |calls| ==> Permitted(kind, n, calls[i])
    ensures ret == 0 <==> Enough(kind, n)
    ensures ret == 0 ==> KeepsPromise(kind, n, nb, Fresh(n), calls, replies)
    ensures ret == 0 && !kind.Raid0? ==> |replies| == |calls|
    ensures ret != 0 ==> replies == []
  {
    var dev := new Device(images, n, nb);
    ret := dev.InitRaid(kind);
    if ret != 0 {
      return ret, [];
    }
    InitHolds(kind, images, dev.disks);
    replies := Run(dev, kind, calls, Fresh(n));
  }

  /** On a fresh array of any level a write succeeds exactly at the accepted numbers, and is read back. */
  method WriteThenRead(images: Disks, n: nat, nb: nat, kind: Kind, b: nat, x: Block)
    returns (ret: int, written: Reply, read: Reply)
    requires n >= 1 && nb >= 2 && Shaped(images, n, nb)
    requires kind.Raid4? || kind.Raid5? ==> P.ZeroRows(images, n, nb)
    requires kind.Raid5? ==> n >= 2
    ensures ret == 0 <==> Enough(kind, n)
    ensures ret == 0 ==> (written.code == 0 <==> Accepted(kind, n, nb, b))
    ensures ret == 0 && written.code == 0 ==> read == Reply(0, x)
    ensures ret == 0 && written.code != 0 ==> read.code != 0
  {
    var replies;
    ret, replies := RunFromInit(images, n, nb, kind, [Write(b, x), Read(b)]);
    if ret != 0 {
      return ret, Reply(-1, []), Reply(-1, []);
    }
    FreshServes(kind, n, nb, b, x, replies);
    written, read := replies[0], replies[1];
  }

  lemma FreshServes(kind: Kind, n: nat, nb: nat, b: nat, x: Block, replies: seq<Reply>)
    requires n >= 1 && Enough(kind, n) && (kind.Raid5? ==> n >= 2)
    requires KeepsPromise(kind, n, nb, Fresh(n), [Write(b, x), Read(b)], replies)
    ensures |replies| == 2 && (replies[0].code == 0 <==> Accepted(kind, n, nb, b))
    ensures replies[0].code == 0 <==> replies[1].code == 0
    ensures replies[0].code == 0 ==> replies[1].data == x
  {
    hide P.DataDisk, Accepted;
    var k, calls := Fresh(n), [Write(b, x), Read(b)];
    assert Readable(kind, n, k.up, b) && Writable(kind, n, k.up, b) by {
      assert 0 in k.up;
    }
    assert replies != [];
    var k1 := After(kind, n, k, calls[0], replies[0]);
    assert calls[1..] == [Read(b)];
    assert KeepsPromise(kind, n, nb, k1, [Read(b)], replies[1..]);
    assert replies[1..] != [];
    assert Told(kind, n, nb, k.up, Read(b), replies[1..][0].code);
  }

  // ---------------------------------------------------------------- what a restart changes

  predicate ReadOrWrite(c: Call) {
    c.Read? || c.Write?
  }

  predicate AnyReadOrWrite(calls: seq<Call>) {
    exists i :: 0 <= i < |calls| && ReadOrWrite(calls[i])
  }

  /** A read or a write loads the metadata cache, whatever it replies. */
  method Touch(dev: Device, c: Call)
    requires dev.Valid() && !dev.locked && dev.Ready(dev.Level()) && (dev.Level().Raid0? || dev.Level().Raid4?)
    requires ReadOrWrite(c)
    modifies dev
    ensures dev.Valid() && !dev.locked && dev.Level() == old(dev.Level()) && dev.Ready(dev.Level())
    ensures Decode(dev.disks[0][0]) == old(Decode(dev.disks[0][0]))
    ensures dev.Level().Raid0? ==> dev.cache[0] == Decode(dev.disks[0][0])
    ensures dev.Level().Raid4? ==> dev.Coherent()
  {
    hide Decode;
    var data := new bv8[BSIZE];
    match c {
      case Read(b) => var _ := dev.ReadRaid(b, data);
      case Write(b, x) =>
        forall i | 0 <= i < BSIZE {
          data[i] := x[i];
        }
        if dev.Level().Raid4? {
          P.DataResult(P.Dedicated, dev.disks, P.Write(b, data[..]));
        }
        var _ := dev.WriteRaid(b, data);
    }
  }

  /** After a restart a failing disk leaves a RAID 0 array its level if and only if a read or a write came first. */
  method FailAfterRestart(dev: Device, calls: seq<Call>, diskn: int) returns (ret: int)
    requires dev.Valid() && Z.Ready(dev.disks) && 1 <= diskn <= dev.N
    requires forall i :: 0 <= i < |calls| ==> ReadOrWrite(calls[i]) || calls[i].Repair?
    modifies dev
    ensures dev.Valid() && ret == 0
    ensures Z.Ready(dev.disks) <==> AnyReadOrWrite(calls)
  {
    hide Decode;
    dev.Reboot();
    var i := 0;
    while i < |calls|
      invariant 0 <= i <= |calls| && dev.Valid() && !dev.locked && dev.Level() == Raid0 && dev.Ready(Raid0)
      invariant Z.Ready(dev.disks)
      invariant dev.cache[0].kind == if AnyReadOrWrite(calls[..i]) then Raid0 else NoRaid
    {
      assert calls[..i + 1] == calls[..i] + [calls[i]];
      assert AnyReadOrWrite(calls[..i + 1]) <==> AnyReadOrWrite(calls[..i]) || ReadOrWrite(calls[i]) by {
        OneMore(calls[..i], calls[i]);
      }
      if ReadOrWrite(calls[i]) {
        Touch(dev, calls[i]);
      } else {
        var _ := dev.DiskRepairedRaid(calls[i].diskn);
      }
      i := i + 1;
    }
    assert calls[..i] == calls;
    ret := dev.DiskFailRaid(diskn);
  }

  lemma OneMore(calls: seq<Call>, c: Call)
    ensures AnyReadOrWrite(calls + [c]) <==> AnyReadOrWrite(calls) || ReadOrWrite(c)
  {
    if AnyReadOrWrite(calls) {
      var i :| 0 <= i < |calls| && ReadOrWrite(calls[i]);
      assert ReadOrWrite((calls + [c])[i]);
    }
    assert (calls + [c])[|calls|] == c;
  }

  /** After a restart RAID 4 repairs a disk as it should if and only if a read or a write came first, or the
      parity disk is the one to repair, or is down; `s` is the array when the repair is called. */
  method RepairAfterRestart(dev: Device, calls: seq<Call>, diskn: int) returns (ret: int, ghost s: Disks)
    requires dev.Valid() && P.Ready(P.Dedicated, dev.disks)
    requires forall i :: 0 <= i < |calls| ==> ReadOrWrite(calls[i])
    modifies dev
    ensures dev.Valid() && P.Ready(P.Dedicated, s) && |s| == dev.N
    ensures (dev.disks, Reply(ret, [])) == P.RepairStep(P.Dedicated, s, diskn, dev.Header(diskn)) <==>
              calls != [] || !(1 <= diskn < dev.N) || !Up(s, dev.N - 1)
  {
    hide Decode, P.RepairStep;
    dev.Reboot();
    var i := 0;
    while i < |calls|
      invariant 0 <= i <= |calls| && dev.Valid() && !dev.locked && dev.Level() == Raid4 && dev.Ready(Raid4)
      invariant if i > 0 then dev.Coherent() else dev.cache[dev.N - 1].working == 0
    {
      Touch(dev, calls[i]);
      i := i + 1;
    }
    s := dev.disks;
    ghost var entry := dev.cache[dev.N - 1];
    ret := dev.DiskRepairedRaid(diskn);
    Repair4Iff(s, diskn, entry, dev.Header(diskn));
  }
}
