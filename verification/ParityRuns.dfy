/** What RAID 4 and RAID 5 keep over whole runs of calls, failures and repairs. */
module ParityRuns {
  import opened Params
  import opened Blocks
  import opened RaidMeta
  import opened ParityRaid

  // ---------------------------------------------------------------- single steps keep the shares

  lemma FailKeeps(l: Level, s: Disks, ideal: Disks, a: seq<Block>, diskn: int, junk: Block)
    requires Inv(l, s, ideal, a)
    ensures Inv(l, FailStep(l, s, diskn, junk).0, ideal, a)
  {
    FailResult(l, s, diskn, junk);
  }

  /** A repair leaves the rebuilt disk with exactly its share, even if it held something else before. */
  lemma RepairKeeps(l: Level, s: Disks, ideal: Disks, a: seq<Block>, diskn: int, junk: Block)
    requires Inv(l, s, ideal, a)
    ensures Inv(l, RepairStep(l, s, diskn, junk).0, ideal, a)
  {
    if 1 <= diskn <= |s| && OthersUp(s, diskn - 1) {
      RepairResult(l, s, diskn, junk);
      var d := diskn - 1;
      forall row | 1 <= row < |s[0]|
        ensures RowSum(s, row, d, |s|) == ideal[d][row]
      {
        RowSumFrame(s, ideal, row, d, |s|);
        Recoverable(ideal, row, d);
      }
    }
  }

  lemma DamageKeeps(l: Level, s: Disks, ideal: Disks, a: seq<Block>, d: nat, blocks: seq<Block>)
    requires Inv(l, s, ideal, a)
    ensures Inv(l, DamageStep(l, s, d, blocks), ideal, a)
  {
    DataResult(l, s, Damage(d, blocks));
  }

  /** The failed disk `d` cannot spoil the parity a write of block `b` computes. */
  predicate SafeWrite(l: Level, s: Disks, b: nat)
    requires Ready(l, s)
  {
    Up(s, DataDisk(l, |s|, b)) || !Up(s, ParityDisk(l, |s|, Stripe(|s|, b)))
  }

  lemma ModifyKeeps(l: Level, s: Disks, ideal: Disks, a: seq<Block>, b: nat, x: Block)
    requires Inv(l, s, ideal, a) && b < |a|
    requires SafeWrite(l, s, b) || s[DataDisk(l, |s|, b)][Row(|s|, b)] == a[b]
    ensures Inv(l, ReadModifyWrite(l, s, b, x), ReadModifyWrite(l, ideal, b, x), a[b := x])
  {
    hide Decode, RowSum;
    WriteIdeal(l, ideal, |s|, |s[0]|, a, b, x);
    var t := ReadModifyWrite(l, s, b, x);
    assert forall d :: 0 <= d < |s| ==> t[d][0] == s[d][0];
  }

  // ---------------------------------------------------------------- runs

  /** How an event changes the plain array: a write counts when the engine stores it. */
  function Effect(l: Level, s: Disks, a: seq<Block>, e: Event): (a': seq<Block>)
    requires Ready(l, s)
    ensures |a'| == |a|
  {
    if e.Write? && e.b < |a| && (l.Rotating? || Stored4(s, e.b)) then a[e.b := e.x] else a
  }

  /** RAID 4 stores a block only while the block's disk and the parity disk both work. */
  predicate Stored4(s: Disks, b: nat)
    requires Ready(Dedicated, s)
  {
    Up(s, DataDisk(Dedicated, |s|, b)) && Up(s, |s| - 1)
  }

  function After(l: Level, s: Disks, es: seq<Event>): (t: Disks)
    requires Ready(l, s)
    ensures Ready(l, t) && |t| == |s| && |t[0]| == |s[0]|
    decreases |es|
  {
    if es == [] then s
    else
      StepReady(l, s, es[0]);
      After(l, Step(l, s, es[0]).0, es[1..])
  }

  /** Along the run, every read that reports success returns the last block stored at its number. */
  ghost predicate ReadsLastWrites(l: Level, s: Disks, a: seq<Block>, es: seq<Event>)
    requires Ready(l, s)
    decreases |es|
  {
    es == [] ||
    (var (t, r) := Step(l, s, es[0]);
     StepReady(l, s, es[0]);
     && (es[0].Read? && r.code == 0 ==> es[0].b < |a| && r.data == a[es[0].b])
     && ReadsLastWrites(l, t, Effect(l, s, a, es[0]), es[1..]))
  }

  /** RAID 4: over any run, even one in which failed disks lose their data at any moment. */
  lemma {:induction false} Raid4ReadsLastWrites(s: Disks, ideal: Disks, a: seq<Block>, es: seq<Event>)
    requires Inv(Dedicated, s, ideal, a)
    ensures ReadsLastWrites(Dedicated, s, a, es)
    decreases |es|
  {
    if es != [] {
      var e := es[0];
      var t := Step(Dedicated, s, e).0;
      StepReady(Dedicated, s, e);
      var ideal' := Raid4Step(s, ideal, a, e);
      Raid4ReadsLastWrites(t, ideal', Effect(Dedicated, s, a, e), es[1..]);
    }
  }

  lemma Raid4Step(s: Disks, ideal: Disks, a: seq<Block>, e: Event) returns (ideal': Disks)
    requires Inv(Dedicated, s, ideal, a)
    ensures Inv(Dedicated, Step(Dedicated, s, e).0, ideal', Effect(Dedicated, s, a, e))
    ensures e.Read? && Step(Dedicated, s, e).1.code == 0 ==>
              e.b < |a| && Step(Dedicated, s, e).1.data == a[e.b]
  {
    hide Decode, RowSum, Xor;
    ideal' := ideal;
    match e
    case Read(b) => ReadCorrect(Dedicated, s, ideal, a, b);
    case Write(b, x) =>
      AcceptedIff(|s|, |s[0]|, b);
      if b < |a| && Stored4(s, b) {
        ModifyKeeps(Dedicated, s, ideal, a, b, x);
        ideal' := ReadModifyWrite(Dedicated, ideal, b, x);
      }
    case Fail(diskn, junk) => FailKeeps(Dedicated, s, ideal, a, diskn, junk);
    case Repair(diskn, junk) => RepairKeeps(Dedicated, s, ideal, a, diskn, junk);
    case Damage(d, blocks) => DamageKeeps(Dedicated, s, ideal, a, d, blocks);
  }

  /** A RAID 4 write that reports success was stored exactly when the parity disk worked. */
  lemma Raid4LostWrite(s: Disks, ideal: Disks, a: seq<Block>, b: nat, x: Block)
    requires Inv(Dedicated, s, ideal, a) && b < |a| && x != a[b]
    ensures var (t, r) := WriteStep(Dedicated, s, b, x);
            && Ready(Dedicated, t)
            && (r.code == 0 ==> (ReadReply(Dedicated, t, b) == Reply(0, x) <==> Up(s, |s| - 1)))
  {
    AcceptedIff(|s|, |s[0]|, b);
    StepReady(Dedicated, s, Write(b, x));
    var (t, r) := WriteStep(Dedicated, s, b, x);
    assert t[DataDisk(Dedicated, |s|, b)][0] == s[DataDisk(Dedicated, |s|, b)][0];
    if r.code == 0 && !Up(s, |s| - 1) {
      ReadCorrect(Dedicated, s, ideal, a, b);
    }
  }

  // ---------------------------------------------------------------- RAID 5

  /** All disks, working or not, hold the balanced layout of `a`. */
  ghost predicate Intact(l: Level, s: Disks, a: seq<Block>) {
    && Ready(l, s)
    && ZeroRows(s, |s|, |s[0]|)
    && Represents(l, s, |s|, |s[0]|, a)
  }

  predicate NoDamage(es: seq<Event>) {
    forall i :: 0 <= i < |es| ==> !es[i].Damage?
  }

  /** Any step but damage leaves every row of every disk balanced: failing and repairing move no data. */
  lemma IntactStep(s: Disks, a: seq<Block>, e: Event)
    requires Intact(Rotating, s, a) && !e.Damage?
    ensures Intact(Rotating, Step(Rotating, s, e).0, Effect(Rotating, s, a, e))
    ensures e.Read? && Step(Rotating, s, e).1.code == 0 ==>
              e.b < |a| && Step(Rotating, s, e).1.data == a[e.b]
  {
    StepReady(Rotating, s, e);
    match e
    case Read(b) => ReadCorrect(Rotating, s, s, a, b);
    case Write(b, x) =>
      AcceptedIff(|s|, |s[0]|, b);
      if b < |a| {
        WriteIdeal(Rotating, s, |s|, |s[0]|, a, b, x);
      }
    case Fail(diskn, junk) =>
      FailResult(Rotating, s, diskn, junk);
      SameRows(Rotating, s, FailStep(Rotating, s, diskn, junk).0, a);
    case Repair(diskn, junk) =>
      RepairRestores(Rotating, s, a, diskn, junk);
      SameRows(Rotating, s, RepairStep(Rotating, s, diskn, junk).0, a);
  }

  /** Only rows from 1 on matter to the layout. */
  lemma SameRows(l: Level, s: Disks, t: Disks, a: seq<Block>)
    requires Intact(l, s, a) && Ready(l, t) && |t| == |s| && |t[0]| == |s[0]|
    requires forall d, row :: 0 <= d < |s| && 1 <= row < |s[0]| ==> t[d][row] == s[d][row]
    ensures Intact(l, t, a)
  {
    forall row | 1 <= row < |s[0]|
      ensures RowSum(t, row, NoDisk, |s|) == ZeroBlock()
    {
      RowSumFrame(s, t, row, NoDisk, |s|);
    }
  }

  /** On balanced disks a repair rewrites what was there. */
  lemma RepairRestores(l: Level, s: Disks, a: seq<Block>, diskn: int, junk: Block)
    requires Intact(l, s, a)
    ensures var t := RepairStep(l, s, diskn, junk).0;
            && Shaped(t, |s|, |s[0]|)
            && forall d, row :: 0 <= d < |s| && 1 <= row < |s[0]| ==> t[d][row] == s[d][row]
  {
    if 1 <= diskn <= |s| {
      RepairResult(l, s, diskn, junk);
      var d := diskn - 1;
      forall row | 1 <= row < |s[0]|
        ensures RowSum(s, row, d, |s|) == s[d][row]
      {
        Recoverable(s, row, d);
      }
    }
  }

  /** RAID 5: over any run of calls, degraded writes included, while failed disks keep their data. */
  lemma {:induction false} Raid5ReadsLastWrites(s: Disks, a: seq<Block>, es: seq<Event>)
    requires Intact(Rotating, s, a) && NoDamage(es)
    ensures ReadsLastWrites(Rotating, s, a, es)
    ensures ZeroRows(After(Rotating, s, es), |s|, |s[0]|)
    decreases |es|
  {
    if es != [] {
      IntactStep(s, a, es[0]);
      StepReady(Rotating, s, es[0]);
      Raid5ReadsLastWrites(Step(Rotating, s, es[0]).0, Effect(Rotating, s, a, es[0]), es[1..]);
    }
  }

  /** Every write of the run goes to a working disk, or finds its stripe's parity disk down. */
  predicate SafeRun(s: Disks, es: seq<Event>)
    requires Ready(Rotating, s)
    decreases |es|
  {
    es == [] ||
    (StepReady(Rotating, s, es[0]);
     && (es[0].Write? && Row(|s|, es[0].b) < |s[0]| ==> SafeWrite(Rotating, s, es[0].b))
     && SafeRun(Step(Rotating, s, es[0]).0, es[1..]))
  }

  /** RAID 5 when failed disks may lose their data: correct as long as each write is safe. */
  lemma {:induction false} Raid5SurvivesDamage(s: Disks, ideal: Disks, a: seq<Block>, es: seq<Event>)
    requires Inv(Rotating, s, ideal, a) && SafeRun(s, es)
    ensures ReadsLastWrites(Rotating, s, a, es)
    decreases |es|
  {
    hide Decode, RowSum, Xor;
    if es != [] {
      var e := es[0];
      var ideal' := ideal;
      StepReady(Rotating, s, e);
      match e {
        case Read(b) => ReadCorrect(Rotating, s, ideal, a, b);
        case Write(b, x) =>
          AcceptedIff(|s|, |s[0]|, b);
          if b < |a| {
            ModifyKeeps(Rotating, s, ideal, a, b, x);
            ideal' := ReadModifyWrite(Rotating, ideal, b, x);
          }
        case Fail(diskn, junk) => FailKeeps(Rotating, s, ideal, a, diskn, junk);
        case Repair(diskn, junk) => RepairKeeps(Rotating, s, ideal, a, diskn, junk);
        case Damage(d, blocks) => DamageKeeps(Rotating, s, ideal, a, d, blocks);
      }
      Raid5SurvivesDamage(Step(Rotating, s, e).0, ideal', Effect(Rotating, s, a, e), es[1..]);
    }
  }

  // ---------------------------------------------------------------- RAID 5 under any damage

  /** Disks outside `lost` hold their share of `ideal`, working or not; those in it are down. */
  ghost predicate Current(s: Disks, ideal: Disks, a: seq<Block>, lost: set<int>) {
    && Ready(Rotating, s)
    && ZeroRows(ideal, |s|, |s[0]|)
    && Represents(Rotating, ideal, |s|, |s[0]|, a)
    && (forall d :: d in lost ==> 0 <= d < |s| && !Up(s, d))
    && (forall d, row :: 0 <= d < |s| && 1 <= row < |s[0]| && d !in lost ==> s[d][row] == ideal[d][row])
  }

  /** The block is on a disk that has lost its data while the parity of its stripe is kept up. */
  predicate Spoiled(s: Disks, lost: set<int>, b: nat)
    requires Ready(Rotating, s)
  {
    DataDisk(Rotating, |s|, b) in lost && Up(s, ParityDisk(Rotating, |s|, Stripe(|s|, b)))
  }

  /** A parity disk that is down goes out of date when a block on a disk without its data is written. */
  function LostAfter(s: Disks, lost: set<int>, e: Event): set<int>
    requires Ready(Rotating, s)
  {
    match e
    case Read(_) => lost
    case Write(b, _) =>
      if Row(|s|, b) < |s[0]| && DataDisk(Rotating, |s|, b) in lost && !Spoiled(s, lost, b)
      then lost + {ParityDisk(Rotating, |s|, Stripe(|s|, b))} else lost
    case Fail(_, _) => lost
    case Repair(diskn, junk) => if RepairStep(Rotating, s, diskn, junk).1.code == 0 then lost - {diskn - 1} else lost
    case Damage(d, _) => if d < |s| && !Up(s, d) then lost + {d} else lost
  }

  /** What is known to be stored: a write that reports success, unless the block is spoiled. */
  function KnownAfter(s: Disks, lost: set<int>, m: map<nat, Block>, e: Event): map<nat, Block>
    requires Ready(Rotating, s)
  {
    if e.Write? && Row(|s|, e.b) < |s[0]|
    then if Spoiled(s, lost, e.b) then m - {e.b} else m[e.b := e.x]
    else m
  }

  lemma CurrentInv(s: Disks, ideal: Disks, a: seq<Block>, lost: set<int>)
    requires Current(s, ideal, a, lost)
    ensures Inv(Rotating, s, ideal, a)
  {
  }

  lemma SpoiledParity(par: Block, good: Block, stale: Block, x: Block)
    ensures Xor(Xor(par, good), Xor(Xor(good, stale), x)) == Xor(Xor(par, stale), x)
  {
    XorAssoc(good, stale, x);
    XorAssoc(Xor(par, good), good, Xor(stale, x));
    XorAssoc(par, good, good);
    XorUnit(good);
    XorUnit(par);
    XorAssoc(par, stale, x);
  }

  /** A write to a spoiled block stores some other block instead, and every other block stays what it was. */
  lemma CurrentWrite(s: Disks, ideal: Disks, a: seq<Block>, lost: set<int>, b: nat, x: Block)
    returns (ideal': Disks, y: Block)
    requires Current(s, ideal, a, lost) && b < |a|
    ensures !Spoiled(s, lost, b) ==> y == x
    ensures Current(ReadModifyWrite(Rotating, s, b, x), ideal', a[b := y], LostAfter(s, lost, Write(b, x)))
  {
    hide Decode, RowSum, Xor;
    var d, p, row := DataDisk(Rotating, |s|, b), ParityDisk(Rotating, |s|, Stripe(|s|, b)), Row(|s|, b);
    y := if Spoiled(s, lost, b) then Xor(Xor(ideal[d][row], s[d][row]), x) else x;
    ideal' := ReadModifyWrite(Rotating, ideal, b, y);
    WriteIdeal(Rotating, ideal, |s|, |s[0]|, a, b, y);
    KeepsFlags(Rotating, s, b, x);
    SpoiledParity(s[p][row], ideal[d][row], s[d][row], x);
  }

  lemma CurrentFail(s: Disks, ideal: Disks, a: seq<Block>, lost: set<int>, diskn: int, junk: Block)
    requires Current(s, ideal, a, lost)
    ensures Current(FailStep(Rotating, s, diskn, junk).0, ideal, a, lost)
  {
    FailResult(Rotating, s, diskn, junk);
  }

  lemma CurrentRepair(s: Disks, ideal: Disks, a: seq<Block>, lost: set<int>, diskn: int, junk: Block)
    requires Current(s, ideal, a, lost)
    ensures Current(RepairStep(Rotating, s, diskn, junk).0, ideal, a, LostAfter(s, lost, Repair(diskn, junk)))
  {
    hide Decode, RowSum, Xor;
    if 1 <= diskn <= |s| && !Up(s, diskn - 1) && OthersUp(s, diskn - 1) {
      CurrentInv(s, ideal, a, lost);
      RepairKeeps(Rotating, s, ideal, a, diskn, junk);
      RepairResult(Rotating, s, diskn, junk);
      forall d | d in lost ensures d == diskn - 1 {
        assert 0 <= d < |s| && !Up(s, d);
      }
    }
  }

  lemma CurrentDamage(s: Disks, ideal: Disks, a: seq<Block>, lost: set<int>, d: nat, blocks: seq<Block>)
    requires Current(s, ideal, a, lost)
    ensures Current(DamageStep(Rotating, s, d, blocks), ideal, a, LostAfter(s, lost, Damage(d, blocks)))
  {
    DataResult(Rotating, s, Damage(d, blocks));
  }

  predicate Agrees(a: seq<Block>, m: map<nat, Block>) {
    forall b :: b in m ==> b < |a| && a[b] == m[b]
  }

  lemma CurrentStep(s: Disks, ideal: Disks, a: seq<Block>, lost: set<int>, m: map<nat, Block>, e: Event)
    returns (ideal': Disks, a': seq<Block>)
    requires Current(s, ideal, a, lost) && Agrees(a, m)
    ensures Current(Step(Rotating, s, e).0, ideal', a', LostAfter(s, lost, e)) && Agrees(a', KnownAfter(s, lost, m, e))
    ensures e.Read? && Step(Rotating, s, e).1.code == 0 && e.b in m ==> Step(Rotating, s, e).1.data == m[e.b]
  {
    hide Decode, RowSum, Xor, Current;
    CurrentInv(s, ideal, a, lost);
    ideal', a' := ideal, a;
    match e
    case Read(b) => ReadCorrect(Rotating, s, ideal, a, b);
    case Write(b, x) =>
      AcceptedIff(|s|, |s[0]|, b);
      if b < |a| {
        var y;
        ideal', y := CurrentWrite(s, ideal, a, lost, b, x);
        a' := a[b := y];
      }
    case Fail(diskn, junk) => CurrentFail(s, ideal, a, lost, diskn, junk);
    case Repair(diskn, junk) => CurrentRepair(s, ideal, a, lost, diskn, junk);
    case Damage(d, blocks) => CurrentDamage(s, ideal, a, lost, d, blocks);
  }

  /** Along the run, every read that reports success returns what is known to be stored at its number. */
  ghost predicate ReadsKnown(s: Disks, lost: set<int>, m: map<nat, Block>, es: seq<Event>)
    requires Ready(Rotating, s)
    decreases |es|
  {
    es == [] ||
    (var (t, r) := Step(Rotating, s, es[0]);
     StepReady(Rotating, s, es[0]);
     && (es[0].Read? && r.code == 0 && es[0].b in m ==> r.data == m[es[0].b])
     && ReadsKnown(t, LostAfter(s, lost, es[0]), KnownAfter(s, lost, m, es[0]), es[1..]))
  }

  /** RAID 5 over any run, with failed disks losing their data at any moment and no condition on the writes:
      all that damage can take is a block written while its own disk's data is gone. */
  lemma {:induction false} Raid5AnyDamage(s: Disks, ideal: Disks, a: seq<Block>, lost: set<int>,
                                          m: map<nat, Block>, es: seq<Event>)
    requires Current(s, ideal, a, lost) && Agrees(a, m)
    ensures ReadsKnown(s, lost, m, es)
    decreases |es|
  {
    hide Current, Agrees, LostAfter, KnownAfter, Decode;
    CurrentInv(s, ideal, a, lost);
    if es != [] {
      StepReady(Rotating, s, es[0]);
      var ideal', a' := CurrentStep(s, ideal, a, lost, m, es[0]);
      Raid5AnyDamage(Step(Rotating, s, es[0]).0, ideal', a', LostAfter(s, lost, es[0]),
                     KnownAfter(s, lost, m, es[0]), es[1..]);
    }
  }

  /** A degraded RAID 5 write can be read back exactly when its disk works, or the failed disk
      still holds the block's old contents: the engine feeds that stale block into the parity. */
  lemma Raid5ReadBack(s: Disks, ideal: Disks, a: seq<Block>, b: nat, x: Block)
    requires Inv(Rotating, s, ideal, a) && b < |a|
    ensures var (t, w) := WriteStep(Rotating, s, b, x);
            var d, row := DataDisk(Rotating, |s|, b), Row(|s|, b);
            && Ready(Rotating, t) && w.code == 0 && row < |s[0]|
            && var r := ReadReply(Rotating, t, b);
               r.code == 0 ==> (r.data == x <==> Up(s, d) || s[d][row] == a[b])
  {
    AcceptedIff(|s|, |s[0]|, b);
    StepReady(Rotating, s, Write(b, x));
    var t := WriteStep(Rotating, s, b, x).0;
    var d, row := DataDisk(Rotating, |s|, b), Row(|s|, b);
    KeepsFlags(Rotating, s, b, x);
    if Up(s, d) {
      assert t[d][row] == x;
    } else if OthersUp(s, d) {
      DegradedSum(s, ideal, b, x);
    }
  }

  lemma KeepsFlags(l: Level, s: Disks, b: nat, x: Block)
    requires Ready(l, s) && Row(|s|, b) < |s[0]|
    ensures var t := ReadModifyWrite(l, s, b, x);
            forall e :: 0 <= e < |s| ==> t[e][0] == s[e][0] && Up(t, e) == Up(s, e)
  {
  }

  /** What the recovery loop computes after a write to the failed disk. */
  lemma DegradedSum(s: Disks, ideal: Disks, b: nat, x: Block)
    requires Ready(Rotating, s) && ZeroRows(ideal, |s|, |s[0]|)
    requires Row(|s|, b) < |s[0]|
    requires forall d :: 0 <= d < |s| && d != DataDisk(Rotating, |s|, b) ==>
               s[d][Row(|s|, b)] == ideal[d][Row(|s|, b)]
    ensures var d, row := DataDisk(Rotating, |s|, b), Row(|s|, b);
            var got := RowSum(ReadModifyWrite(Rotating, s, b, x), row, d, |s|);
            got == x <==> s[d][row] == ideal[d][row]
  {
    hide Decode, RowSum, Xor;
    var n := |s|;
    var d, p, row := DataDisk(Rotating, n, b), ParityDisk(Rotating, n, Stripe(n, b)), Row(n, b);
    var stale, good := s[d][row], ideal[d][row];
    var t := ReadModifyWrite(Rotating, s, b, x);
    var mid := Put(ideal, d, row, x);
    var u := Put(mid, p, row, Xor(Xor(ideal[p][row], stale), x));
    RowSumFrame(t, u, row, d, n);
    RowSumSplit(u, row, d, n);
    PutSum(ideal, row, d, x);
    PutSum(mid, row, p, u[p][row]);
    CancelChain(good, x, ideal[p][row], stale, RowSum(u, row, d, n));
  }

  lemma CancelChain(good: Block, x: Block, par: Block, stale: Block, got: Block)
    requires Xor(got, x) == Xor(Xor(Xor(Xor(ZeroBlock(), good), x), par), Xor(Xor(par, stale), x))
    ensures got == x <==> stale == good
  {
    XorUnit(good);
    XorComm(Xor(good, x), par);
    XorAssoc(par, good, x);
    // Xor(got, x) == par + (good + x) + (par + stale + x)
    var lhs, rhs := Xor(Xor(par, good), x), Xor(Xor(par, stale), x);
    assert Xor(got, x) == Xor(lhs, rhs);
    if stale == good {
      XorUnit(lhs);
      XorCancel(got, x);
    }
    if got == x {
      XorUnit(x);
      XorCancel(lhs, rhs);
      XorInjective(Xor(par, good), Xor(par, stale), x);
      XorComm(par, good);
      XorComm(par, stale);
      XorInjective(good, stale, par);
    }
  }

  lemma XorInjective(a: Block, b: Block, c: Block)
    requires Xor(a, c) == Xor(b, c)
    ensures a == b
  {
    XorAssoc(a, c, c);
    XorAssoc(b, c, c);
    XorUnit(c);
    XorUnit(a);
    XorUnit(b);
  }

  // ---------------------------------------------------------------- availability and loss

  /** A block can be read exactly when it is accepted and its disk, or every other disk, works. */
  lemma ReadableIff(l: Level, s: Disks, b: nat)
    requires Ready(l, s)
    ensures ReadReply(l, s, b).code == 0 <==>
              b < Capacity(|s|, |s[0]|) && (Up(s, DataDisk(l, |s|, b)) || OthersUp(s, DataDisk(l, |s|, b)))
  {
    AcceptedIff(|s|, |s[0]|, b);
  }

  /** A write reports success exactly for accepted blocks, on RAID 4 only if the block's own disk works;
      a failure is taken note of exactly for a disk that exists. */
  lemma WritableIff(l: Level, s: Disks, b: nat, x: Block, diskn: int, junk: Block)
    requires Ready(l, s)
    ensures WriteStep(l, s, b, x).1.code == 0 <==>
              b < Capacity(|s|, |s[0]|) && (l.Rotating? || Up(s, DataDisk(l, |s|, b)))
    ensures WriteStep(l, s, b, x).1.code != 0 ==> WriteStep(l, s, b, x).0 == s
    ensures FailStep(l, s, diskn, junk).1.code == 0 <==> 1 <= diskn <= |s|
  {
    hide Decode;
    AcceptedIff(|s|, |s[0]|, b);
  }

  /** A repair reports success exactly for a disk that exists while all others work, and on RAID 5 also for
      a disk that works; it then leaves the disk working. Refused, it changes nothing. */
  lemma RepairedIff(l: Level, s: Disks, diskn: int, junk: Block)
    requires Ready(l, s)
    ensures var (t, r) := RepairStep(l, s, diskn, junk);
            && Ready(l, t) && |t| == |s|
            && (r.code == 0 <==>
                1 <= diskn <= |s| && (OthersUp(s, diskn - 1) || (l.Rotating? && Up(s, diskn - 1))))
            && (1 <= diskn <= |s| ==>
                (Up(t, diskn - 1) <==> Up(s, diskn - 1) || OthersUp(s, diskn - 1)))
            && (r.code == 0 ==> Up(t, diskn - 1))
            && (r.code != 0 ==> t == s)
  {
    hide Decode, Encode, Rebuilt, RowSum, SetFlag;
    if 1 <= diskn <= |s| {
      RepairResult(l, s, diskn, junk);
    }
  }

  /** With at most one disk down every accepted block can be read. */
  lemma SingleFailureReadable(l: Level, s: Disks, b: nat, down: nat)
    requires Ready(l, s) && down < |s| && OthersUp(s, down)
    ensures ReadReply(l, s, b).code == 0 <==> b < Capacity(|s|, |s[0]|)
  {
    AcceptedIff(|s|, |s[0]|, b);
  }

  /** A repair that goes through brings back the rows of any balanced set agreeing on the other disks. */
  lemma RepairRecovers(l: Level, s: Disks, a: seq<Block>, u: Disks, diskn: int, junk: Block)
    requires Intact(l, s, a) && Ready(l, u) && |u| == |s| && |u[0]| == |s[0]| && 1 <= diskn <= |s|
    requires forall e :: 0 <= e < |s| && e != diskn - 1 ==> u[e] == s[e] && Up(u, e)
    requires !Up(u, diskn - 1)
    ensures var t := RepairStep(l, u, diskn, junk).0;
            && Shaped(t, |s|, |s[0]|)
            && Up(t, diskn - 1)
            && (forall e :: 0 <= e < |s| ==> t[e][1..] == s[e][1..])
  {
    RepairResult(l, u, diskn, junk);
    var t, d := RepairStep(l, u, diskn, junk).0, diskn - 1;
    forall row | 1 <= row < |s[0]|
      ensures t[d][row] == s[d][row]
    {
      RowSumFrame(s, u, row, d, |s|);
      Recoverable(s, row, d);
    }
    assert t[d][1..] == s[d][1..];
  }

  /** The promised use: fail a disk, lose all it held, repair it, and every block is back. */
  lemma FailDamageRepair(l: Level, s: Disks, a: seq<Block>, diskn: int, blocks: seq<Block>, j0: Block, j1: Block)
    requires Intact(l, s, a) && 1 <= diskn <= |s| && OthersUp(s, diskn - 1) && |blocks| == |s[0]| - 1
    ensures var t := After(l, s, [Fail(diskn, j0), Damage(diskn - 1, blocks), Repair(diskn, j1)]);
            Up(t, diskn - 1) && forall e :: 0 <= e < |s| ==> t[e][1..] == s[e][1..]
  {
    hide Decode, RowSum, Xor;
    var d := diskn - 1;
    var es := [Fail(diskn, j0), Damage(d, blocks), Repair(diskn, j1)];
    assert es[1..] == [Damage(d, blocks), Repair(diskn, j1)];
    assert es[1..][1..] == [Repair(diskn, j1)];
    assert es[1..][1..][1..] == [];
    var s1 := FailStep(l, s, diskn, j0).0;
    FailResult(l, s, diskn, j0);
    var s2 := DamageStep(l, s1, d, blocks);
    DataResult(l, s1, es[1]);
    assert forall e :: 0 <= e < |s| && e != d ==> Up(s, e) && s1[e] == s[e];
    RepairRecovers(l, s, a, s2, diskn, j1);
    StepReady(l, s2, es[2]);
    assert After(l, s2, es[1..][1..]) == RepairStep(l, s2, diskn, j1).0;
    assert After(l, s1, es[1..]) == After(l, s2, es[1..][1..]);
  }

  /** Two failed disks stay failed: no sequence of calls brings either back. */
  lemma {:induction false} DoubleFailurePermanent(l: Level, s: Disks, es: seq<Event>, f: nat, g: nat)
    requires Ready(l, s) && f < |s| && g < |s| && f != g && !Up(s, f) && !Up(s, g)
    ensures !Up(After(l, s, es), f) && !Up(After(l, s, es), g)
    decreases |es|
  {
    if es != [] {
      var e := es[0];
      match e {
        case Read(_) =>
        case Write(_, _) => DataResult(l, s, e);
        case Fail(diskn, junk) => FailResult(l, s, diskn, junk);
        case Repair(diskn, junk) => assert !OthersUp(s, diskn - 1);
        case Damage(_, _) => DataResult(l, s, e);
      }
      DoubleFailurePermanent(l, Step(l, s, e).0, es[1..], f, g);
    }
  }

  // ---------------------------------------------------------------- start of a run

  lemma {:induction false} ZeroDisksBalanced(s: Disks, row: nat, k: nat)
    requires k <= |s| && forall d :: 0 <= d < k ==> row < |s[d]| && s[d][row] == ZeroBlock()
    ensures RowSum(s, row, NoDisk, k) == ZeroBlock()
  {
    if k > 0 {
      ZeroDisksBalanced(s, row, k - 1);
      XorUnit(ZeroBlock());
    }
  }

  /** Initialising balanced disks, such as fresh all-zero images, starts a correct array. */
  lemma InitIntact(l: Level, s: Disks, t: Disks) returns (a: seq<Block>)
    requires |s| >= 2 && |s[0]| >= 2 && ZeroRows(s, |s|, |s[0]|)
    requires Initialised(s, t, KindOf(l))
    ensures Intact(l, t, a) && OthersUp(t, NoDisk)
    ensures forall b :: 0 <= b < |a| ==> ReadReply(l, t, b) == Reply(0, a[b])
  {
    var n, nb := |s|, |s[0]|;
    forall b | 0 <= b < Capacity(n, nb) ensures Row(n, b) < nb {
      AcceptedIff(n, nb, b);
    }
    a := seq(Capacity(n, nb), b requires 0 <= b < Capacity(n, nb) => t[DataDisk(l, n, b)][Row(n, b)]);
    forall row | 1 <= row < nb
      ensures RowSum(t, row, NoDisk, n) == ZeroBlock()
    {
      RowSumFrame(s, t, row, NoDisk, n);
    }
  }

  // ---------------------------------------------------------------- concrete failing inputs

  function Ones(): Block {
    seq(BSIZE, i => 1)
  }

  /** Two fresh disks of two blocks each. */
  function Fresh(l: Level): Disks {
    var h := Encode(RaidData(KindOf(l), 1), ZeroBlock());
    [[h, ZeroBlock()], [h, ZeroBlock()]]
  }

  lemma FreshIntact(l: Level)
    ensures Intact(l, Fresh(l), [ZeroBlock()]) && OthersUp(Fresh(l), NoDisk)
    ensures DataDisk(l, 2, 0) == if l.Dedicated? then 0 else 1
  {
    DecodeEncode(RaidData(KindOf(l), 1), ZeroBlock());
    ZeroDisksBalanced(Fresh(l), 1, 2);
  }

  /** A run goes wrong if it does so after its first step. */
  lemma WrongLater(l: Level, s: Disks, a: seq<Block>, e: Event, es: seq<Event>)
    requires Ready(l, s) && Ready(l, Step(l, s, e).0)
    requires !ReadsLastWrites(l, Step(l, s, e).0, Effect(l, s, a, e), es)
    ensures !ReadsLastWrites(l, s, a, [e] + es)
  {
    assert ([e] + es)[1..] == es;
  }

  /** The second of two fresh disks, which holds block 0, fails and comes to hold something else. */
  lemma Damaged(s1: Disks, s2: Disks)
    requires Intact(Rotating, Fresh(Rotating), [ZeroBlock()]) && OthersUp(Fresh(Rotating), NoDisk)
    requires s1 == FailStep(Rotating, Fresh(Rotating), 2, ZeroBlock()).0 && Ready(Rotating, s1)
    requires s2 == DamageStep(Rotating, s1, 1, [Ones()])
    ensures Inv(Rotating, s1, Fresh(Rotating), [ZeroBlock()]) && Inv(Rotating, s2, Fresh(Rotating), [ZeroBlock()])
    ensures |s2| == 2 && |s2[0]| == 2 && Up(s2, 0) && !Up(s2, 1) && s2[1][1] != ZeroBlock()
  {
    hide Decode, Encode, RowSum, Xor;
    var s, z := Fresh(Rotating), ZeroBlock();
    FailKeeps(Rotating, s, s, [z], 2, z);
    FailResult(Rotating, s, 2, z);
    DamageKeeps(Rotating, s1, s, [z], 1, [Ones()]);
    assert Up(s, 0) && s2[0] == s1[0] && s2[1][0] == s1[1][0];
    assert s2[1][1] == Ones() && Ones()[0] != z[0];
  }

  /** Writing block 0 then leaves a parity from which another block is computed. */
  lemma WrittenAndLost(s2: Disks)
    requires Inv(Rotating, s2, Fresh(Rotating), [ZeroBlock()])
    requires |s2| == 2 && |s2[0]| == 2 && Up(s2, 0) && !Up(s2, 1) && s2[1][1] != ZeroBlock()
    ensures !ReadsLastWrites(Rotating, s2, [ZeroBlock()], [Write(0, ZeroBlock())] + [Read(0)])
  {
    hide Decode, Encode, RowSum, Xor;
    var z := ZeroBlock();
    StepReady(Rotating, s2, Write(0, z));
    KeepsFlags(Rotating, s2, 0, z);
    Raid5ReadBack(s2, Fresh(Rotating), [z], 0, z);
    assert [z][0 := z] == [z];
    assert !ReadsLastWrites(Rotating, WriteStep(Rotating, s2, 0, z).0, [z], [Read(0)]);
    WrongLater(Rotating, s2, [z], Write(0, z), [Read(0)]);
  }

  /** A failed RAID 5 disk loses its block, the block is then written, and the write is not read back. */
  lemma Raid5StaleParityExample() returns (es: seq<Event>)
    ensures Intact(Rotating, Fresh(Rotating), [ZeroBlock()])
    ensures !ReadsLastWrites(Rotating, Fresh(Rotating), [ZeroBlock()], es)
  {
    hide Decode, Encode, RowSum, Xor, Intact, ReadsLastWrites;
    var l, s, z := Rotating, Fresh(Rotating), ZeroBlock();
    FreshIntact(l);
    assert Ready(l, s) by {
      assert Intact(l, s, [z]);
    }
    StepReady(l, s, Fail(2, z));
    var s1 := FailStep(l, s, 2, z).0;
    var s2 := DamageStep(l, s1, 1, [Ones()]);
    Damaged(s1, s2);
    WrittenAndLost(s2);
    var es2 := [Write(0, z)] + [Read(0)];
    WrongLater(l, s1, [z], Damage(1, [Ones()]), es2);
    WrongLater(l, s, [z], Fail(2, z), [Damage(1, [Ones()])] + es2);
    es := [Fail(2, z)] + ([Damage(1, [Ones()])] + es2);
  }

  /** With its parity disk down, RAID 4 reports success for a block it does not store. */
  lemma Raid4LostWriteExample()
    ensures Ready(Dedicated, Fresh(Dedicated))
    ensures var s := FailStep(Dedicated, Fresh(Dedicated), 2, ZeroBlock()).0;
            && Ready(Dedicated, s)
            && WriteStep(Dedicated, s, 0, Ones()) == (s, Reply(0, []))
            && ReadReply(Dedicated, s, 0) == Reply(0, ZeroBlock())
            && ZeroBlock() != Ones()
  {
    FreshIntact(Dedicated);
    StepReady(Dedicated, Fresh(Dedicated), Fail(2, ZeroBlock()));
    FailResult(Dedicated, Fresh(Dedicated), 2, ZeroBlock());
    assert ZeroBlock()[0] != Ones()[0];
  }
}
