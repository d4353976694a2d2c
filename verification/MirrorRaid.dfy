/** RAID 1 (every disk a copy) and RAID 0+1 (striping over mirrored pairs). */
module MirrorRaid {
  import opened Arith
  import opened Blocks
  import opened RaidMeta

  datatype Level = Full | Pairs

  function KindOf(l: Level): Kind {
    if l.Full? then Raid1 else Raid01
  }

  ghost predicate Ready(l: Level, s: Disks) {
    && |s| >= 2 && (l.Pairs? ==> |s| >= 4 && |s| % 2 == 0)
    && |s[0]| >= 1
    && Formatted(s, KindOf(l), |s|, |s[0]|)
  }

  // ---------------------------------------------------------------- addresses

  /** The mirrored pair a block belongs to; in RAID 1 all disks form one group. */
  function Group(l: Level, n: nat, b: nat): nat
    requires n >= 2
  {
    if l.Full? then 0 else b % (n / 2)
  }

  function Row(l: Level, n: nat, b: nat): nat
    requires n >= 2
  {
    if l.Full? then b + 1 else b / (n / 2) + 1
  }

  predicate Replica(l: Level, n: nat, b: nat, d: nat)
    requires n >= 2
  {
    l.Full? || d / 2 == Group(l, n, b)
  }

  function BlockAt(l: Level, n: nat, group: nat, row: nat): nat
    requires n >= 2 && row >= 1
  {
    MulMono(0, row - 1, n / 2);
    if l.Full? then row - 1 else (row - 1) * (n / 2) + group
  }

  /** What `info_raid1` and `info_raid01` report as the number of blocks. */
  function Capacity(l: Level, n: nat, nb: nat): nat
    requires n >= 2 && nb >= 1
  {
    if l.Full? then nb - 1 else (nb - 1) * (n / 2)
  }

  lemma AcceptedIff(l: Level, n: nat, nb: nat, b: nat)
    requires n >= 2 && nb >= 1
    ensures Row(l, n, b) <= nb - 1 <==> b < Capacity(l, n, nb)
  {
    DivLess(b, n / 2, nb - 1);
  }

  lemma AddressRoundTrip(l: Level, n: nat, b: nat)
    requires n >= 2
    ensures BlockAt(l, n, Group(l, n, b), Row(l, n, b)) == b
  {
    DivModSplit(b, n / 2);
  }

  lemma LocationRoundTrip(l: Level, n: nat, nb: nat, group: nat, row: nat)
    requires n >= 2 && 1 <= row < nb && (if l.Full? then group == 0 else group < n / 2)
    ensures var b := BlockAt(l, n, group, row);
            b < Capacity(l, n, nb) && Group(l, n, b) == group && Row(l, n, b) == row
  {
    if l.Pairs? {
      DivModUnique(BlockAt(l, n, group, row), row - 1, group, n / 2);
    }
    AcceptedIff(l, n, nb, BlockAt(l, n, group, row));
  }

  /** RAID 1 keeps the blocks in order on every disk; RAID 0+1 deals them out to the pairs in turn, one row
      for each round. */
  lemma RoundRobin(l: Level, n: nat, b: nat)
    requires n >= 2
    ensures Group(l, n, 0) == 0 && Row(l, n, 0) == 1
    ensures l.Full? ==> Row(l, n, b + 1) == Row(l, n, b) + 1
    ensures l.Pairs? ==>
              && Group(l, n, b + 1) == (if Group(l, n, b) + 1 == n / 2 then 0 else Group(l, n, b) + 1)
              && Group(l, n, b + n / 2) == Group(l, n, b) && Row(l, n, b + n / 2) == Row(l, n, b) + 1
  {
    var h := n / 2;
    var q, r := b / h, b % h;
    DivModSplit(b, h);
    MulStep(q, h);
    DivModUnique(b + h, q + 1, r, h);
    if r + 1 == h {
      DivModUnique(b + 1, q + 1, 0, h);
    } else {
      DivModUnique(b + 1, q, r + 1, h);
    }
  }

  /** Different blocks never share a location. */
  lemma ReplicasDisjoint(l: Level, n: nat, b: nat, c: nat, d: nat)
    requires n >= 2 && Replica(l, n, b, d) && Replica(l, n, c, d) && Row(l, n, b) == Row(l, n, c)
    ensures b == c
  {
    AddressRoundTrip(l, n, b);
    AddressRoundTrip(l, n, c);
  }

  // ---------------------------------------------------------------- the engine's steps

  datatype Event =
    | Read(b: nat)
    | Write(b: nat, x: Block)
    | Fail(diskn: int, junk: Block)
    | Repair(diskn: int, junk: Block)
    | Damage(d: nat, blocks: seq<Block>)

  /** RAID 0+1 repair trusts its caller for the disk number. */
  predicate Callable(l: Level, n: nat, e: Event) {
    l.Pairs? && e.Repair? ==> 1 <= e.diskn <= n
  }

  /** The first working disk from `k` on, or the number of disks. */
  function FirstUp(s: Disks, k: nat): (f: nat)
    requires k <= |s| && forall d :: 0 <= d < |s| ==> |s[d]| > 0
    ensures k <= f <= |s| && (f < |s| ==> Up(s, f)) && forall d :: k <= d < f ==> !Up(s, d)
    decreases |s| - k
  {
    if k == |s| || Up(s, k) then k else FirstUp(s, k + 1)
  }

  /** The copy a read is served from, or the number of disks. */
  function ReadFrom(l: Level, s: Disks, b: nat): (f: nat)
    requires Ready(l, s)
    ensures f <= |s|
    ensures f < |s| ==> Up(s, f) && Replica(l, |s|, b, f)
    ensures f == |s| ==> forall d :: 0 <= d < |s| && Replica(l, |s|, b, d) ==> !Up(s, d)
  {
    if l.Full? then FirstUp(s, 0)
    else
      var d := Group(l, |s|, b) * 2;
      if Up(s, d) then d else if Up(s, d + 1) then d + 1 else |s|
  }

  function ReadReply(l: Level, s: Disks, b: nat): Reply
    requires Ready(l, s)
  {
    var f := ReadFrom(l, s, b);
    if Row(l, |s|, b) > |s[0]| - 1 then Reply(-1, [])
    else if f == |s| then Reply(if l.Full? then -1 else -2, [])
    else Reply(0, s[f][Row(l, |s|, b)])
  }

  /** The block written on every working copy among the first `k` disks. */
  function WriteCopies(l: Level, s: Disks, b: nat, x: Block, k: nat): (t: Disks)
    requires |s| >= 2 && Shaped(s, |s|, |s[0]|) && Row(l, |s|, b) < |s[0]| && k <= |s|
    ensures Shaped(t, |s|, |s[0]|)
    ensures forall d :: 0 <= d < |s| ==>
              t[d] == if d < k && Replica(l, |s|, b, d) && Up(s, d) then SetBlock(s[d], Row(l, |s|, b), x) else s[d]
  {
    if k == 0 then s
    else
      var t := WriteCopies(l, s, b, x, k - 1);
      if Replica(l, |s|, b, k - 1) && Up(s, k - 1) then Put(t, k - 1, Row(l, |s|, b), x) else t
  }

  /** How the loop over all disks starts and goes on. */
  lemma CopiesStep(s: Disks, b: nat, x: Block, k: nat)
    requires |s| >= 2 && Shaped(s, |s|, |s[0]|) && b + 1 < |s[0]| && k < |s|
    ensures WriteCopies(Full, s, b, x, 0) == s
    ensures WriteCopies(Full, s, b, x, k + 1)
         == if Up(s, k) then Put(WriteCopies(Full, s, b, x, k), k, b + 1, x) else WriteCopies(Full, s, b, x, k)
  {
  }

  /** Block 0 is never written. */
  lemma CopiesSpare(s: Disks, b: nat, x: Block, k: nat)
    requires |s| >= 2 && Shaped(s, |s|, |s[0]|) && b + 1 < |s[0]| && k <= |s|
    ensures forall d :: 0 <= d < |s| ==> WriteCopies(Full, s, b, x, k)[d][0] == s[d][0]
  {
    hide WriteCopies;
  }

  function WriteStep(l: Level, s: Disks, b: nat, x: Block): (Disks, Reply)
    requires Ready(l, s)
  {
    if Row(l, |s|, b) > |s[0]| - 1 then (s, Reply(-1, []))
    else if ReadFrom(l, s, b) == |s| then (s, Reply(if l.Full? then -1 else -2, []))
    else (WriteCopies(l, s, b, x, |s|), Reply(0, []))
  }

  function FailStep(l: Level, s: Disks, diskn: int, junk: Block): (Disks, Reply)
    requires Ready(l, s)
  {
    if diskn < 1 || diskn > |s| || !Up(s, diskn - 1) then (s, Reply(-1, []))
    else (SetFlag(s, diskn - 1, KindOf(l), 0, junk), Reply(0, []))
  }

  /** The disk a repair copies from, or the number of disks. */
  function Source(l: Level, s: Disks, d: nat): (f: nat)
    requires Ready(l, s) && d < |s|
    ensures f <= |s| && (f < |s| ==> Up(s, f))
  {
    if l.Full? then FirstUp(s, 0)
    else
      var partner := if d % 2 == 0 then d + 1 else d - 1;
      if Up(s, partner) then partner else |s|
  }

  /** Disk `d` with its rows before `k`, block 0 excepted, replaced by those of disk `f`. */
  function CopyRows(s: Disks, f: nat, d: nat, k: nat): (t: Disks)
    requires f < |s| && d < |s| && Shaped(s, |s|, |s[d]|) && 1 <= k <= |s[d]|
    ensures Shaped(t, |s|, |s[d]|)
  {
    s[d := [s[d][0]] + s[f][1..k] + s[d][k..]]
  }

  /** How the copying loop starts and goes on. */
  lemma CopyStep(s: Disks, f: nat, d: nat, k: nat)
    requires f < |s| && d < |s| && Shaped(s, |s|, |s[d]|) && 1 <= k <= |s[d]|
    ensures CopyRows(s, f, d, 1) == s
    ensures k < |s[d]| ==> Put(CopyRows(s, f, d, k), d, k, s[f][k]) == CopyRows(s, f, d, k + 1)
  {
    assert CopyRows(s, f, d, 1)[d] == s[d];
    if k < |s[d]| {
      assert Put(CopyRows(s, f, d, k), d, k, s[f][k])[d] == CopyRows(s, f, d, k + 1)[d];
    }
  }

  function RepairStep(l: Level, s: Disks, diskn: int, junk: Block): (Disks, Reply)
    requires Ready(l, s) && Callable(l, |s|, Repair(diskn, junk))
  {
    if diskn < 1 || diskn > |s| then (s, Reply(-1, []))
    else if l.Full? && Up(s, diskn - 1) then (s, Reply(-1, []))
    else
      var f := Source(l, s, diskn - 1);
      if f == |s| then (s, Reply(-1, []))
      else (SetFlag(CopyRows(s, f, diskn - 1, |s[0]|), diskn - 1, KindOf(l), 1, junk), Reply(0, []))
  }

  function DamageStep(l: Level, s: Disks, d: nat, blocks: seq<Block>): Disks
    requires Ready(l, s)
  {
    if d < |s| && !Up(s, d) && |blocks| == |s[0]| - 1 then s[d := [s[d][0]] + blocks] else s
  }

  function Step(l: Level, s: Disks, e: Event): (Disks, Reply)
    requires Ready(l, s) && Callable(l, |s|, e)
  {
    match e
    case Read(b) => (s, ReadReply(l, s, b))
    case Write(b, x) => WriteStep(l, s, b, x)
    case Fail(diskn, junk) => FailStep(l, s, diskn, junk)
    case Repair(diskn, junk) => RepairStep(l, s, diskn, junk)
    case Damage(d, blocks) => (DamageStep(l, s, d, blocks), Reply(0, []))
  }

  lemma PairMembers(n: nat, b: nat)
    requires n >= 2 && n % 2 == 0
    ensures var d := Group(Pairs, n, b) * 2;
            d + 1 < n && forall e: nat :: Replica(Pairs, n, b, e) <==> e == d || e == d + 1
  {
  }

  /** Writing to the working disks of a pair. */
  function PairPut(s: Disks, d: nat, row: nat, x: Block): (t: Disks)
    requires d + 1 < |s| && |s[d]| > row && |s[d + 1]| > row
  {
    var t := if Up(s, d) then Put(s, d, row, x) else s;
    if Up(s, d + 1) then Put(t, d + 1, row, x) else t
  }

  /** The pair's two writes are the write of all copies. */
  lemma PairWrites(s: Disks, b: nat, x: Block, d: nat)
    requires Ready(Pairs, s) && Row(Pairs, |s|, b) < |s[0]| && d == Group(Pairs, |s|, b) * 2
    ensures d + 1 < |s|
    ensures var t := PairPut(s, d, Row(Pairs, |s|, b), x);
            && Ready(Pairs, t)
            && WriteStep(Pairs, s, b, x) == (t, Reply(if Up(s, d) || Up(s, d + 1) then 0 else -2, []))
  {
    PairMembers(|s|, b);
    CopiesOfTwo(s, b, x, d);
    DataResult(Pairs, s, Write(b, x));
  }

  lemma CopiesOfTwo(s: Disks, b: nat, x: Block, d: nat)
    requires |s| >= 2 && d + 1 < |s| && |s[0]| > 0 && Shaped(s, |s|, |s[0]|) && Row(Pairs, |s|, b) < |s[0]|
    requires forall e: nat :: Replica(Pairs, |s|, b, e) <==> e == d || e == d + 1
    ensures WriteCopies(Pairs, s, b, x, |s|) == PairPut(s, d, Row(Pairs, |s|, b), x)
  {
    hide Decode, WriteCopies, Replica, Row;
  }

  lemma CopiedDisk(l: Level, s: Disks, f: nat, d: nat)
    requires Ready(l, s) && f < |s| && d < |s|
    ensures var t := CopyRows(s, f, d, |s[0]|);
            && Formatted(t, KindOf(l), |s|, |s[0]|)
            && (forall e :: 0 <= e < |s| && e != d ==> t[e] == s[e])
            && t[d][0] == s[d][0] && t[d][1..] == s[f][1..]
  {
    var t := CopyRows(s, f, d, |s[0]|);
    assert t[d] == [s[d][0]] + s[f][1..];
  }

  /** Copying block 0 along and then overwriting it makes no difference. */
  lemma CopiedWhole(s: Disks, f: nat, d: nat, t: Disks, h: Block)
    requires f < |s| && d < |s| && Shaped(s, |s|, |s[d]|) && |s[d]| >= 1 && f != d
    requires |t| == |s| && t[d] == s[f] && forall e :: 0 <= e < |s| && e != d ==> t[e] == s[e]
    ensures Put(t, d, 0, h) == Put(CopyRows(s, f, d, |s[d]|), d, 0, h)
  {
    assert Put(t, d, 0, h)[d] == Put(CopyRows(s, f, d, |s[d]|), d, 0, h)[d];
  }

  /** A successful repair turns the disk into a working copy of its source and changes nothing else. */
  lemma RepairResult(l: Level, s: Disks, diskn: int, junk: Block)
    requires Ready(l, s) && 1 <= diskn <= |s| && RepairStep(l, s, diskn, junk).1.code == 0
    ensures var t, d := RepairStep(l, s, diskn, junk).0, diskn - 1;
            var f := Source(l, s, d);
            && Ready(l, t) && |t| == |s| && |t[0]| == |s[0]| && f < |s|
            && (forall e :: 0 <= e < |s| && e != d ==> t[e] == s[e])
            && Up(t, d) && t[d][1..] == s[f][1..]
  {
    var d := diskn - 1;
    var f := Source(l, s, d);
    CopiedDisk(l, s, f, d);
    SetFlagFormatted(CopyRows(s, f, d, |s[0]|), d, KindOf(l), true, junk, |s|, |s[0]|);
  }

  /** RAID 0+1 copies the partner's disk whole and then marks it: `t` is the array after the copy. */
  lemma PairRepair(s: Disks, f: nat, d: nat, t: Disks, junk: Block)
    requires Ready(Pairs, s) && d < |s| && f == (if d % 2 == 0 then d + 1 else d - 1)
    ensures f < |s| && f != d
    ensures !Up(s, f) ==> RepairStep(Pairs, s, d + 1, junk) == (s, Reply(-1, []))
    ensures Up(s, f) && |t| == |s| && t[d] == s[f] && (forall e :: 0 <= e < |s| && e != d ==> t[e] == s[e]) ==>
              && RepairStep(Pairs, s, d + 1, junk) == (SetFlag(t, d, Raid01, 1, junk), Reply(0, []))
              && Ready(Pairs, SetFlag(t, d, Raid01, 1, junk))
  {
    hide CopyRows, Decode, Encode, Put;
    assert Source(Pairs, s, d) == if Up(s, f) then f else |s|;
    if Up(s, f) && |t| == |s| && t[d] == s[f] && (forall e :: 0 <= e < |s| && e != d ==> t[e] == s[e]) {
      CopiedWhole(s, f, d, t, Encode(RaidData(Raid01, 1), junk));
      RepairResult(Pairs, s, d + 1, junk);
    }
  }

  lemma FailResult(l: Level, s: Disks, diskn: int, junk: Block)
    requires Ready(l, s)
    ensures var t := FailStep(l, s, diskn, junk).0;
            && Ready(l, t) && |t| == |s| && |t[0]| == |s[0]|
            && (forall e :: 0 <= e < |s| ==> t[e][1..] == s[e][1..])
            && (forall e :: 0 <= e < |s| ==> Up(t, e) == (Up(s, e) && e != diskn - 1))
  {
    if 1 <= diskn <= |s| {
      SetFlagFormatted(s, diskn - 1, KindOf(l), false, junk, |s|, |s[0]|);
    }
  }

  /** Writes and damage stay clear of block 0. */
  lemma DataResult(l: Level, s: Disks, e: Event)
    requires Ready(l, s) && (e.Write? || e.Damage?)
    ensures var t := Step(l, s, e).0;
            && Ready(l, t) && |t| == |s| && |t[0]| == |s[0]|
            && (forall d :: 0 <= d < |s| ==> t[d][0] == s[d][0] && Up(t, d) == Up(s, d))
  {
    hide Decode, WriteCopies, Group, FirstUp;
  }

  lemma StepReady(l: Level, s: Disks, e: Event)
    requires Ready(l, s) && Callable(l, |s|, e)
    ensures Ready(l, Step(l, s, e).0)
    ensures |Step(l, s, e).0| == |s| && |Step(l, s, e).0[0]| == |s[0]|
  {
    match e
    case Read(_) =>
    case Write(b, x) => DataResult(l, s, e);
    case Fail(diskn, junk) => FailResult(l, s, diskn, junk);
    case Repair(diskn, junk) =>
      if RepairStep(l, s, diskn, junk).1.code == 0 {
        RepairResult(l, s, diskn, junk);
      }
    case Damage(d, blocks) => DataResult(l, s, e);
  }

  // ---------------------------------------------------------------- runs

  /** `m` gives the last block stored at each number written since initialisation;
      every working copy of such a block holds it. */
  ghost predicate Inv(l: Level, s: Disks, m: map<nat, Block>) {
    && Ready(l, s)
    && (forall b :: b in m ==> Row(l, |s|, b) < |s[0]|)
    && forall b, d :: b in m && 0 <= d < |s| && Replica(l, |s|, b, d) && Up(s, d) ==>
         s[d][Row(l, |s|, b)] == m[b]
  }

  lemma WriteKeeps(l: Level, s: Disks, m: map<nat, Block>, b: nat, x: Block)
    requires Inv(l, s, m) && WriteStep(l, s, b, x).1.code == 0
    ensures Inv(l, WriteStep(l, s, b, x).0, m[b := x])
  {
    hide Decode, WriteCopies, Group, FirstUp;
    StepReady(l, s, Write(b, x));
    var t, n := WriteStep(l, s, b, x).0, |s|;
    forall c, d | c in m[b := x] && 0 <= d < n && Replica(l, n, c, d) && Up(t, d)
      ensures t[d][Row(l, n, c)] == m[b := x][c]
    {
      assert t[d][0] == s[d][0];
      if c != b && Replica(l, n, b, d) && Row(l, n, b) == Row(l, n, c) {
        ReplicasDisjoint(l, n, b, c, d);
      }
    }
  }

  lemma FailKeeps(l: Level, s: Disks, m: map<nat, Block>, diskn: int, junk: Block)
    requires Inv(l, s, m)
    ensures Inv(l, FailStep(l, s, diskn, junk).0, m)
  {
    FailResult(l, s, diskn, junk);
    var t := FailStep(l, s, diskn, junk).0;
    forall d, row | 0 <= d < |s| && 1 <= row < |s[0]|
      ensures t[d][row] == s[d][row]
    {
      assert t[d][row] == t[d][1..][row - 1];
    }
  }

  lemma RepairKeeps(l: Level, s: Disks, m: map<nat, Block>, diskn: int, junk: Block)
    requires Inv(l, s, m) && Callable(l, |s|, Repair(diskn, junk))
    ensures Inv(l, RepairStep(l, s, diskn, junk).0, m)
  {
    hide Decode, FirstUp;
    var t, n := RepairStep(l, s, diskn, junk).0, |s|;
    if RepairStep(l, s, diskn, junk).1.code == 0 {
      RepairResult(l, s, diskn, junk);
      var d := diskn - 1;
      var f := Source(l, s, d);
      forall b | b in m && Replica(l, n, b, d)
        ensures t[d][Row(l, n, b)] == m[b]
      {
        var row := Row(l, n, b);
        assert Replica(l, n, b, f);
        assert t[d][row] == t[d][1..][row - 1] == s[f][1..][row - 1];
      }
    }
  }

  lemma DamageKeeps(l: Level, s: Disks, m: map<nat, Block>, d: nat, blocks: seq<Block>)
    requires Inv(l, s, m)
    ensures Inv(l, DamageStep(l, s, d, blocks), m)
  {
    DataResult(l, s, Damage(d, blocks));
  }

  function Effect(l: Level, s: Disks, m: map<nat, Block>, e: Event): map<nat, Block>
    requires Ready(l, s)
  {
    if e.Write? && WriteStep(l, s, e.b, e.x).1.code == 0 then m[e.b := e.x] else m
  }

  predicate AllCallable(l: Level, n: nat, es: seq<Event>) {
    forall i :: 0 <= i < |es| ==> Callable(l, n, es[i])
  }

  /** Along the run, a successful read of a block written since initialisation is never stale. */
  ghost predicate ReadsLastWrites(l: Level, s: Disks, m: map<nat, Block>, es: seq<Event>)
    requires Ready(l, s) && AllCallable(l, |s|, es)
    decreases |es|
  {
    es == [] ||
    (var (t, r) := Step(l, s, es[0]);
     StepReady(l, s, es[0]);
     && (es[0].Read? && r.code == 0 && es[0].b in m ==> r.data == m[es[0].b])
     && ReadsLastWrites(l, t, Effect(l, s, m, es[0]), es[1..]))
  }

  lemma StepKeeps(l: Level, s: Disks, m: map<nat, Block>, e: Event)
    requires Inv(l, s, m) && Callable(l, |s|, e)
    ensures Inv(l, Step(l, s, e).0, Effect(l, s, m, e))
    ensures e.Read? && Step(l, s, e).1.code == 0 && e.b in m ==> Step(l, s, e).1.data == m[e.b]
  {
    match e
    case Read(b) =>
    case Write(b, x) =>
      if WriteStep(l, s, b, x).1.code == 0 {
        WriteKeeps(l, s, m, b, x);
      }
    case Fail(diskn, junk) => FailKeeps(l, s, m, diskn, junk);
    case Repair(diskn, junk) => RepairKeeps(l, s, m, diskn, junk);
    case Damage(d, blocks) => DamageKeeps(l, s, m, d, blocks);
  }

  /** Over any run, with failed disks losing their data at any moment. */
  lemma {:induction false} MirrorReadsLastWrites(l: Level, s: Disks, m: map<nat, Block>, es: seq<Event>)
    requires Inv(l, s, m) && AllCallable(l, |s|, es)
    ensures ReadsLastWrites(l, s, m, es)
    decreases |es|
  {
    if es != [] {
      StepReady(l, s, es[0]);
      StepKeeps(l, s, m, es[0]);
      MirrorReadsLastWrites(l, Step(l, s, es[0]).0, Effect(l, s, m, es[0]), es[1..]);
    }
  }

  /** A read succeeds exactly for accepted blocks with a working copy, and a write likewise. */
  lemma ReadableIff(l: Level, s: Disks, b: nat, x: Block)
    requires Ready(l, s)
    ensures ReadReply(l, s, b).code == 0 <==>
              b < Capacity(l, |s|, |s[0]|) && exists d :: 0 <= d < |s| && Replica(l, |s|, b, d) && Up(s, d)
    ensures WriteStep(l, s, b, x).1.code == ReadReply(l, s, b).code
  {
    AcceptedIff(l, |s|, |s[0]|, b);
  }

  /** A failure is taken note of exactly for a working disk. */
  lemma FailedIff(l: Level, s: Disks, diskn: int, junk: Block)
    requires Ready(l, s)
    ensures var (t, r) := FailStep(l, s, diskn, junk);
            && (r.code == 0 <==> 1 <= diskn <= |s| && Up(s, diskn - 1))
            && (r.code == 0 ==> Ready(l, t) && |t| == |s| && !Up(t, diskn - 1))
            && (r.code != 0 ==> t == s)
  {
    FailResult(l, s, diskn, junk);
  }

  function After(l: Level, s: Disks, es: seq<Event>): (t: Disks)
    requires Ready(l, s) && AllCallable(l, |s|, es)
    ensures Ready(l, t) && |t| == |s| && |t[0]| == |s[0]|
    decreases |es|
  {
    if es == [] then s
    else
      StepReady(l, s, es[0]);
      After(l, Step(l, s, es[0]).0, es[1..])
  }

  /** A group with no working copy left: all disks for RAID 1, a pair for RAID 0+1. */
  predicate GroupDown(l: Level, s: Disks, b: nat)
    requires Ready(l, s)
  {
    forall d :: 0 <= d < |s| && Replica(l, |s|, b, d) ==> !Up(s, d)
  }

  /** A repair copies from a disk with the same blocks. */
  lemma SourceReplica(l: Level, s: Disks, b: nat, d: nat)
    requires Ready(l, s) && d < |s|
    ensures Source(l, s, d) < |s| ==> (Replica(l, |s|, b, d) <==> Replica(l, |s|, b, Source(l, s, d)))
  {
  }

  /** A repair reports success exactly when another disk with the same blocks works and, on RAID 1, this one does
      not. Afterwards the disk works exactly when some disk with the same blocks did. */
  lemma RepairedIff(l: Level, s: Disks, b: nat, diskn: int, junk: Block)
    requires Ready(l, s) && 1 <= diskn <= |s| && Replica(l, |s|, b, diskn - 1)
    ensures var (t, r) := RepairStep(l, s, diskn, junk);
            && Ready(l, t) && |t| == |s|
            && (Up(t, diskn - 1) <==> exists e :: 0 <= e < |s| && Replica(l, |s|, b, e) && Up(s, e))
            && (r.code == 0 <==>
                && (exists e :: 0 <= e < |s| && e != diskn - 1 && Replica(l, |s|, b, e) && Up(s, e))
                && (l.Full? ==> !Up(s, diskn - 1)))
            && (r.code == 0 ==> Up(t, diskn - 1))
            && (r.code != 0 ==> t == s)
  {
    hide Decode, Encode, CopyRows, SetFlag;
    SourceReplica(l, s, b, diskn - 1);
    if RepairStep(l, s, diskn, junk).1.code == 0 {
      RepairResult(l, s, diskn, junk);
    } else if l.Pairs? {
      PairMembers(|s|, b);
    }
  }

  lemma RepairedNot(l: Level, s: Disks, diskn: int, junk: Block)
    requires Ready(l, s) && Callable(l, |s|, Repair(diskn, junk)) && !(1 <= diskn <= |s|)
    ensures RepairStep(l, s, diskn, junk) == (s, Reply(-1, []))
  {
  }

  /** Once every copy of a block is down, no sequence of calls brings one back. */
  lemma {:induction false} GroupLossPermanent(l: Level, s: Disks, es: seq<Event>, b: nat)
    requires Ready(l, s) && AllCallable(l, |s|, es) && GroupDown(l, s, b)
    ensures GroupDown(l, After(l, s, es), b)
    decreases |es|
  {
    hide Decode, FirstUp;
    if es != [] {
      var e := es[0];
      StepReady(l, s, e);
      var t := Step(l, s, e).0;
      match e {
        case Read(_) =>
        case Write(_, _) => DataResult(l, s, e);
        case Fail(diskn, junk) => FailResult(l, s, diskn, junk);
        case Repair(diskn, junk) =>
          if RepairStep(l, s, diskn, junk).1.code == 0 {
            RepairResult(l, s, diskn, junk);
            SourceReplica(l, s, b, diskn - 1);
          }
        case Damage(_, _) => DataResult(l, s, e);
      }
      GroupLossPermanent(l, t, es[1..], b);
    }
  }

  /** Initialisation starts a run with nothing written yet. */
  lemma InitInv(l: Level, s: Disks, t: Disks)
    requires |s| >= 2 && (l.Pairs? ==> |s| >= 4 && |s| % 2 == 0)
    requires |s[0]| >= 1 && Shaped(s, |s|, |s[0]|) && Initialised(s, t, KindOf(l))
    ensures Inv(l, t, map[]) && forall d :: 0 <= d < |t| ==> Up(t, d)
  {
  }
}
