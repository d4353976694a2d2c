/** RAID 4 and RAID 5: block-striping with one parity block per row. */
module ParityRaid {
  import opened Arith
  import opened Blocks
  import opened RaidMeta

  datatype Level = Dedicated | Rotating

  function KindOf(l: Level): Kind {
    if l.Dedicated? then Raid4 else Raid5
  }

  // ---------------------------------------------------------------- addresses

  /** The disk (from 0) that holds the parity of a stripe; stripe `k` is row `k + 1` of every disk. */
  function ParityDisk(l: Level, n: nat, stripe: nat): (p: nat)
    requires n >= 2
    ensures p < n
  {
    if l.Dedicated? then n - 1 else stripe % n
  }

  function Stripe(n: nat, b: nat): nat
    requires n >= 2
  {
    b / (n - 1)
  }

  function DataDisk(l: Level, n: nat, b: nat): (d: nat)
    requires n >= 2
    ensures d < n && d != ParityDisk(l, n, Stripe(n, b))
  {
    var k := b % (n - 1);
    if k >= ParityDisk(l, n, Stripe(n, b)) then k + 1 else k
  }

  function Row(n: nat, b: nat): nat
    requires n >= 2
  {
    Stripe(n, b) + 1
  }

  /** The block number stored at a non-parity location: the inverse of the address map. */
  function BlockAt(l: Level, n: nat, d: nat, row: nat): nat
    requires n >= 2 && d < n && row >= 1 && d != ParityDisk(l, n, row - 1)
  {
    var p := ParityDisk(l, n, row - 1);
    MulMono(0, row - 1, n - 1);
    (row - 1) * (n - 1) + (if d > p then d - 1 else d)
  }

  /** What `info_raid4` and `info_raid5` report as the number of blocks. */
  function Capacity(n: nat, nb: nat): nat
    requires n >= 2 && nb >= 1
  {
    (nb - 1) * (n - 1)
  }

  lemma AcceptedIff(n: nat, nb: nat, b: nat)
    requires n >= 2 && nb >= 1
    ensures Row(n, b) <= nb - 1 <==> b < Capacity(n, nb)
  {
    DivLess(b, n - 1, nb - 1);
  }

  /** The accepted block numbers map one-to-one onto all rows >= 1 outside the parity disk. */
  lemma AddressRoundTrip(l: Level, n: nat, b: nat)
    requires n >= 2
    ensures BlockAt(l, n, DataDisk(l, n, b), Row(n, b)) == b
  {
    DivModSplit(b, n - 1);
  }

  lemma LocationRoundTrip(l: Level, n: nat, nb: nat, d: nat, row: nat)
    requires n >= 2 && d < n && 1 <= row < nb && d != ParityDisk(l, n, row - 1)
    ensures var b := BlockAt(l, n, d, row);
            b < Capacity(n, nb) && DataDisk(l, n, b) == d && Row(n, b) == row
  {
    var p := ParityDisk(l, n, row - 1);
    var k := if d > p then d - 1 else d;
    DivModUnique(BlockAt(l, n, d, row), row - 1, k, n - 1);
    AcceptedIff(n, nb, BlockAt(l, n, d, row));
  }

  /** RAID 5 parity moves on by one disk from stripe to stripe, around the ring, starting on the first;
      RAID 4 parity stays on the last disk. */
  lemma ParityRotates(n: nat, stripe: nat)
    requires n >= 2
    ensures ParityDisk(Rotating, n, 0) == 0
    ensures var p := ParityDisk(Rotating, n, stripe);
            ParityDisk(Rotating, n, stripe + 1) == if p == n - 1 then 0 else p + 1
    ensures ParityDisk(Dedicated, n, stripe) == n - 1
  {
    var q, r := stripe / n, stripe % n;
    DivModSplit(stripe, n);
    MulStep(q, n);
    if r == n - 1 {
      DivModUnique(stripe + 1, q + 1, 0, n);
    } else {
      DivModUnique(stripe + 1, q, r + 1, n);
    }
  }

  /** Among any `n` stripes in a row every disk holds the RAID 5 parity exactly once: in stripe `at`. */
  lemma ParityOnceAround(n: nat, first: nat, d: nat) returns (at: nat)
    requires n >= 2 && d < n
    ensures first <= at < first + n
    ensures forall k: nat :: first <= k < first + n ==> (ParityDisk(Rotating, n, k) == d <==> k == at)
  {
    hide ParityDisk;
    var base := Whole(first, n);
    var r := first - base;
    at := if d >= r then base + d else base + n + d;
    forall k: nat | first <= k < first + n ensures ParityDisk(Rotating, n, k) == d <==> k == at {
      ParityAt(n, base, k);
    }
  }

  /** The stripe at which the round of parities that `first` is part of begins. */
  function Whole(first: nat, n: nat): (base: nat)
    requires n >= 2
    ensures base <= first < base + n && base % n == 0
  {
    DivModSplit(first, n);
    DivModUnique(first - first % n, first / n, 0, n);
    first - first % n
  }

  lemma ParityAt(n: nat, base: nat, k: nat)
    requires n >= 2 && base % n == 0 && base <= k < base + n + n
    ensures ParityDisk(Rotating, n, k) == if k < base + n then k - base else k - base - n
  {
    var q := base / n;
    DivModSplit(base, n);
    MulStep(q, n);
    if k < base + n {
      DivModUnique(k, q, k - base, n);
    } else {
      DivModUnique(k, q + 1, k - base - n, n);
    }
  }

  /** A stripe holds `n - 1` consecutive blocks, in the order of the disks, its parity disk left out. */
  lemma DataInOrder(l: Level, n: nat, b: nat)
    requires n >= 2
    ensures Row(n, 0) == 1 && Row(n, b + n - 1) == Row(n, b) + 1
    ensures var d, p := DataDisk(l, n, b), ParityDisk(l, n, Stripe(n, b));
            var next := if d + 1 == p then d + 2 else d + 1;
            if next < n then DataDisk(l, n, b + 1) == next && Row(n, b + 1) == Row(n, b)
            else Row(n, b + 1) == Row(n, b) + 1
  {
    hide ParityDisk;
    var m := n - 1;
    var q, r := b / m, b % m;
    DivModSplit(b, m);
    MulStep(q, m);
    DivModUnique(b + m, q + 1, r, m);
    if r + 1 == m {
      DivModUnique(b + 1, q + 1, 0, m);
    } else {
      DivModUnique(b + 1, q, r + 1, m);
    }
  }

  // ---------------------------------------------------------------- parity sums

  /** XOR of row `row` over disks `0..k`, leaving out `skip`, in the order the recovery loop adds them. */
  function RowSum(s: Disks, row: nat, skip: int, k: nat): Block
    requires k <= |s| && forall d :: 0 <= d < k ==> row < |s[d]|
  {
    if k == 0 then ZeroBlock()
    else if k - 1 == skip then RowSum(s, row, skip, k - 1)
    else Xor(RowSum(s, row, skip, k - 1), s[k - 1][row])
  }

  const NoDisk := -1

  lemma {:induction false} RowSumFrame(s: Disks, t: Disks, row: nat, skip: int, k: nat)
    requires k <= |s| && k <= |t|
    requires forall d :: 0 <= d < k ==> row < |s[d]| && row < |t[d]|
    requires forall d :: 0 <= d < k && d != skip ==> s[d][row] == t[d][row]
    ensures RowSum(s, row, skip, k) == RowSum(t, row, skip, k)
  {
    if k > 0 {
      RowSumFrame(s, t, row, skip, k - 1);
    }
  }

  /** The whole sum is the sum without `skip`, plus `skip`'s own block. */
  lemma {:induction false} RowSumSplit(s: Disks, row: nat, skip: nat, k: nat)
    requires k <= |s| && skip < k && forall d :: 0 <= d < k ==> row < |s[d]|
    ensures RowSum(s, row, NoDisk, k) == Xor(RowSum(s, row, skip, k), s[skip][row])
  {
    if k - 1 == skip {
      RowSumSame(s, row, skip, k - 1);
    } else {
      RowSumSplit(s, row, skip, k - 1);
      XorExchange(RowSum(s, row, skip, k - 1), s[skip][row], s[k - 1][row]);
    }
  }

  lemma {:induction false} RowSumSame(s: Disks, row: nat, skip: nat, k: nat)
    requires k <= |s| && skip >= k && forall d :: 0 <= d < k ==> row < |s[d]|
    ensures RowSum(s, row, NoDisk, k) == RowSum(s, row, skip, k)
  {
    if k > 0 {
      RowSumSame(s, row, skip, k - 1);
    }
  }

  /** In a row that sums to zero, the other disks determine each disk's block. */
  lemma Recoverable(s: Disks, row: nat, skip: nat)
    requires skip < |s| && forall d :: 0 <= d < |s| ==> row < |s[d]|
    requires RowSum(s, row, NoDisk, |s|) == ZeroBlock()
    ensures RowSum(s, row, skip, |s|) == s[skip][row]
  {
    RowSumSplit(s, row, skip, |s|);
    XorCancel(RowSum(s, row, skip, |s|), s[skip][row]);
  }

  lemma PutSum(s: Disks, row: nat, d: nat, x: Block)
    requires d < |s| && forall e :: 0 <= e < |s| ==> row < |s[e]|
    ensures RowSum(Put(s, d, row, x), row, NoDisk, |s|)
         == Xor(Xor(RowSum(s, row, NoDisk, |s|), s[d][row]), x)
  {
    var t := Put(s, d, row, x);
    RowSumSplit(s, row, d, |s|);
    RowSumSplit(t, row, d, |s|);
    RowSumFrame(s, t, row, d, |s|);
    XorSwap(RowSum(s, row, d, |s|), s[d][row], x);
  }

  // ---------------------------------------------------------------- the engine's steps

  /** An existing array of level `l`: at least two disks, at least one row besides the metadata. */
  ghost predicate Ready(l: Level, s: Disks) {
    && |s| >= 2 && |s[0]| >= 2
    && Formatted(s, KindOf(l), |s|, |s[0]|)
  }

  /** One engine call, or a failed disk losing its data. Disk numbers count from 1, as in the calls. */
  datatype Event =
    | Read(b: nat)
    | Write(b: nat, x: Block)
    | Fail(diskn: int, junk: Block)
    | Repair(diskn: int, junk: Block)
    | Damage(d: nat, blocks: seq<Block>)

  predicate OthersUp(s: Disks, skip: int)
    requires forall d :: 0 <= d < |s| ==> |s[d]| > 0
  {
    forall d :: 0 <= d < |s| && d != skip ==> Up(s, d)
  }

  function ReadReply(l: Level, s: Disks, b: nat): Reply
    requires Ready(l, s)
  {
    var d, row := DataDisk(l, |s|, b), Row(|s|, b);
    if row > |s[0]| - 1 then Reply(-1, [])
    else if Up(s, d) then Reply(0, s[d][row])
    else if OthersUp(s, d) then Reply(0, RowSum(s, row, d, |s|))
    else Reply(-2, [])
  }

  /** Store `x` and the parity obtained by taking the old data out of the old parity and adding the new. */
  function ReadModifyWrite(l: Level, s: Disks, b: nat, x: Block): Disks
    requires |s| >= 2 && Shaped(s, |s|, |s[0]|) && Row(|s|, b) < |s[0]|
  {
    var d, p, row := DataDisk(l, |s|, b), ParityDisk(l, |s|, Stripe(|s|, b)), Row(|s|, b);
    Put(Put(s, d, row, x), p, row, Xor(Xor(s[p][row], s[d][row]), x))
  }

  function WriteStep(l: Level, s: Disks, b: nat, x: Block): (Disks, Reply)
    requires Ready(l, s)
  {
    var d, p, row := DataDisk(l, |s|, b), ParityDisk(l, |s|, Stripe(|s|, b)), Row(|s|, b);
    if row > |s[0]| - 1 then (s, Reply(-1, []))
    else if l.Dedicated? && !Up(s, d) then (s, Reply(-2, []))
    else if l.Dedicated? && !Up(s, p) then (s, Reply(0, []))
    else (ReadModifyWrite(l, s, b, x), Reply(0, []))
  }

  function FailStep(l: Level, s: Disks, diskn: int, junk: Block): (Disks, Reply)
    requires Ready(l, s)
  {
    if diskn < 1 || diskn > |s| then (s, Reply(-1, []))
    else (SetFlag(s, diskn - 1, KindOf(l), 0, junk), Reply(0, []))
  }

  /** Disk `d` with rows `1..k` recomputed from the other disks. */
  function RebuiltDisk(s: Disks, d: nat, k: nat): (r: seq<Block>)
    requires d < |s| && Shaped(s, |s|, |s[d]|) && k <= |s[d]|
    ensures |r| == |s[d]|
  {
    seq(|s[d]|, row requires 0 <= row < |s[d]| =>
      if 1 <= row < k then RowSum(s, row, d, |s|) else s[d][row])
  }

  function Rebuilt(s: Disks, d: nat, k: nat): (t: Disks)
    requires d < |s| && Shaped(s, |s|, |s[d]|) && k <= |s[d]|
    ensures Shaped(t, |s|, |s[d]|)
  {
    s[d := RebuiltDisk(s, d, k)]
  }

  /** How the rebuilding loop starts and goes on: rows already rebuilt do not enter later sums. */
  lemma RebuildStep(s: Disks, d: nat, k: nat)
    requires d < |s| && Shaped(s, |s|, |s[d]|) && 1 <= k <= |s[d]|
    ensures Rebuilt(s, d, 1) == s
    ensures forall e :: 0 <= e < |s| ==> Rebuilt(s, d, k)[e][0] == s[e][0]
    ensures OthersUp(Rebuilt(s, d, k), d) == OthersUp(s, d)
    ensures k < |s[d]| ==>
              && RowSum(Rebuilt(s, d, k), k, d, |s|) == RowSum(s, k, d, |s|)
              && Put(Rebuilt(s, d, k), d, k, RowSum(s, k, d, |s|)) == Rebuilt(s, d, k + 1)
  {
    assert Rebuilt(s, d, 1)[d] == s[d];
    assert forall e :: 0 <= e < |s| ==> Up(Rebuilt(s, d, k), e) == Up(s, e);
    if k < |s[d]| {
      RowSumFrame(s, Rebuilt(s, d, k), k, d, |s|);
      assert Put(Rebuilt(s, d, k), d, k, RowSum(s, k, d, |s|))[d] == Rebuilt(s, d, k + 1)[d];
    }
  }

  function RepairStep(l: Level, s: Disks, diskn: int, junk: Block): (Disks, Reply)
    requires Ready(l, s)
  {
    if diskn < 1 || diskn > |s| then (s, Reply(-1, []))
    else if l.Dedicated? && diskn != |s| && !Up(s, |s| - 1) then (s, Reply(-2, []))
    else if l.Rotating? && Up(s, diskn - 1) then (s, Reply(0, []))
    else if !OthersUp(s, diskn - 1) then (s, Reply(-3, []))
    else (SetFlag(Rebuilt(s, diskn - 1, |s[0]|), diskn - 1, KindOf(l), 1, junk), Reply(0, []))
  }

  /** A disk that does not work may come to hold anything outside its metadata. */
  function DamageStep(l: Level, s: Disks, d: nat, blocks: seq<Block>): Disks
    requires Ready(l, s)
  {
    if d < |s| && !Up(s, d) && |blocks| == |s[0]| - 1 then s[d := [s[d][0]] + blocks] else s
  }

  function Step(l: Level, s: Disks, e: Event): (Disks, Reply)
    requires Ready(l, s)
  {
    match e
    case Read(b) => (s, ReadReply(l, s, b))
    case Write(b, x) => WriteStep(l, s, b, x)
    case Fail(diskn, junk) => FailStep(l, s, diskn, junk)
    case Repair(diskn, junk) => RepairStep(l, s, diskn, junk)
    case Damage(d, blocks) => (DamageStep(l, s, d, blocks), Reply(0, []))
  }

  /** A repair that rebuilds sets the flag, recomputes rows from 1 on and changes nothing else. */
  lemma RepairResult(l: Level, s: Disks, diskn: int, junk: Block)
    requires Ready(l, s) && 1 <= diskn <= |s|
    ensures var t, d := SetFlag(Rebuilt(s, diskn - 1, |s[0]|), diskn - 1, KindOf(l), 1, junk), diskn - 1;
            && Ready(l, t) && |t| == |s| && |t[0]| == |s[0]|
            && (forall e :: 0 <= e < |s| && e != d ==> t[e] == s[e])
            && Up(t, d)
            && (forall row :: 1 <= row < |s[0]| ==> t[d][row] == RowSum(s, row, d, |s|))
  {
    var d := diskn - 1;
    var m := Rebuilt(s, d, |s[0]|);
    assert Formatted(m, KindOf(l), |s|, |s[0]|);
    SetFlagFormatted(m, d, KindOf(l), true, junk, |s|, |s[0]|);
    var t := SetFlag(m, d, KindOf(l), 1, junk);
    forall row | 1 <= row < |s[0]| ensures t[d][row] == RowSum(s, row, d, |s|) {
      assert t[d][row] == t[d][1..][row - 1] == m[d][1..][row - 1];
    }
  }

  lemma FailResult(l: Level, s: Disks, diskn: int, junk: Block)
    requires Ready(l, s)
    ensures var t := FailStep(l, s, diskn, junk).0;
            && Ready(l, t) && |t| == |s| && |t[0]| == |s[0]|
            && (forall e, row :: 0 <= e < |s| && 1 <= row < |s[0]| ==> t[e][row] == s[e][row])
            && (forall e :: 0 <= e < |s| ==> Up(t, e) == (Up(s, e) && e != diskn - 1))
            && (forall e :: 0 <= e < |s| && e != diskn - 1 ==> t[e] == s[e])
  {
    if 1 <= diskn <= |s| {
      SetFlagFormatted(s, diskn - 1, KindOf(l), false, junk, |s|, |s[0]|);
    }
  }

  /** Writes and damage stay clear of block 0. */
  lemma DataResult(l: Level, s: Disks, e: Event)
    requires Ready(l, s) && (e.Write? || e.Damage?)
    ensures var t := Step(l, s, e).0;
            && Ready(l, t) && |t| == |s| && |t[0]| == |s[0]|
            && (forall d :: 0 <= d < |s| ==> t[d][0] == s[d][0] && Up(t, d) == Up(s, d))
  {
    hide Decode, Xor, RowSum, DataDisk, ParityDisk, Stripe;
  }

  /** Every step keeps the disks formatted for their level, whatever their contents. */
  lemma StepReady(l: Level, s: Disks, e: Event)
    requires Ready(l, s)
    ensures Ready(l, Step(l, s, e).0)
    ensures |Step(l, s, e).0| == |s| && |Step(l, s, e).0[0]| == |s[0]|
  {
    match e
    case Read(_) =>
    case Write(_, _) => DataResult(l, s, e);
    case Fail(diskn, junk) => FailResult(l, s, diskn, junk);
    case Repair(diskn, junk) =>
      if 1 <= diskn <= |s| {
        RepairResult(l, s, diskn, junk);
      }
    case Damage(_, _) => DataResult(l, s, e);
  }

  // ---------------------------------------------------------------- the plain array behind the disks

  ghost predicate ZeroRows(s: Disks, n: nat, nb: nat) {
    Shaped(s, n, nb) && forall row :: 1 <= row < nb ==> RowSum(s, row, NoDisk, n) == ZeroBlock()
  }

  /** `a` is the plain array of blocks laid out on the disks `s`. */
  ghost predicate Represents(l: Level, s: Disks, n: nat, nb: nat, a: seq<Block>) {
    && n >= 2 && nb >= 1 && Shaped(s, n, nb)
    && |a| == Capacity(n, nb)
    && forall b :: 0 <= b < |a| ==> Row(n, b) < nb && a[b] == s[DataDisk(l, n, b)][Row(n, b)]
  }

  /** Every working disk holds its share of `ideal`, a consistent layout of the plain array `a`. */
  ghost predicate Inv(l: Level, s: Disks, ideal: Disks, a: seq<Block>) {
    && Ready(l, s)
    && ZeroRows(ideal, |s|, |s[0]|)
    && Represents(l, ideal, |s|, |s[0]|, a)
    && forall d, row :: 0 <= d < |s| && 1 <= row < |s[0]| && Up(s, d) ==> s[d][row] == ideal[d][row]
  }

  /** No read that reports success delivers anything but the plain array's block. */
  lemma ReadCorrect(l: Level, s: Disks, ideal: Disks, a: seq<Block>, b: nat)
    requires Inv(l, s, ideal, a)
    ensures var r := ReadReply(l, s, b);
            r.code == 0 ==> b < |a| && r.data == a[b]
  {
    AcceptedIff(|s|, |s[0]|, b);
    var d, row := DataDisk(l, |s|, b), Row(|s|, b);
    if row < |s[0]| && !Up(s, d) && OthersUp(s, d) {
      RowSumFrame(s, ideal, row, d, |s|);
      Recoverable(ideal, row, d);
    }
  }

  /** Updating data and parity together keeps the rows balanced and changes one block of the array. */
  lemma WriteIdeal(l: Level, ideal: Disks, n: nat, nb: nat, a: seq<Block>, b: nat, x: Block)
    requires n >= 2 && nb >= 2 && ZeroRows(ideal, n, nb) && Represents(l, ideal, n, nb, a) && b < |a|
    ensures var t := ReadModifyWrite(l, ideal, b, x);
            ZeroRows(t, n, nb) && Represents(l, t, n, nb, a[b := x])
  {
    var d, p, row := DataDisk(l, n, b), ParityDisk(l, n, Stripe(n, b)), Row(n, b);
    var mid, t := Put(ideal, d, row, x), ReadModifyWrite(l, ideal, b, x);
    WriteBalanced(ideal, d, p, row, x);
    forall r | 1 <= r < nb
      ensures RowSum(t, r, NoDisk, n) == ZeroBlock()
    {
      if r != row {
        RowSumFrame(ideal, t, r, NoDisk, n);
      }
    }
    forall c | 0 <= c < |a|
      ensures a[b := x][c] == t[DataDisk(l, n, c)][Row(n, c)]
    {
      AddressRoundTrip(l, n, b);
      AddressRoundTrip(l, n, c);
    }
  }

  lemma WriteBalanced(s: Disks, d: nat, p: nat, row: nat, x: Block)
    requires d < |s| && p < |s| && d != p && forall e :: 0 <= e < |s| ==> row < |s[e]|
    requires RowSum(s, row, NoDisk, |s|) == ZeroBlock()
    ensures RowSum(Put(Put(s, d, row, x), p, row, Xor(Xor(s[p][row], s[d][row]), x)), row, NoDisk, |s|) == ZeroBlock()
  {
    var od, op := s[d][row], s[p][row];
    var np := Xor(Xor(op, od), x);
    PutSum(s, row, d, x);
    PutSum(Put(s, d, row, x), row, p, np);
    // the sum is ((0 + od) + x) + op + ((op + od) + x)
    XorUnit(od);
    XorComm(Xor(od, x), op);
    XorAssoc(op, od, x);
    XorUnit(np);
  }
}
