/** RAID 0: striping without redundancy, metadata on the first disk only. */
module StripeRaid {
  import opened Arith
  import opened Blocks
  import opened RaidMeta

  /** Disks of one size, with room for the record; the engine keeps serving them whatever level is on them. */
  ghost predicate Sized(s: Disks) {
    |s| >= 1 && |s[0]| >= 1 && Shaped(s, |s|, |s[0]|)
  }

  /** The record on the first disk says RAID 0, so that a restart finds the array again. */
  ghost predicate Ready(s: Disks) {
    Sized(s) && Decode(s[0][0]).kind == Raid0
  }

  // ---------------------------------------------------------------- addresses

  function DiskOf(n: nat, b: nat): (d: nat)
    requires n >= 1
    ensures d < n
  {
    b % n
  }

  /** The first disk's rows are shifted by one to spare its block 0. */
  function Row(n: nat, b: nat): nat
    requires n >= 1
  {
    if b % n == 0 then b / n + 1 else b / n
  }

  predicate Accepted(n: nat, nb: nat, b: nat)
    requires n >= 1
  {
    Row(n, b) <= nb - 1
  }

  /** What `info_raid0` reports as the number of blocks. */
  function Capacity(n: nat, nb: nat): int {
    n * nb - 1
  }

  function BlockAt(n: nat, d: nat, row: nat): nat
    requires d < n && (d == 0 ==> row >= 1)
  {
    (if d == 0 then row - 1 else row) * n + d
  }

  /** The accepted numbers run up to `n * nb - 1` and leave out exactly `(nb - 1) * n`. */
  lemma AcceptedIff(n: nat, nb: nat, b: nat)
    requires n >= 1 && nb >= 1
    ensures Accepted(n, nb, b) <==> b < nb * n && b != (nb - 1) * n
  {
    DivLess(b, n, nb);
    DivModSplit(b, n);
    MulStep(nb - 1, n);
    if b / n == nb - 1 && b % n == 0 {
      assert b == (nb - 1) * n;
    } else if b == (nb - 1) * n {
      DivModUnique(b, nb - 1, 0, n);
    }
  }

  /** The reported number of blocks is right, but not every number below it is accepted:
      that holds only for a single disk. */
  lemma ReportedRangeIff(n: nat, nb: nat)
    requires n >= 1 && nb >= 1
    ensures (forall b: nat :: b < Capacity(n, nb) ==> Accepted(n, nb, b)) <==> n == 1
    ensures n >= 2 ==> (nb - 1) * n < Capacity(n, nb) && !Accepted(n, nb, (nb - 1) * n)
  {
    MulStep(nb - 1, n);
    MulMono(0, nb - 1, n);
    var gap: nat := (nb - 1) * n;
    AcceptedIff(n, nb, gap);
    if n == 1 {
      forall b: nat | b < Capacity(n, nb) ensures Accepted(n, nb, b) {
        AcceptedIff(n, nb, b);
      }
    } else {
      assert gap < Capacity(n, nb);
    }
  }

  lemma AcceptedCount(n: nat, nb: nat)
    requires n >= 1 && nb >= 1
    ensures |set b: nat | b < nb * n && Accepted(n, nb, b)| == Capacity(n, nb)
  {
    MulStep(nb - 1, n);
    MulMono(0, nb - 1, n);
    var gap: nat := (nb - 1) * n;
    var acc := set b: nat | b < nb * n && Accepted(n, nb, b);
    forall b: nat | b < nb * n ensures Accepted(n, nb, b) <==> b != gap {
      AcceptedIff(n, nb, b);
    }
    assert acc == Below(nb * n) - {gap};
  }

  function Below(k: nat): (r: set<nat>)
    ensures |r| == k && forall b: nat :: b in r <==> b < k
  {
    if k == 0 then {} else Below(k - 1) + {k - 1}
  }

  /** Accepted numbers map one-to-one onto all blocks but the first disk's block 0. */
  lemma AddressRoundTrip(n: nat, b: nat)
    requires n >= 1
    ensures DiskOf(n, b) == 0 ==> Row(n, b) >= 1
    ensures BlockAt(n, DiskOf(n, b), Row(n, b)) == b
  {
    DivModSplit(b, n);
  }

  lemma LocationRoundTrip(n: nat, nb: nat, d: nat, row: nat)
    requires d < n && row < nb && (d == 0 ==> row >= 1)
    ensures var b := BlockAt(n, d, row);
            Accepted(n, nb, b) && DiskOf(n, b) == d && Row(n, b) == row
  {
    DivModUnique(BlockAt(n, d, row), if d == 0 then row - 1 else row, d, n);
  }

  /** Consecutive blocks go round the disks from the first on, one row for each round. */
  lemma RoundRobin(n: nat, b: nat)
    requires n >= 1
    ensures DiskOf(n, 0) == 0 && Row(n, 0) == 1
    ensures DiskOf(n, b + 1) == if DiskOf(n, b) + 1 == n then 0 else DiskOf(n, b) + 1
    ensures DiskOf(n, b + n) == DiskOf(n, b) && Row(n, b + n) == Row(n, b) + 1
  {
    DivModSplit(b, n);
    var q, r := b / n, b % n;
    MulStep(q, n);
    DivModUnique(b + n, q + 1, r, n);
    if r + 1 == n {
      DivModUnique(b + 1, q + 1, 0, n);
    } else {
      DivModUnique(b + 1, q, r + 1, n);
    }
  }

  // ---------------------------------------------------------------- the engine's steps

  datatype Event =
    | Read(b: nat)
    | Write(b: nat, x: Block)
    | Fail(diskn: int, cached: Kind, junk: Block)
    | Repair(diskn: int)

  function ReadReply(s: Disks, b: nat): Reply
    requires Sized(s)
  {
    if Decode(s[0][0]).working == 0 || !Accepted(|s|, |s[0]|, b) then Reply(-1, [])
    else Reply(0, s[DiskOf(|s|, b)][Row(|s|, b)])
  }

  function WriteStep(s: Disks, b: nat, x: Block): (Disks, Reply)
    requires Sized(s)
  {
    if Decode(s[0][0]).working == 0 || !Accepted(|s|, |s[0]|, b) then (s, Reply(-1, []))
    else (Put(s, DiskOf(|s|, b), Row(|s|, b), x), Reply(0, []))
  }

  /** `cached` is the level held in the metadata cache, which this call writes out without loading it first. */
  function FailStep(s: Disks, diskn: int, cached: Kind, junk: Block): (Disks, Reply)
    requires |s| >= 1 && |s[0]| >= 1
  {
    if diskn < 1 || diskn > |s| then (s, Reply(-1, []))
    else (SetFlag(s, 0, cached, 0, junk), Reply(0, []))
  }

  function Step(s: Disks, e: Event): (Disks, Reply)
    requires Sized(s)
  {
    match e
    case Read(b) => (s, ReadReply(s, b))
    case Write(b, x) => WriteStep(s, b, x)
    case Fail(diskn, cached, junk) => FailStep(s, diskn, cached, junk)
    case Repair(_) => (s, Reply(-1, []))
  }

  lemma StepSized(s: Disks, e: Event)
    requires Sized(s)
    ensures var t := Step(s, e).0; Sized(t) && |t| == |s| && |t[0]| == |s[0]|
    ensures e.Write? ==> Step(s, e).0[0][0] == s[0][0]
    ensures e.Fail? && 1 <= e.diskn <= |s| ==> Decode(Step(s, e).0[0][0]).working == 0
  {
    if e.Fail? {
      DecodeEncode(RaidData(e.cached, 0), e.junk);
    }
  }

  /** A write succeeds exactly on a working array and at an accepted number, is then read back, and leaves
      every other block as it was; refused, it changes nothing. */
  lemma WritableIff(s: Disks, b: nat, x: Block, c: nat)
    requires Sized(s)
    ensures var (t, r) := WriteStep(s, b, x);
            && Sized(t)
            && (r.code == 0 <==>
                Decode(s[0][0]).working != 0 && b < |s[0]| * |s| && b != (|s[0]| - 1) * |s|)
            && (r.code == 0 ==> ReadReply(t, b) == Reply(0, x))
            && (r.code != 0 || c != b ==> ReadReply(t, c) == ReadReply(s, c))
  {
    hide Decode;
    StepSized(s, Write(b, x));
    AcceptedIff(|s|, |s[0]|, b);
    AddressRoundTrip(|s|, b);
    AddressRoundTrip(|s|, c);
  }

  /** A failure is taken note of exactly for a disk that exists, and no repair is. */
  lemma FailedIff(s: Disks, diskn: int, cached: Kind, junk: Block)
    requires Sized(s)
    ensures FailStep(s, diskn, cached, junk).1.code == 0 <==> 1 <= diskn <= |s|
    ensures Step(s, Repair(diskn)).1.code != 0 && Step(s, Repair(diskn)).0 == s
    ensures Decode(FailStep(s, diskn, cached, junk).0[0][0]).working
         == if 1 <= diskn <= |s| then 0 else Decode(s[0][0]).working
  {
    StepSized(s, Fail(diskn, cached, junk));
  }

  /** Failing a disk keeps the array recognisable exactly when the cached level was the real one:
      straight after a restart the cache is empty and block 0 is overwritten with no level at all. */
  lemma FailKeepsLevelIff(s: Disks, diskn: int, cached: Kind, junk: Block)
    requires Sized(s) && 1 <= diskn <= |s|
    ensures Ready(FailStep(s, diskn, cached, junk).0) <==> cached == Raid0
  {
    DecodeEncode(RaidData(cached, 0), junk);
    var t := FailStep(s, diskn, cached, junk).0;
    assert Shaped(t, |t|, |t[0]|);
  }

  // ---------------------------------------------------------------- runs

  /** Every block written since initialisation is on its disk. */
  ghost predicate Inv(s: Disks, m: map<nat, Block>) {
    && Sized(s)
    && forall b :: b in m ==> Accepted(|s|, |s[0]|, b) && s[DiskOf(|s|, b)][Row(|s|, b)] == m[b]
  }

  function Effect(s: Disks, m: map<nat, Block>, e: Event): map<nat, Block>
    requires Sized(s)
  {
    if e.Write? && WriteStep(s, e.b, e.x).1.code == 0 then m[e.b := e.x] else m
  }

  ghost predicate ReadsLastWrites(s: Disks, m: map<nat, Block>, es: seq<Event>)
    requires Sized(s)
    decreases |es|
  {
    es == [] ||
    (var (t, r) := Step(s, es[0]);
     StepSized(s, es[0]);
     && (es[0].Read? && r.code == 0 && es[0].b in m ==> r.data == m[es[0].b])
     && ReadsLastWrites(t, Effect(s, m, es[0]), es[1..]))
  }

  lemma StepKeeps(s: Disks, m: map<nat, Block>, e: Event)
    requires Inv(s, m)
    ensures Inv(Step(s, e).0, Effect(s, m, e))
  {
    StepSized(s, e);
    var t := Step(s, e).0;
    forall b | b in Effect(s, m, e)
      ensures Accepted(|s|, |s[0]|, b) && t[DiskOf(|s|, b)][Row(|s|, b)] == Effect(s, m, e)[b]
    {
      AddressRoundTrip(|s|, b);
      if e.Write? {
        AddressRoundTrip(|s|, e.b);
      }
    }
  }

  lemma {:induction false} StripeReadsLastWrites(s: Disks, m: map<nat, Block>, es: seq<Event>)
    requires Inv(s, m)
    ensures ReadsLastWrites(s, m, es)
    decreases |es|
  {
    if es != [] {
      StepSized(s, es[0]);
      StepKeeps(s, m, es[0]);
      StripeReadsLastWrites(Step(s, es[0]).0, Effect(s, m, es[0]), es[1..]);
    }
  }

  function After(s: Disks, es: seq<Event>): (t: Disks)
    requires Sized(s)
    ensures Sized(t) && |t| == |s|
    decreases |es|
  {
    if es == [] then s
    else
      StepSized(s, es[0]);
      After(Step(s, es[0]).0, es[1..])
  }

  predicate Fails(n: nat, es: seq<Event>) {
    exists i :: 0 <= i < |es| && es[i].Fail? && 1 <= es[i].diskn <= n
  }

  /** After any run the accepted blocks can be read exactly if the array worked and no disk has failed since. */
  lemma {:induction false} ReadableIff(s: Disks, es: seq<Event>, b: nat)
    requires Sized(s)
    ensures |After(s, es)[0]| == |s[0]|
    ensures ReadReply(After(s, es), b).code == 0 <==>
              Decode(s[0][0]).working != 0 && !Fails(|s|, es) && Accepted(|s|, |s[0]|, b)
    decreases |es|
  {
    hide Decode, Encode;
    if es != [] {
      StepSized(s, es[0]);
      ReadableIff(Step(s, es[0]).0, es[1..], b);
      assert Fails(|s|, es) <==> (es[0].Fail? && 1 <= es[0].diskn <= |s|) || Fails(|s|, es[1..]) by {
        if Fails(|s|, es[1..]) {
          var i :| 0 <= i < |es[1..]| && es[1..][i].Fail? && 1 <= es[1..][i].diskn <= |s|;
          assert es[i + 1] == es[1..][i];
        }
        if Fails(|s|, es) {
          var i :| 0 <= i < |es| && es[i].Fail? && 1 <= es[i].diskn <= |s|;
          assert i > 0 ==> es[i] == es[1..][i - 1];
        }
      }
    }
  }

  /** One failed disk takes the array down for good: every later read and write is refused. */
  lemma {:induction false} FailurePermanent(s: Disks, es: seq<Event>, b: nat, x: Block)
    requires Sized(s) && Decode(s[0][0]).working == 0
    ensures var t := After(s, es);
            ReadReply(t, b) == Reply(-1, []) && WriteStep(t, b, x) == (t, Reply(-1, []))
    decreases |es|
  {
    if es != [] {
      StepSized(s, es[0]);
      FailurePermanent(Step(s, es[0]).0, es[1..], b, x);
    }
  }
}
