/** The RAID engine itself: shared state, loops over disks and blocks, and the five levels' calls.
    Each call is proved against the step functions of StripeRaid, MirrorRaid and ParityRaid. */
module RaidDevice {
  import opened Params
  import opened Blocks
  import opened RaidMeta
  import P = ParityRaid
  import M = MirrorRaid
  import Z = StripeRaid

  /** Adds one block into another, byte by byte. */
  method CalculateParity(data: array<bv8>, parity: array<bv8>)
    requires data.Length == BSIZE && parity.Length == BSIZE && data != parity
    modifies parity
    ensures parity[..] == Xor(old(parity[..]), data[..])
  {
    for i := 0 to BSIZE
      invariant forall k :: 0 <= k < i ==> parity[k] == old(parity[k]) ^ data[k]
      invariant forall k :: i <= k < BSIZE ==> parity[k] == old(parity[k])
    {
      parity[i] := parity[i] ^ data[i];
    }
    assert parity[..] == Xor(old(parity[..]), data[..]);
  }

  method Serialize(data: seq<bv8>, buffer: array<bv8>)
    requires |data| <= buffer.Length
    modifies buffer
    ensures buffer[..|data|] == data && buffer[|data|..] == old(buffer[|data|..])
  {
    for i := 0 to |data|
      invariant buffer[..i] == data[..i]
      invariant buffer[|data|..] == old(buffer[|data|..])
    {
      buffer[i] := data[i];
    }
  }

  method Clear(data: array<bv8>)
    requires data.Length == BSIZE
    modifies data
    ensures data[..] == ZeroBlock()
  {
    forall i | 0 <= i < BSIZE {
      data[i] := 0;
    }
  }

  /** The disks carry a well-formed array of the given level; RAID 0 asks nothing of them but their size. */
  ghost predicate Usable(kind: Kind, s: Disks) {
    match kind
    case NoRaid => true
    case Raid0 => Z.Sized(s)
    case Raid1 => M.Ready(M.Full, s)
    case Raid01 => M.Ready(M.Pairs, s)
    case Raid4 => P.Ready(P.Dedicated, s)
    case Raid5 => P.Ready(P.Rotating, s)
  }

  /** The disks a level is initialised on. */
  predicate Enough(kind: Kind, n: nat) {
    match kind
    case NoRaid => false
    case Raid0 => true
    case Raid1 => n >= 2
    case Raid01 => n % 2 == 0 && n >= 4
    case Raid4 => n >= 2
    case Raid5 => true
  }

  function ReadOf(kind: Kind, s: Disks, b: nat): Reply
    requires Usable(kind, s)
  {
    match kind
    case NoRaid => Reply(-1, [])
    case Raid0 => Z.ReadReply(s, b)
    case Raid1 => M.ReadReply(M.Full, s, b)
    case Raid01 => M.ReadReply(M.Pairs, s, b)
    case Raid4 => P.ReadReply(P.Dedicated, s, b)
    case Raid5 => P.ReadReply(P.Rotating, s, b)
  }

  function WriteOf(kind: Kind, s: Disks, b: nat, x: Block): (Disks, Reply)
    requires Usable(kind, s)
  {
    match kind
    case NoRaid => (s, Reply(-1, []))
    case Raid0 => Z.WriteStep(s, b, x)
    case Raid1 => M.WriteStep(M.Full, s, b, x)
    case Raid01 => M.WriteStep(M.Pairs, s, b, x)
    case Raid4 => P.WriteStep(P.Dedicated, s, b, x)
    case Raid5 => P.WriteStep(P.Rotating, s, b, x)
  }

  /** `cached` is the level in the first cache entry, which only RAID 0 uses. */
  function FailOf(kind: Kind, s: Disks, diskn: int, cached: Kind, junk: Block): (Disks, Reply)
    requires Usable(kind, s)
  {
    match kind
    case NoRaid => (s, Reply(-1, []))
    case Raid0 => Z.FailStep(s, diskn, cached, junk)
    case Raid1 => M.FailStep(M.Full, s, diskn, junk)
    case Raid01 => M.FailStep(M.Pairs, s, diskn, junk)
    case Raid4 => P.FailStep(P.Dedicated, s, diskn, junk)
    case Raid5 => P.FailStep(P.Rotating, s, diskn, junk)
  }

  /** RAID 4 asks the cache, not the disk, whether the parity disk works: `parity` is its cache entry.
      A stale entry that says it works lets the rebuild start, which then gives up on the disk's own flag. */
  function Repair4(s: Disks, diskn: int, parity: RaidData, junk: Block): (Disks, Reply)
    requires P.Ready(P.Dedicated, s)
  {
    if 1 <= diskn < |s| && parity.working == 0 then (s, Reply(-2, []))
    else if 1 <= diskn < |s| && !Up(s, |s| - 1) then (s, Reply(-3, []))
    else P.RepairStep(P.Dedicated, s, diskn, junk)
  }

  /** The call is the level's repair exactly when the entry tells the truth about the parity disk, or is not asked. */
  lemma Repair4Iff(s: Disks, diskn: int, parity: RaidData, junk: Block)
    requires P.Ready(P.Dedicated, s)
    ensures Repair4(s, diskn, parity, junk) == P.RepairStep(P.Dedicated, s, diskn, junk) <==>
              !(1 <= diskn < |s|) || (parity.working == 0 <==> !Up(s, |s| - 1))
  {
  }

  function RepairOf(kind: Kind, s: Disks, diskn: int, parity: RaidData, junk: Block): (Disks, Reply)
    requires Usable(kind, s) && (kind.Raid01? ==> 1 <= diskn <= |s|)
  {
    match kind
    case NoRaid => (s, Reply(-1, []))
    case Raid0 => (s, Reply(-1, []))
    case Raid1 => M.RepairStep(M.Full, s, diskn, junk)
    case Raid01 => M.RepairStep(M.Pairs, s, diskn, junk)
    case Raid4 => Repair4(s, diskn, parity, junk)
    case Raid5 => P.RepairStep(P.Rotating, s, diskn, junk)
  }

  class Device {
    const N: nat    // number of RAID disks
    const NB: nat   // blocks per disk

    var disks: Disks
    var cache: seq<RaidData>
    var cacheLoaded: bool
    var raid: RaidData
    var locked: bool

    ghost predicate Valid()
      reads this
    {
      && N >= 1 && NB >= 2 && Shaped(disks, N, NB) && |cache| == N
      && (raid.working == 1 ==> !raid.kind.NoRaid?)
    }

    /** The metadata cache agrees with block 0 of every disk. */
    ghost predicate Coherent()
      reads this
    {
      Valid() && forall d :: 0 <= d < N ==> cache[d] == Decode(disks[d][0])
    }

    /** A cache that counts as loaded is coherent; RAID 0 keeps a record on the first disk only. */
    ghost predicate Synced(kind: Kind)
      reads this
    {
      && Valid()
      && (cacheLoaded && kind.Raid0? ==> cache[0] == Decode(disks[0][0]))
      && (cacheLoaded && !kind.Raid0? ==> Coherent())
    }

    ghost predicate Ready(kind: Kind)
      reads this
    {
      Synced(kind) && Usable(kind, disks)
    }

    /** The level calls act on: the one the engine remembers, or else the one on the first disk. */
    function Level(): Kind
      requires Valid()
      reads this
    {
      if raid.working == 1 then raid.kind else Decode(disks[0][0]).kind
    }

    /** The block 0 a call left behind, with whatever its buffer held past the record. */
    ghost function Header(diskn: int): Block
      requires Valid()
      reads this
    {
      if 1 <= diskn <= N then disks[diskn - 1][0] else ZeroBlock()
    }

    /** Freshly started kernel: disks as found, nothing cached. */
    constructor (images: Disks, n: nat, nb: nat)
      requires n >= 1 && nb >= 2 && Shaped(images, n, nb)
      ensures Valid() && N == n && NB == nb && disks == images
      ensures !cacheLoaded && raid == RaidData(NoRaid, 0) && !locked
      ensures forall d :: 0 <= d < n ==> cache[d] == RaidData(NoRaid, 0)
    {
      N, NB, disks := n, nb, images;
      cache := seq(n, _ => RaidData(NoRaid, 0));
      cacheLoaded, raid, locked := false, RaidData(NoRaid, 0), false;
    }

    /** A restart forgets everything but the disks: from then on the level is the recorded one. */
    method Reboot()
      requires Valid()
      modifies this`cache, this`cacheLoaded, this`raid, this`locked
      ensures Valid() && !locked && !cacheLoaded && raid.working == 0 && Level() == Decode(disks[0][0]).kind
      ensures forall kind :: Usable(kind, disks) ==> Ready(kind)
      ensures forall d :: 0 <= d < N ==> cache[d] == RaidData(NoRaid, 0)
    {
      cache := seq(N, _ => RaidData(NoRaid, 0));
      cacheLoaded, raid, locked := false, RaidData(NoRaid, 0), false;
    }

    /** A disk that does not work may come to hold anything outside its metadata. */
    method LoseDisk(d: nat, blocks: seq<Block>)
      requires Valid()
      modifies this`disks
      ensures Valid() && |disks| == |old(disks)|
      ensures disks == if d < N && !Up(old(disks), d) && |blocks| == NB - 1
                       then old(disks)[d := [old(disks)[d][0]] + blocks] else old(disks)
      ensures forall e :: 0 <= e < N ==> disks[e][0] == old(disks)[e][0]
    {
      if d < N && !Up(disks, d) && |blocks| == NB - 1 {
        disks := disks[d := [disks[d][0]] + blocks];
      }
    }

    // -------------------------------------------------------------- blocks and metadata

    method ReadBlock(diskn: int, blockn: int, data: array<bv8>)
      requires Valid() && 1 <= diskn <= N && 0 <= blockn < NB && data.Length == BSIZE
      modifies data
      ensures data[..] == disks[diskn - 1][blockn]
    {
      var b := disks[diskn - 1][blockn];
      forall i | 0 <= i < BSIZE {
        data[i] := b[i];
      }
    }

    method WriteBlock(diskn: int, blockn: int, data: array<bv8>)
      requires Valid() && 1 <= diskn <= N && 0 <= blockn < NB && data.Length == BSIZE
      modifies this`disks
      ensures Valid() && disks == Put(old(disks), diskn - 1, blockn, data[..])
    {
      disks := Put(disks, diskn - 1, blockn, data[..]);
    }

    method LoadRaidDataCache(ghost kind: Kind)
      requires Synced(kind)
      modifies this`cache
      ensures Synced(kind)
      ensures if kind.Raid0? then cache[0] == Decode(disks[0][0]) else Coherent()
      ensures cacheLoaded ==> cache == old(cache)
    {
      if cacheLoaded {
        return;
      }
      var buffer := new bv8[BSIZE];
      for i := 1 to N + 1
        invariant Valid()
        invariant forall d :: 0 <= d < i - 1 ==> cache[d] == Decode(disks[d][0])
      {
        ReadBlock(i, 0, buffer);
        cache := cache[i - 1 := Decode(buffer[..])];
      }
    }

    /** Write a disk's cache entry to its block 0; the rest of the buffer is not initialised. */
    method StoreRecord(diskn: int)
      requires Valid() && 1 <= diskn <= N
      modifies this`disks
      ensures Valid() && Decode(disks[diskn - 1][0]) == cache[diskn - 1]
      ensures disks == SetFlag(old(disks), diskn - 1, cache[diskn - 1].kind, cache[diskn - 1].working, Header(diskn))
    {
      var buffer := new bv8[BSIZE];
      Serialize(RecordBytes(cache[diskn - 1]), buffer);
      WriteBlock(diskn, 0, buffer);
      EncodeSelf(cache[diskn - 1], buffer[..]);
    }

    /** A disk whose contents have been restored is entered as working, in the cache and on itself. */
    method MarkWorking(ghost kind: Kind, diskn: int)
      requires Valid() && 1 <= diskn <= N && cache[diskn - 1].kind == kind
      requires forall d :: 0 <= d < N && d != diskn - 1 ==> cache[d] == Decode(disks[d][0])
      modifies this`disks, this`cache
      ensures Coherent() && disks == SetFlag(old(disks), diskn - 1, kind, 1, Header(diskn))
    {
      hide Decode, Encode;
      cache := cache[diskn - 1 := cache[diskn - 1].(working := 1)];
      StoreRecord(diskn);
    }

    /** Record a level on all disks; data blocks are left as they are. */
    method InitAll(kind: Kind)
      requires Valid()
      modifies this`disks, this`cache, this`cacheLoaded
      ensures Coherent() && cacheLoaded && Initialised(old(disks), disks, kind)
    {
      var m := RaidData(kind, 1);
      var buffer := new bv8[BSIZE];
      Serialize(RecordBytes(m), buffer);
      ghost var header := buffer[..];
      EncodeSelf(m, header);
      for i := 1 to N + 1
        invariant Valid() && buffer[..] == header
        invariant forall d :: 0 <= d < i - 1 ==>
                    cache[d] == m && disks[d][0] == header && disks[d][1..] == old(disks)[d][1..]
        invariant forall d :: i - 1 <= d < N ==> disks[d] == old(disks)[d]
      {
        WriteBlock(i, 0, buffer);
        cache := cache[i - 1 := m];
      }
      cacheLoaded := true;
    }

    // -------------------------------------------------------------- RAID 0

    method InitRaid0() returns (ret: int)
      requires Valid()
      modifies this`disks, this`cache, this`cacheLoaded
      ensures Synced(Raid0) && Z.Ready(disks) && ret == 0 && cacheLoaded
      ensures disks == SetFlag(old(disks), 0, Raid0, 1, Header(1))
    {
      cache := cache[0 := RaidData(Raid0, 1)];
      StoreRecord(1);
      cacheLoaded := true;
      ret := 0;
    }

    method ReadRaid0(blkn: nat, data: array<bv8>) returns (ret: int)
      requires Synced(Raid0) && data.Length == BSIZE
      modifies data, this`cache
      ensures Synced(Raid0) && cache[0] == Decode(disks[0][0])
      ensures var r := Z.ReadReply(disks, blkn); ret == r.code && (ret == 0 ==> data[..] == r.data)
    {
      LoadRaidDataCache(Raid0);
      if cache[0].working == 0 {
        return -1;
      }
      var diskn := blkn % N + 1;
      var blockn := blkn / N;
      if diskn == 1 {
        blockn := blockn + 1;
      }
      if blockn > NB - 1 {
        return -1;
      }
      ReadBlock(diskn, blockn, data);
      return 0;
    }

    method WriteRaid0(blkn: nat, data: array<bv8>) returns (ret: int)
      requires Synced(Raid0) && data.Length == BSIZE
      modifies this`disks, this`cache
      ensures Synced(Raid0) && disks[0][0] == old(disks)[0][0] && cache[0] == Decode(disks[0][0])
      ensures (disks, Reply(ret, [])) == Z.WriteStep(old(disks), blkn, data[..])
    {
      LoadRaidDataCache(Raid0);
      if cache[0].working == 0 {
        return -1;
      }
      var diskn := blkn % N + 1;
      var blockn := blkn / N;
      if diskn == 1 {
        blockn := blockn + 1;
      }
      if blockn > NB - 1 {
        return -1;
      }
      WriteBlock(diskn, blockn, data);
      return 0;
    }

    /** Does not load the cache: the level it writes out is the one the cache happens to hold. */
    method DiskFailRaid0(diskn: int) returns (ret: int)
      requires Synced(Raid0)
      modifies this`disks, this`cache
      ensures Synced(Raid0) && cache[0].kind == old(cache)[0].kind
      ensures (disks, Reply(ret, [])) == Z.FailStep(old(disks), diskn, old(cache)[0].kind, Header(1))
      ensures 1 <= diskn <= N ==> Decode(disks[0][0]) == RaidData(old(cache)[0].kind, 0)
    {
      if diskn < 1 || diskn > N {
        return -1;
      }
      cache := cache[0 := cache[0].(working := 0)];
      StoreRecord(1);
      return 0;
    }

    // -------------------------------------------------------------- RAID 1

    method InitRaid1() returns (ret: int)
      requires Valid()
      modifies this`disks, this`cache, this`cacheLoaded
      ensures ret == if N <= 1 then -1 else 0
      ensures ret != 0 ==> Valid() && disks == old(disks)
      ensures ret == 0 ==> Synced(Raid1) && M.Ready(M.Full, disks) && cacheLoaded
      ensures ret == 0 ==> Initialised(old(disks), disks, Raid1)
    {
      if N <= 1 {
        return -1;
      }
      InitAll(Raid1);
      return 0;
    }

    /** The first working disk, or -1. */
    method FindWorking(ghost kind: Kind) returns (diskn: int)
      requires Coherent() && Formatted(disks, kind, N, NB)
      ensures diskn == var f := M.FirstUp(disks, 0); if f == N then -1 else f + 1
    {
      var i := 1;
      while i <= N
        invariant 1 <= i <= N + 1
        invariant M.FirstUp(disks, 0) == M.FirstUp(disks, i - 1)
      {
        if cache[i - 1].working == 1 {
          return i;
        }
        i := i + 1;
      }
      return -1;
    }

    method ReadRaid1(blkn: int, data: array<bv8>) returns (ret: int)
      requires Synced(Raid1) && M.Ready(M.Full, disks) && data.Length == BSIZE
      modifies data, this`cache
      ensures Synced(Raid1) && M.Ready(M.Full, disks)
      ensures blkn < 0 ==> ret == -1
      ensures blkn >= 0 ==>
                var r := M.ReadReply(M.Full, disks, blkn); ret == r.code && (ret == 0 ==> data[..] == r.data)
    {
      var row := blkn + 1;
      LoadRaidDataCache(Raid1);
      var diskNumber := FindWorking(Raid1);
      if diskNumber == -1 {
        return -1;
      }
      if row < 1 || row > NB - 1 {
        return -1;
      }
      ReadBlock(diskNumber, row, data);
      return 0;
    }

    method WriteRaid1(blkn: int, data: array<bv8>) returns (ret: int)
      requires Synced(Raid1) && M.Ready(M.Full, disks) && data.Length == BSIZE
      modifies this`disks, this`cache
      ensures Synced(Raid1) && M.Ready(M.Full, disks)
      ensures blkn < 0 ==> ret == -1 && disks == old(disks)
      ensures blkn >= 0 ==> (disks, Reply(ret, [])) == M.WriteStep(M.Full, old(disks), blkn, data[..])
    {
      var row := blkn + 1;
      LoadRaidDataCache(Raid1);
      if row < 1 || row > NB - 1 {
        return -1;
      }
      ghost var s := disks;
      ret := WriteWorking(blkn, data);
      M.DataResult(M.Full, s, M.Write(blkn, data[..]));
      if ret != 0 {
        assert disks == s;
      }
    }

    method WriteWorking(blkn: nat, data: array<bv8>) returns (ret: int)
      requires Coherent() && blkn + 1 < NB && N >= 2 && data.Length == BSIZE
      modifies this`disks
      ensures Coherent()
      ensures disks == M.WriteCopies(M.Full, old(disks), blkn, data[..], N)
      ensures ret == if M.FirstUp(old(disks), 0) == N then -1 else 0
    {
      hide Decode, Put, M.WriteCopies, M.FirstUp;
      ret := -1;
      ghost var s, x := disks, data[..];
      M.CopiesStep(s, blkn, x, 0);
      for diskNum := 1 to N + 1
        invariant Valid() && data[..] == x
        invariant disks == M.WriteCopies(M.Full, s, blkn, x, diskNum - 1)
        invariant ret == if M.FirstUp(s, 0) < diskNum - 1 then 0 else -1
      {
        M.CopiesStep(s, blkn, x, diskNum - 1);
        assert cache[diskNum - 1] == Decode(s[diskNum - 1][0]);
        if cache[diskNum - 1].working == 1 {
          assert Up(s, diskNum - 1);
          WriteBlock(diskNum, blkn + 1, data);
          ret := 0;
        }
      }
      M.CopiesSpare(s, blkn, x, N);
    }

    method DiskFailRaid1(diskn: int) returns (ret: int)
      requires Synced(Raid1) && M.Ready(M.Full, disks)
      modifies this`disks, this`cache
      ensures Synced(Raid1) && M.Ready(M.Full, disks)
      ensures (disks, Reply(ret, [])) == M.FailStep(M.Full, old(disks), diskn, Header(diskn))
    {
      ret := DiskFailMirror(M.Full, diskn);
    }

    /** `disk_fail_raid1` and `disk_fail_raid01` are the same code. */
    method DiskFailMirror(l: M.Level, diskn: int) returns (ret: int)
      requires Synced(M.KindOf(l)) && M.Ready(l, disks)
      modifies this`disks, this`cache
      ensures Synced(M.KindOf(l)) && M.Ready(l, disks)
      ensures (disks, Reply(ret, [])) == M.FailStep(l, old(disks), diskn, Header(diskn))
    {
      hide Decode, Encode, ZeroBlock;
      if diskn < 1 || diskn > N {
        return -1;
      }
      LoadRaidDataCache(M.KindOf(l));
      if cache[diskn - 1].working == 0 {
        return -1;
      }
      cache := cache[diskn - 1 := cache[diskn - 1].(working := 0)];
      StoreRecord(diskn);
      M.FailResult(l, old(disks), diskn, Header(diskn));
      return 0;
    }

    method DiskRepairedRaid1(diskn: int) returns (ret: int)
      requires Synced(Raid1) && M.Ready(M.Full, disks)
      modifies this`disks, this`cache
      ensures Synced(Raid1) && M.Ready(M.Full, disks)
      ensures (disks, Reply(ret, [])) == M.RepairStep(M.Full, old(disks), diskn, Header(diskn))
      ensures ret != 0 ==> disks == old(disks)
    {
      hide Decode, Encode, Put, M.CopyRows;
      if diskn < 1 || diskn > N {
        return -1;
      }
      LoadRaidDataCache(Raid1);
      if cache[diskn - 1].working == 1 {
        return -1;
      }
      var diskToCopy := FindWorking(Raid1);
      if diskToCopy == -1 {
        return -1;
      }
      ghost var s := disks;
      CopyDisk(diskToCopy, diskn);
      M.CopiedDisk(M.Full, s, diskToCopy - 1, diskn - 1);
      MarkWorking(Raid1, diskn);
      M.RepairResult(M.Full, s, diskn, Header(diskn));
      return 0;
    }

    /** Copies every row but the metadata. */
    method CopyDisk(from: int, to: int)
      requires Valid() && 1 <= from <= N && 1 <= to <= N && from != to
      modifies this`disks
      ensures Valid() && disks == M.CopyRows(old(disks), from - 1, to - 1, NB)
    {
      ghost var s, f, d := disks, from - 1, to - 1;
      var buffer := new bv8[BSIZE];
      M.CopyStep(s, f, d, 1);
      for blockNumber := 1 to NB
        invariant Valid()
        invariant disks == M.CopyRows(s, f, d, blockNumber)
      {
        M.CopyStep(s, f, d, blockNumber);
        ReadBlock(from, blockNumber, buffer);
        WriteBlock(to, blockNumber, buffer);
      }
    }

    // -------------------------------------------------------------- RAID 0+1

    method InitRaid01() returns (ret: int)
      requires Valid()
      modifies this`disks, this`cache, this`cacheLoaded
      ensures ret == if N % 2 != 0 || N < 4 then -1 else 0
      ensures ret != 0 ==> Valid() && disks == old(disks)
      ensures ret == 0 ==> Synced(Raid01) && M.Ready(M.Pairs, disks) && cacheLoaded
      ensures ret == 0 ==> Initialised(old(disks), disks, Raid01)
    {
      if N % 2 != 0 || N < 4 {
        return -1;
      }
      InitAll(Raid01);
      return 0;
    }

    method ReadRaid01(blkn: nat, data: array<bv8>) returns (ret: int)
      requires Synced(Raid01) && M.Ready(M.Pairs, disks) && data.Length == BSIZE
      modifies data, this`cache
      ensures Synced(Raid01) && M.Ready(M.Pairs, disks)
      ensures var r := M.ReadReply(M.Pairs, disks, blkn); ret == r.code && (ret == 0 ==> data[..] == r.data)
    {
      hide Decode;
      LoadRaidDataCache(Raid01);
      var logicalDisks := N / 2;
      var groupNumber := blkn % logicalDisks;
      var diskn := groupNumber * 2 + 1;
      var blockn := blkn / logicalDisks + 1;
      if blockn > NB - 1 {
        return -1;
      }
      var read := ReadEither(diskn, blockn, data);
      if !read {
        return -2;
      }
      return 0;
    }

    /** The first working disk of a pair. */
    method ReadEither(diskn: nat, blockn: nat, data: array<bv8>) returns (read: bool)
      requires Valid() && Coherent() && 1 <= diskn < N && blockn < NB && data.Length == BSIZE
      modifies data
      ensures read <==> Up(disks, diskn - 1) || Up(disks, diskn)
      ensures read ==> data[..] == disks[if Up(disks, diskn - 1) then diskn - 1 else diskn][blockn]
    {
      hide Decode;
      read := false;
      if cache[diskn - 1].working == 1 {
        ReadBlock(diskn, blockn, data);
        read := true;
      } else if cache[diskn].working == 1 {
        ReadBlock(diskn + 1, blockn, data);
        read := true;
      }
    }

    method WriteRaid01(blkn: nat, data: array<bv8>) returns (ret: int)
      requires Synced(Raid01) && M.Ready(M.Pairs, disks) && data.Length == BSIZE
      modifies this`disks, this`cache
      ensures Synced(Raid01) && M.Ready(M.Pairs, disks)
      ensures (disks, Reply(ret, [])) == M.WriteStep(M.Pairs, old(disks), blkn, data[..])
    {
      hide Decode, M.PairPut;
      LoadRaidDataCache(Raid01);
      var logicalDisks := N / 2;
      var groupNumber := blkn % logicalDisks;
      var diskn := groupNumber * 2 + 1;
      var blockn := blkn / logicalDisks + 1;
      if blockn > NB - 1 {
        return -1;
      }
      M.PairWrites(disks, blkn, data[..], diskn - 1);
      var written := WritePair(diskn, blockn, data);
      if !written {
        return -2;
      }
      return 0;
    }

    /** Writes to the first and then to the second disk of a mirrored pair, where they work. */
    method WritePair(diskn: int, blockn: int, data: array<bv8>) returns (written: bool)
      requires Coherent() && 1 <= diskn < N && 1 <= blockn < NB && data.Length == BSIZE
      modifies this`disks
      ensures Coherent() && disks == M.PairPut(old(disks), diskn - 1, blockn, data[..])
      ensures written == (Up(old(disks), diskn - 1) || Up(old(disks), diskn))
    {
      written := false;
      if cache[diskn - 1].working == 1 {
        WriteBlock(diskn, blockn, data);
        written := true;
      }
      if cache[diskn].working == 1 {
        WriteBlock(diskn + 1, blockn, data);
        written := true;
      }
    }

    method DiskFailRaid01(diskn: int) returns (ret: int)
      requires Synced(Raid01) && M.Ready(M.Pairs, disks)
      modifies this`disks, this`cache
      ensures Synced(Raid01) && M.Ready(M.Pairs, disks)
      ensures (disks, Reply(ret, [])) == M.FailStep(M.Pairs, old(disks), diskn, Header(diskn))
    {
      ret := DiskFailMirror(M.Pairs, diskn);
    }

    method DiskRepairedRaid01(diskn: int) returns (ret: int)
      requires Synced(Raid01) && M.Ready(M.Pairs, disks) && 1 <= diskn <= N
      modifies this`disks, this`cache
      ensures Synced(Raid01) && M.Ready(M.Pairs, disks)
      ensures (disks, Reply(ret, [])) == M.RepairStep(M.Pairs, old(disks), diskn, Header(diskn))
      ensures ret != 0 ==> disks == old(disks)
    {
      hide Decode, Encode, Put, SetFlag, M.CopyRows, M.RepairStep;
      LoadRaidDataCache(Raid01);
      var diskToCopyFrom := if diskn % 2 != 0 then diskn + 1 else diskn - 1;
      ghost var s := disks;
      M.PairRepair(s, diskToCopyFrom - 1, diskn - 1, s, Header(diskn));
      if cache[diskToCopyFrom - 1].working == 0 {
        return -1;
      }
      CopyWholeDisk(diskToCopyFrom, diskn);
      ghost var t := disks;
      MarkWorking(Raid01, diskn);
      M.PairRepair(s, diskToCopyFrom - 1, diskn - 1, t, Header(diskn));
      return 0;
    }

    /** Copies every row, metadata included. */
    method CopyWholeDisk(from: int, to: int)
      requires Valid() && 1 <= from <= N && 1 <= to <= N && from != to
      modifies this`disks
      ensures Valid() && disks[to - 1] == old(disks)[from - 1]
      ensures forall e :: 0 <= e < N && e != to - 1 ==> disks[e] == old(disks)[e]
    {
      ghost var s, f, d := disks, from - 1, to - 1;
      var buffer := new bv8[BSIZE];
      for blockn := 0 to NB
        invariant Valid()
        invariant forall e :: 0 <= e < N && e != d ==> disks[e] == s[e]
        invariant disks[d][..blockn] == s[f][..blockn]
      {
        ReadBlock(from, blockn, buffer);
        WriteBlock(to, blockn, buffer);
      }
    }

    // -------------------------------------------------------------- RAID 4 and RAID 5

    method InitRaid4() returns (ret: int)
      requires Valid()
      modifies this`disks, this`cache, this`cacheLoaded
      ensures ret == if N < 2 then -1 else 0
      ensures ret != 0 ==> Valid() && disks == old(disks)
      ensures ret == 0 ==> Synced(Raid4) && P.Ready(P.Dedicated, disks) && cacheLoaded
      ensures ret == 0 ==> Initialised(old(disks), disks, Raid4)
    {
      if N < 2 {
        return -1;
      }
      InitAll(Raid4);
      return 0;
    }

    method InitRaid5() returns (ret: int)
      requires Valid()
      modifies this`disks, this`cache, this`cacheLoaded
      ensures ret == 0 && Coherent() && cacheLoaded && Initialised(old(disks), disks, Raid5)
      ensures N >= 2 ==> Synced(Raid5) && P.Ready(P.Rotating, disks)
    {
      if N < 1 {
        return -1;
      }
      InitAll(Raid5);
      return 0;
    }

    /** Sums up a row over all disks but one, unless another disk is down. */
    method RecoverMissingBlock(ghost kind: Kind, blockn: int, diskToSkip: int, data: array<bv8>) returns (status: int)
      requires Synced(kind) && !kind.Raid0? && Formatted(disks, kind, N, NB)
      requires 0 <= blockn < NB && 1 <= diskToSkip <= N
      requires data.Length == BSIZE && data[..] == ZeroBlock()
      modifies data, this`cache
      ensures Coherent()
      ensures status == if P.OthersUp(disks, diskToSkip - 1) then 0 else -1
      ensures status == 0 ==> data[..] == P.RowSum(disks, blockn, diskToSkip - 1, N)
    {
      hide Decode, Xor;
      LoadRaidDataCache(kind);
      var buffer := new bv8[BSIZE];
      var diskn := 1;
      while diskn <= N
        invariant 1 <= diskn <= N + 1 && Coherent()
        invariant data[..] == P.RowSum(disks, blockn, diskToSkip - 1, diskn - 1)
        invariant forall d :: 0 <= d < diskn - 1 && d != diskToSkip - 1 ==> Up(disks, d)
      {
        if diskn != diskToSkip {
          if cache[diskn - 1].working == 0 {
            assert !Up(disks, diskn - 1);
            return -1;
          }
          ReadBlock(diskn, blockn, buffer);
          CalculateParity(buffer, data);
        }
        diskn := diskn + 1;
      }
      return 0;
    }

    method ReadRaid4(blkn: nat, data: array<bv8>) returns (ret: int)
      requires Synced(Raid4) && P.Ready(P.Dedicated, disks) && data.Length == BSIZE
      modifies data, this`cache
      ensures Synced(Raid4) && P.Ready(P.Dedicated, disks) && Coherent()
      ensures var r := P.ReadReply(P.Dedicated, disks, blkn); ret == r.code && (ret == 0 ==> data[..] == r.data)
    {
      LoadRaidDataCache(Raid4);
      var dataDisks := N - 1;
      var diskn := blkn % dataDisks + 1;
      var blockn := blkn / dataDisks + 1;
      if blockn > NB - 1 {
        return -1;
      }
      if cache[diskn - 1].working == 1 {
        ReadBlock(diskn, blockn, data);
        return 0;
      }
      if cache[N - 1].working == 0 {
        assert !Up(disks, N - 1);
        return -2;
      }
      Clear(data);
      var status := RecoverMissingBlock(Raid4, blockn, diskn, data);
      if status != 0 {
        return -2;
      }
      return 0;
    }

    method WriteRaid4(blkn: nat, data: array<bv8>) returns (ret: int)
      requires Synced(Raid4) && P.Ready(P.Dedicated, disks) && data.Length == BSIZE
      modifies this`disks, this`cache
      ensures Synced(Raid4) && P.Ready(P.Dedicated, disks) && Coherent()
      ensures (disks, Reply(ret, [])) == P.WriteStep(P.Dedicated, old(disks), blkn, data[..])
    {
      LoadRaidDataCache(Raid4);
      var dataDisks := N - 1;
      var diskn := blkn % dataDisks + 1;
      var blockn := blkn / dataDisks + 1;
      if blockn > NB - 1 {
        return -1;
      }
      if cache[diskn - 1].working == 0 {
        return -2;
      }
      if cache[N - 1].working == 0 {
        return 0;
      }
      ModifyParity(P.Dedicated, blkn, diskn, N, blockn, data);
      return 0;
    }

    /** The read-modify-write sequence shared by both parity levels. */
    method ModifyParity(l: P.Level, ghost blkn: nat, diskn: int, parityLocation: int, blockn: int, data: array<bv8>)
      requires Synced(P.KindOf(l)) && P.Ready(l, disks) && data.Length == BSIZE
      requires diskn == P.DataDisk(l, N, blkn) + 1 && blockn == P.Row(N, blkn) < NB
      requires parityLocation == P.ParityDisk(l, N, P.Stripe(N, blkn)) + 1
      modifies this`disks
      ensures Synced(P.KindOf(l)) && P.Ready(l, disks) && disks == P.ReadModifyWrite(l, old(disks), blkn, data[..])
      ensures old(Coherent()) ==> Coherent()
    {
      hide Decode, P.RowSum;
      var buffer := new bv8[BSIZE];
      var parity := new bv8[BSIZE];
      ReadBlock(diskn, blockn, buffer);
      ReadBlock(parityLocation, blockn, parity);
      CalculateParity(buffer, parity);
      CalculateParity(data, parity);
      WriteBlock(diskn, blockn, data);
      WriteBlock(parityLocation, blockn, parity);
      assert forall d :: 0 <= d < N ==> disks[d][0] == old(disks)[d][0];
    }

    method DiskFailRaid4(diskn: int) returns (ret: int)
      requires Synced(Raid4) && P.Ready(P.Dedicated, disks)
      modifies this`disks, this`cache
      ensures Synced(Raid4) && P.Ready(P.Dedicated, disks)
      ensures (disks, Reply(ret, [])) == P.FailStep(P.Dedicated, old(disks), diskn, Header(diskn))
    {
      ret := DiskFailParity(P.Dedicated, diskn);
    }

    /** `disk_fail_raid4` and `disk_fail_raid5` are the same code. */
    method DiskFailParity(l: P.Level, diskn: int) returns (ret: int)
      requires Synced(P.KindOf(l)) && P.Ready(l, disks)
      modifies this`disks, this`cache
      ensures Synced(P.KindOf(l)) && P.Ready(l, disks)
      ensures (disks, Reply(ret, [])) == P.FailStep(l, old(disks), diskn, Header(diskn))
    {
      if diskn < 1 || diskn > N {
        return -1;
      }
      LoadRaidDataCache(P.KindOf(l));
      cache := cache[diskn - 1 := cache[diskn - 1].(working := 0)];
      StoreRecord(diskn);
      P.FailResult(l, old(disks), diskn, Header(diskn));
      return 0;
    }

    /** Tests the parity disk's flag before anything has loaded the cache: with a cold cache
        the repair of a data disk is refused, whatever the disks say. */
    method DiskRepairedRaid4(diskn: int) returns (ret: int)
      requires Synced(Raid4) && P.Ready(P.Dedicated, disks)
      modifies this`disks, this`cache
      ensures Synced(Raid4) && P.Ready(P.Dedicated, disks)
      ensures (disks, Reply(ret, [])) == Repair4(old(disks), diskn, old(cache)[N - 1], Header(diskn))
      ensures (disks, Reply(ret, [])) == P.RepairStep(P.Dedicated, old(disks), diskn, Header(diskn)) <==>
                !(1 <= diskn < N) || (old(cache)[N - 1].working == 0 <==> !Up(old(disks), N - 1))
      ensures ret != 0 ==> disks == old(disks)
    {
      if diskn < 1 || diskn > N {
        return -1;
      }
      if diskn != N && cache[N - 1].working == 0 {
        return -2;
      }
      ret := Rebuild(P.Dedicated, diskn);
    }

    /** The row-by-row rebuild shared by both parity levels. It can only give up before its first write. */
    method Rebuild(l: P.Level, diskn: int) returns (ret: int)
      requires Synced(P.KindOf(l)) && P.Ready(l, disks) && 1 <= diskn <= N
      modifies this`disks, this`cache
      ensures Synced(P.KindOf(l)) && P.Ready(l, disks)
      ensures ret == if P.OthersUp(old(disks), diskn - 1) then 0 else -3
      ensures ret != 0 ==> disks == old(disks)
      ensures ret == 0 ==>
                disks == SetFlag(P.Rebuilt(old(disks), diskn - 1, NB), diskn - 1, P.KindOf(l), 1, Header(diskn))
    {
      ghost var s := disks;
      var status := RebuildRows(P.KindOf(l), diskn);
      if status != 0 {
        return -3;
      }
      MarkWorking(P.KindOf(l), diskn);
      P.RepairResult(l, s, diskn, Header(diskn));
      return 0;
    }

    method RebuildRows(ghost kind: Kind, diskn: int) returns (status: int)
      requires Synced(kind) && !kind.Raid0? && Formatted(disks, kind, N, NB) && 1 <= diskn <= N
      modifies this`disks, this`cache
      ensures Coherent()
      ensures status == if P.OthersUp(old(disks), diskn - 1) then 0 else -1
      ensures disks == if status == 0 then P.Rebuilt(old(disks), diskn - 1, NB) else old(disks)
    {
      hide Decode, P.RowSum, Xor, P.OthersUp, P.Rebuilt;
      var parity := new bv8[BSIZE];
      Clear(parity);
      ghost var s, d := disks, diskn - 1;
      P.RebuildStep(s, d, 1);
      for blockn := 1 to NB
        invariant Synced(kind) && Formatted(disks, kind, N, NB) && parity[..] == ZeroBlock()
        invariant disks == P.Rebuilt(s, d, blockn)
        invariant blockn > 1 ==> Coherent() && P.OthersUp(s, d)
      {
        P.RebuildStep(s, d, blockn);
        status := RecoverMissingBlock(kind, blockn, diskn, parity);
        if status != 0 {
          return;
        }
        WriteBlock(diskn, blockn, parity);
        P.RebuildStep(s, d, blockn + 1);
        Clear(parity);
      }
      status := 0;
    }

    method ReadRaid5(blkn: nat, data: array<bv8>) returns (ret: int)
      requires Synced(Raid5) && P.Ready(P.Rotating, disks) && data.Length == BSIZE
      modifies data, this`cache
      ensures Synced(Raid5) && P.Ready(P.Rotating, disks)
      ensures var r := P.ReadReply(P.Rotating, disks, blkn); ret == r.code && (ret == 0 ==> data[..] == r.data)
    {
      hide Decode, P.RowSum, Xor, P.OthersUp, Formatted;
      var stripe := blkn / (N - 1);
      var parityLocation := stripe % N + 1;
      var diskn := blkn % (N - 1) + 1;
      diskn := if diskn >= parityLocation then diskn + 1 else diskn;
      var blockn := stripe + 1;
      if blockn > NB - 1 {
        return -1;
      }
      ret := ReadOrRecover(blkn, diskn, blockn, data);
    }

    /** The block from its own disk, or else summed up from the others. */
    method ReadOrRecover(ghost blkn: nat, diskn: int, blockn: int, data: array<bv8>) returns (ret: int)
      requires Synced(Raid5) && P.Ready(P.Rotating, disks) && data.Length == BSIZE
      requires diskn == P.DataDisk(P.Rotating, N, blkn) + 1 && blockn == P.Row(N, blkn) < NB
      modifies data, this`cache
      ensures Synced(Raid5) && P.Ready(P.Rotating, disks)
      ensures var r := P.ReadReply(P.Rotating, disks, blkn); ret == r.code && (ret == 0 ==> data[..] == r.data)
    {
      hide Decode, P.RowSum, Xor, P.OthersUp, P.DataDisk, P.Stripe, P.ParityDisk;
      LoadRaidDataCache(Raid5);
      if cache[diskn - 1].working == 1 {
        ReadBlock(diskn, blockn, data);
        return 0;
      }
      Clear(data);
      var status := RecoverMissingBlock(Raid5, blockn, diskn, data);
      if status != 0 {
        return -2;
      }
      return 0;
    }

    method WriteRaid5(blkn: nat, data: array<bv8>) returns (ret: int)
      requires Synced(Raid5) && P.Ready(P.Rotating, disks) && data.Length == BSIZE
      modifies this`disks
      ensures Synced(Raid5) && P.Ready(P.Rotating, disks)
      ensures (disks, Reply(ret, [])) == P.WriteStep(P.Rotating, old(disks), blkn, data[..])
    {
      var stripe := blkn / (N - 1);
      var parityLocation := stripe % N + 1;
      var diskn := blkn % (N - 1) + 1;
      diskn := if diskn >= parityLocation then diskn + 1 else diskn;
      var blockn := stripe + 1;
      if blockn > NB - 1 {
        return -1;
      }
      ModifyParity(P.Rotating, blkn, diskn, parityLocation, blockn, data);
      return 0;
    }

    method DiskFailRaid5(diskn: int) returns (ret: int)
      requires Synced(Raid5) && P.Ready(P.Rotating, disks)
      modifies this`disks, this`cache
      ensures Synced(Raid5) && P.Ready(P.Rotating, disks)
      ensures (disks, Reply(ret, [])) == P.FailStep(P.Rotating, old(disks), diskn, Header(diskn))
    {
      ret := DiskFailParity(P.Rotating, diskn);
    }

    method DiskRepairedRaid5(diskn: int) returns (ret: int)
      requires Synced(Raid5) && P.Ready(P.Rotating, disks)
      modifies this`disks, this`cache
      ensures Synced(Raid5) && P.Ready(P.Rotating, disks)
      ensures (disks, Reply(ret, [])) == P.RepairStep(P.Rotating, old(disks), diskn, Header(diskn))
      ensures ret != 0 ==> disks == old(disks)
    {
      if diskn < 1 || diskn > N {
        return -1;
      }
      LoadRaidDataCache(Raid5);
      if cache[diskn - 1].working == 1 {
        return 0;
      }
      ret := Rebuild(P.Rotating, diskn);
    }

    // -------------------------------------------------------------- the system calls

    /** The engine's sleeplock, taken around every call. */
    method Lock()
      requires !locked
      modifies this`locked
      ensures locked
    {
      locked := true;
    }

    method Unlock()
      modifies this`locked
      ensures !locked
    {
      locked := false;
    }

    /** The level remembered, or else the one on the first disk. `working` is an unsigned byte, so
        the stored -1 never compares equal to -1 and absence is never remembered. */
    method CheckRaid() returns (kind: Kind)
      requires Valid()
      modifies this`raid
      ensures Valid() && kind == old(Level()) == Level()
      ensures !kind.NoRaid? ==> raid == RaidData(kind, 1)
    {
      if raid.working == 1 {
        return raid.kind;
      }
      var buffer := new bv8[BSIZE];
      ReadBlock(1, 0, buffer);
      raid := Decode(buffer[..]);
      if raid.kind.NoRaid? {
        raid := RaidData(NoRaid, 255);
      } else {
        raid := raid.(working := 1);
      }
      kind := raid.kind;
    }

    /** A single disk takes RAID 5 as well, although no parity can be kept on it. */
    method InitRaid(kind: Kind) returns (ret: int)
      requires Valid() && !locked
      modifies this`disks, this`cache, this`cacheLoaded, this`raid, this`locked
      ensures Valid() && !locked
      ensures ret == 0 ==> Level() == kind && Decode(disks[0][0]) == raid == RaidData(kind, 1)
      ensures ret == 0 ==> cacheLoaded && Synced(kind)
      ensures ret == 0 <==> Enough(kind, N)
      ensures ret == 0 && (kind.Raid5? ==> N >= 2) ==> Ready(kind)
      ensures ret == 0 && !kind.Raid0? ==> Initialised(old(disks), disks, kind)
      ensures ret == 0 && kind.Raid0? ==> disks == SetFlag(old(disks), 0, Raid0, 1, Header(1))
      ensures ret != 0 ==> disks == old(disks) && raid == RaidData(NoRaid, 255)
    {
      Lock();
      ret := -1;
      match kind {
        case NoRaid =>
        case Raid0 => ret := InitRaid0();
        case Raid1 => ret := InitRaid1();
        case Raid01 => ret := InitRaid01();
        case Raid4 => ret := InitRaid4();
        case Raid5 => ret := InitRaid5();
      }
      if ret == 0 {
        raid := RaidData(kind, 1);
      } else {
        raid := RaidData(NoRaid, 255);
      }
      Unlock();
    }

    /** Serves the level in force. Without one the call returns still holding the lock. */
    method ReadRaid(blkn: nat, data: array<bv8>) returns (ret: int)
      requires Valid() && !locked && Ready(Level()) && data.Length == BSIZE
      modifies data, this`cache, this`raid, this`locked
      ensures Valid() && Level() == old(Level()) && Ready(Level())
      ensures locked <==> Level().NoRaid?
      ensures var r := ReadOf(Level(), disks, blkn);
              ret == r.code && (ret == 0 ==> data[..] == r.data)
      ensures Level().NoRaid? ==> cache == old(cache)
      ensures Level().Raid0? ==> cache[0] == Decode(disks[0][0])
      ensures Level().Raid4? ==> Coherent()
    {
      Lock();
      var kind := CheckRaid();
      if kind.NoRaid? {
        return -1;
      }
      ret := -1;
      match kind {
        case Raid0 => ret := ReadRaid0(blkn, data);
        case Raid1 => ret := ReadRaid1(blkn, data);
        case Raid01 => ret := ReadRaid01(blkn, data);
        case Raid4 => ret := ReadRaid4(blkn, data);
        case Raid5 => ret := ReadRaid5(blkn, data);
      }
      Unlock();
    }

    method WriteRaid(blkn: nat, data: array<bv8>) returns (ret: int)
      requires Valid() && !locked && Ready(Level()) && data.Length == BSIZE
      modifies this`disks, this`cache, this`raid, this`locked
      ensures Valid() && Level() == old(Level()) && Ready(Level()) && (locked <==> Level().NoRaid?)
      ensures (disks, Reply(ret, [])) == WriteOf(Level(), old(disks), blkn, data[..])
      ensures Level().NoRaid? ==> cache == old(cache)
      ensures Level().Raid0? ==> disks[0][0] == old(disks)[0][0] && cache[0] == Decode(disks[0][0])
      ensures Level().Raid4? ==> Coherent()
    {
      Lock();
      var kind := CheckRaid();
      if kind.NoRaid? {
        return -1;
      }
      ret := -1;
      match kind {
        case Raid0 => ret := WriteRaid0(blkn, data);
        case Raid1 => ret := WriteRaid1(blkn, data);
        case Raid01 => ret := WriteRaid01(blkn, data);
        case Raid4 => ret := WriteRaid4(blkn, data);
        case Raid5 => ret := WriteRaid5(blkn, data);
      }
      Unlock();
    }

    /** On RAID 0 the level stays on the disks exactly when the cache held it. */
    method DiskFailRaid(diskn: int) returns (ret: int)
      requires Valid() && !locked && Ready(Level())
      modifies this`disks, this`cache, this`raid, this`locked
      ensures Valid() && Level() == old(Level()) && Ready(Level()) && (locked <==> Level().NoRaid?)
      ensures (disks, Reply(ret, [])) == FailOf(Level(), old(disks), diskn, old(cache)[0].kind,
                                                Header(if Level().Raid0? then 1 else diskn))
      ensures Level().NoRaid? || Level().Raid0? ==> cache[0].kind == old(cache)[0].kind
      ensures Level().Raid0? && 1 <= diskn <= N ==> Decode(disks[0][0]) == RaidData(old(cache)[0].kind, 0)
    {
      hide Decode, Encode, ZeroBlock, SetFlag, Z.FailStep, M.FailStep, P.FailStep, Formatted;
      Lock();
      var kind := CheckRaid();
      if kind.NoRaid? {
        return -1;
      }
      ret := -1;
      match kind {
        case Raid0 => ret := DiskFailRaid0(diskn);
        case Raid1 => ret := DiskFailRaid1(diskn);
        case Raid01 => ret := DiskFailRaid01(diskn);
        case Raid4 => ret := DiskFailRaid4(diskn);
        case Raid5 => ret := DiskFailRaid5(diskn);
      }
      Unlock();
    }

    /** A disk reported as failed straight after a restart takes the level off the array as well. */
    method FailAfterReboot(diskn: int) returns (ret: int)
      requires Valid() && Z.Ready(disks) && 1 <= diskn <= N
      modifies this`disks, this`cache, this`cacheLoaded, this`raid, this`locked
      ensures Valid() && ret == 0 && Decode(disks[0][0]) == RaidData(NoRaid, 0) && !Z.Ready(disks)
    {
      Reboot();
      ret := DiskFailRaid(diskn);
    }

    method DiskRepairedRaid(diskn: int) returns (ret: int)
      requires Valid() && !locked && Ready(Level())
      requires Level().Raid01? ==> 1 <= diskn <= N
      modifies this`disks, this`cache, this`raid, this`locked
      ensures Valid() && Level() == old(Level()) && Ready(Level()) && (locked <==> Level().NoRaid?)
      ensures (disks, Reply(ret, [])) == RepairOf(Level(), old(disks), diskn, old(cache)[N - 1], Header(diskn))
      ensures Level().NoRaid? || Level().Raid0? ==> cache == old(cache)
    {
      Lock();
      var kind := CheckRaid();
      if kind.NoRaid? {
        return -1;
      }
      ret := -1;
      match kind {
        case Raid0 =>
        case Raid1 => ret := DiskRepairedRaid1(diskn);
        case Raid01 => ret := DiskRepairedRaid01(diskn);
        case Raid4 => ret := DiskRepairedRaid4(diskn);
        case Raid5 => ret := DiskRepairedRaid5(diskn);
      }
      Unlock();
    }

    /** A repair the level allows is refused straight after a restart. */
    method RepairAfterReboot(diskn: int) returns (ret: int)
      requires Valid() && P.Ready(P.Dedicated, disks) && 1 <= diskn < N
      requires !Up(disks, diskn - 1) && P.OthersUp(disks, diskn - 1)
      modifies this`disks, this`cache, this`cacheLoaded, this`raid, this`locked
      ensures Valid() && ret == -2 && disks == old(disks)
      ensures P.RepairStep(P.Dedicated, disks, diskn, Header(diskn)).1.code == 0
    {
      Reboot();
      ret := DiskRepairedRaid(diskn);
    }

    /** Without an array the first call after a restart leaves the lock taken. */
    method ReadAfterReboot(blkn: nat, data: array<bv8>) returns (ret: int)
      requires Valid() && Decode(disks[0][0]).kind.NoRaid? && data.Length == BSIZE
      modifies data, this`cache, this`cacheLoaded, this`raid, this`locked
      ensures Valid() && ret == -1 && locked
    {
      Reboot();
      ret := ReadRaid(blkn, data);
    }

    /** The number of blocks a level reports. */
    method InfoRaid() returns (ret: int, blkn: int, blks: nat, diskn: nat)
      requires Valid() && !locked && Ready(Level())
      modifies this`raid, this`locked
      ensures Valid() && Level() == old(Level())
      ensures (locked <==> ret != 0) && (ret != 0 <==> Level().NoRaid?)
      ensures ret == 0 ==> blks == BSIZE && diskn == N
      ensures match Level()
              case NoRaid => ret == -1
              case Raid0 => blkn == Z.Capacity(N, NB)
              case Raid1 => blkn == M.Capacity(M.Full, N, NB)
              case Raid01 => blkn == M.Capacity(M.Pairs, N, NB)
              case Raid4 => blkn == P.Capacity(N, NB)
              case Raid5 => blkn == P.Capacity(N, NB)
    {
      Lock();
      blkn, blks, diskn := 0, 0, 0;
      var kind := CheckRaid();
      if kind.NoRaid? {
        return -1, blkn, blks, diskn;
      }
      match kind {
        case Raid0 => blkn := N * NB - 1;
        case Raid1 => blkn := NB - 1;
        case Raid01 => blkn := (N / 2) * (NB - 1);
        case Raid4 => blkn := (N - 1) * (NB - 1);
        case Raid5 => blkn := (N - 1) * (NB - 1);
      }
      blks, diskn, ret := BSIZE, N, 0;
      Unlock();
    }
  }
}
