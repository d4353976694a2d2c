/** The `raid_data` record that every member disk keeps in its block 0. */
module RaidMeta {
  import opened Blocks

  datatype Kind = NoRaid | Raid0 | Raid1 | Raid01 | Raid4 | Raid5

  /** `working` is one byte; the engine compares it with 0 and with 1. */
  datatype RaidData = RaidData(kind: Kind, working: bv8)

  /** A reply of an engine call: its return code, and the block a successful read delivers. */
  datatype Reply = Reply(code: int, data: seq<bv8>)

  /** Bytes of the record: a four-byte enumeration value, then `working` (three padding bytes follow). */
  const RECORD: nat := 5

  function KindByte(k: Kind): bv8 {
    match k
    case NoRaid => 0
    case Raid0 => 1
    case Raid1 => 2
    case Raid01 => 3
    case Raid4 => 4
    case Raid5 => 5
  }

  function RecordBytes(m: RaidData): (r: seq<bv8>)
    ensures |r| == RECORD
  {
    [KindByte(m.kind), 0, 0, 0, m.working]
  }

  /** Block 0 after a record is stored in it; everything past the record is left-over buffer content. */
  function Encode(m: RaidData, junk: Block): Block {
    RecordBytes(m) + junk[RECORD..]
  }

  /** Values outside the enumeration are only ever tested for membership, and count as no RAID. */
  function Decode(b: Block): RaidData {
    var kind := if b[1] != 0 || b[2] != 0 || b[3] != 0 then NoRaid
                else if b[0] == 1 then Raid0
                else if b[0] == 2 then Raid1
                else if b[0] == 3 then Raid01
                else if b[0] == 4 then Raid4
                else if b[0] == 5 then Raid5
                else NoRaid;
    RaidData(kind, b[4])
  }

  lemma DecodeEncode(m: RaidData, junk: Block)
    ensures Decode(Encode(m, junk)) == m
  {
    assert Encode(m, junk)[..RECORD] == RecordBytes(m);
    forall i | 0 <= i < RECORD ensures Encode(m, junk)[i] == RecordBytes(m)[i] {
    }
  }

  /** Any block that starts with a record's bytes is an encoding of that record. */
  lemma EncodeSelf(m: RaidData, b: Block)
    requires b[..RECORD] == RecordBytes(m)
    ensures Encode(m, b) == b && Decode(b) == m
  {
    assert b == b[..RECORD] + b[RECORD..];
    DecodeEncode(m, b);
  }

  /** A disk works when the record in its block 0 says so. */
  predicate Up(s: Disks, d: nat)
    requires d < |s| && |s[d]| > 0
  {
    Decode(s[d][0]).working == 1
  }

  /** Every disk of the set carries the record of the same level and a 0/1 flag. */
  ghost predicate Formatted(s: Disks, kind: Kind, n: nat, nb: nat) {
    && nb >= 1
    && Shaped(s, n, nb)
    && forall d :: 0 <= d < n ==>
         Decode(s[d][0]).kind == kind && (Decode(s[d][0]).working == 0 || Decode(s[d][0]).working == 1)
  }

  /** Recording a disk's flag in its block 0. */
  function SetFlag(s: Disks, d: nat, kind: Kind, working: bv8, junk: Block): Disks
    requires d < |s| && |s[d]| > 0
  {
    Put(s, d, 0, Encode(RaidData(kind, working), junk))
  }

  lemma SetFlagFormatted(s: Disks, d: nat, kind: Kind, up: bool, junk: Block, n: nat, nb: nat)
    requires Formatted(s, kind, n, nb) && d < n
    ensures var t := SetFlag(s, d, kind, if up then 1 else 0, junk);
            && Formatted(t, kind, n, nb)
            && Up(t, d) == up
            && (forall e :: 0 <= e < n && e != d ==> t[e] == s[e])
            && t[d][1..] == s[d][1..]
  {
    DecodeEncode(RaidData(kind, if up then 1 else 0), junk);
  }

  /** What initialisation does: a fresh record in block 0 of every disk, all other blocks untouched. */
  ghost predicate Initialised(s: Disks, t: Disks, kind: Kind) {
    && |t| == |s|
    && forall d :: 0 <= d < |s| ==>
         |t[d]| == |s[d]| > 0 && t[d][1..] == s[d][1..] && Decode(t[d][0]) == RaidData(kind, 1)
  }
}
