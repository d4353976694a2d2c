/** The on-disk structures of the file system: bitmap, data blocks, indirect blocks and inodes,
    and the invariant that every block has at most one owner. */
module DiskLayout {
  import opened Params

  const NDIRECT: nat := 12
  const NINDIRECT: nat := 256
  const MAXFILE: nat := 268           // NDIRECT + NINDIRECT
  const INDIRECT: nat := 268          // the slot of the indirect block itself
  const NSLOTS: nat := 269
  const MAXBYTES: nat := 274432       // MAXFILE * BSIZE
  const TWO32: nat := 0x1_0000_0000

  newtype byte = x: int | 0 <= x < 256

  type FileBlock = b: seq<byte> | |b| == BSIZE witness seq(BSIZE, i => 0)

  datatype Inode = Inode(addrs: seq<nat>, size: nat)

  const EmptyInode: Inode := Inode([0, 0, 0, 0, 0, 0, 0, 0, 0, 0, 0, 0, 0], 0)

  function Zeroed(): FileBlock {
    seq(BSIZE, i => 0)
  }

  // ---------------------------------------------------------------- words of an indirect block

  function Word(b: FileBlock, j: nat): (w: nat)
    requires j < NINDIRECT
    ensures w < TWO32
  {
    b[4 * j] as int + 0x100 * b[4 * j + 1] as int + 0x1_0000 * b[4 * j + 2] as int + 0x100_0000 * b[4 * j + 3] as int
  }

  function WordBytes(w: nat): (r: seq<byte>)
    requires w < TWO32
    ensures |r| == 4
  {
    [(w % 0x100) as byte, (w / 0x100 % 0x100) as byte, (w / 0x1_0000 % 0x100) as byte, (w / 0x100_0000) as byte]
  }

  function SetWord(b: FileBlock, j: nat, w: nat): FileBlock
    requires j < NINDIRECT && w < TWO32
  {
    b[..4 * j] + WordBytes(w) + b[4 * j + 4..]
  }

  lemma WordSplit(w: nat)
    requires w < TWO32
    ensures w % 0x100 + 0x100 * (w / 0x100 % 0x100) + 0x1_0000 * (w / 0x1_0000 % 0x100)
            + 0x100_0000 * (w / 0x100_0000) == w
  {
    assert w / 0x1_0000 == w / 0x100 / 0x100 && w / 0x100_0000 == w / 0x1_0000 / 0x100;
  }

  lemma WordOfSet(b: FileBlock, j: nat, w: nat, k: nat)
    requires j < NINDIRECT && k < NINDIRECT && w < TWO32
    ensures Word(SetWord(b, j, w), k) == if k == j then w else Word(b, k)
  {
    var s, r := SetWord(b, j, w), WordBytes(w);
    if k == j {
      assert s[4 * j] == r[0] && s[4 * j + 1] == r[1] && s[4 * j + 2] == r[2] && s[4 * j + 3] == r[3];
      WordSplit(w);
    } else {
      assert s[4 * k] == b[4 * k] && s[4 * k + 1] == b[4 * k + 1];
      assert s[4 * k + 2] == b[4 * k + 2] && s[4 * k + 3] == b[4 * k + 3];
    }
  }

  // ---------------------------------------------------------------- the bitmap

  /** `1 << k` */
  function Mask(k: nat): bv8
    requires k < 8
  {
    if k == 0 then 1 else Mask(k - 1) * 2
  }

  lemma MaskValues()
    ensures Mask(0) == 1 && Mask(1) == 2 && Mask(2) == 4 && Mask(3) == 8
    ensures Mask(4) == 16 && Mask(5) == 32 && Mask(6) == 64 && Mask(7) == 128
  {
    assert Mask(2) == 4;
    assert Mask(4) == 16;
    assert Mask(6) == 64;
  }

  predicate Meets(x: bv8, m: bv8) { x & m != 0 }

  function Joined(x: bv8, m: bv8): bv8 { x | m }

  function Stripped(x: bv8, m: bv8): bv8 { x & !m }

  predicate Has(x: bv8, k: nat)
    requires k < 8
  {
    Meets(x, Mask(k))
  }

  function With(x: bv8, k: nat): bv8
    requires k < 8
  {
    Joined(x, Mask(k))
  }

  function Unset(x: bv8, k: nat): bv8
    requires k < 8
  {
    Stripped(x, Mask(k))
  }

  lemma MasksDisjoint(j: nat, k: nat)
    requires j < 8 && k < 8
    ensures Meets(Mask(j), Mask(k)) <==> j == k
  {
    MaskValues();
  }

  lemma BitAlgebra(x: bv8, m: bv8, n: bv8)
    requires m == n || !Meets(m, n)
    ensures Meets(m, n) ==> Meets(Joined(x, m), n) && !Meets(Stripped(x, m), n)
    ensures !Meets(m, n) ==> (Meets(Joined(x, m), n) <==> Meets(x, n)) && (Meets(Stripped(x, m), n) <==> Meets(x, n))
  {
  }

  lemma Masks(x: bv8, j: nat, k: nat)
    requires j < 8 && k < 8
    ensures Has(With(x, j), k) <==> j == k || Has(x, k)
    ensures Has(Unset(x, j), k) <==> j != k && Has(x, k)
  {
    hide Mask, Meets, Joined, Stripped;
    MasksDisjoint(j, k);
    BitAlgebra(x, Mask(j), Mask(k));
  }

  predicate Bit(bm: seq<bv8>, b: nat)
    requires b / 8 < |bm|
  {
    Has(bm[b / 8], b % 8)
  }

  function SetBit(bm: seq<bv8>, b: nat): seq<bv8>
    requires b / 8 < |bm|
  {
    bm[b / 8 := With(bm[b / 8], b % 8)]
  }

  function ClearBit(bm: seq<bv8>, b: nat): seq<bv8>
    requires b / 8 < |bm|
  {
    bm[b / 8 := Unset(bm[b / 8], b % 8)]
  }

  /** Marking or freeing one block leaves every other block's bit alone. */
  lemma BitAfter(bm: seq<bv8>, b: nat, c: nat)
    requires b / 8 < |bm| && c / 8 < |bm|
    ensures Bit(SetBit(bm, b), c) <==> c == b || Bit(bm, c)
    ensures Bit(ClearBit(bm, b), c) <==> c != b && Bit(bm, c)
  {
    hide Has, With, Unset;
    if b / 8 == c / 8 {
      Masks(bm[b / 8], b % 8, c % 8);
    }
  }

  // ---------------------------------------------------------------- slots and ownership

  /** The address in a slot of an inode: data blocks first, the indirect block last; 0 if there is none. */
  function Slot(blocks: seq<FileBlock>, ip: Inode, k: nat): nat
    requires |ip.addrs| == NDIRECT + 1
  {
    if k < NDIRECT then ip.addrs[k]
    else if k == INDIRECT then ip.addrs[NDIRECT]
    else if k < MAXFILE && 0 < ip.addrs[NDIRECT] < |blocks| then Word(blocks[ip.addrs[NDIRECT]], k - NDIRECT)
    else 0
  }

  /** The byte at position `p` of a file, whether or not it is below the file's size; holes read as zero. */
  function View(blocks: seq<FileBlock>, ip: Inode, p: nat): byte
    requires |ip.addrs| == NDIRECT + 1
  {
    var a := Slot(blocks, ip, p / BSIZE);
    if p < MAXBYTES && 0 < a < |blocks| then blocks[a][p % BSIZE] else 0
  }

  function Content(blocks: seq<FileBlock>, ip: Inode): (c: seq<byte>)
    requires |ip.addrs| == NDIRECT + 1
    ensures |c| == ip.size && forall p :: 0 <= p < ip.size ==> c[p] == View(blocks, ip, p)
  {
    seq(ip.size, p requires 0 <= p < ip.size => View(blocks, ip, p))
  }

  ghost predicate WellFormed(bm: seq<bv8>, blocks: seq<FileBlock>, inodes: seq<Inode>, start: nat) {
    && 1 <= start <= |blocks| < TWO32 && |blocks| <= 8 * |bm|
    && (forall b :: 0 <= b < start ==> Bit(bm, b))
    && (forall i :: 0 <= i < |inodes| ==> |inodes[i].addrs| == NDIRECT + 1 && inodes[i].size <= MAXBYTES)
  }

  /** Every address in use lies in the data area and is marked in the bitmap. */
  ghost predicate Marked(bm: seq<bv8>, blocks: seq<FileBlock>, inodes: seq<Inode>, start: nat)
    requires WellFormed(bm, blocks, inodes, start)
  {
    forall i, k :: 0 <= i < |inodes| && 0 <= k < NSLOTS && Slot(blocks, inodes[i], k) != 0 ==>
      start <= Slot(blocks, inodes[i], k) < |blocks| && Bit(bm, Slot(blocks, inodes[i], k))
  }

  /** No block sits in two slots, of the same inode or of different ones. */
  ghost predicate SingleOwner(blocks: seq<FileBlock>, inodes: seq<Inode>)
    requires forall i :: 0 <= i < |inodes| ==> |inodes[i].addrs| == NDIRECT + 1
  {
    forall i, k, j, m ::
      (&& 0 <= i < |inodes| && 0 <= k < NSLOTS && 0 <= j < |inodes| && 0 <= m < NSLOTS
       && Slot(blocks, inodes[i], k) != 0
       && Slot(blocks, inodes[i], k) == Slot(blocks, inodes[j], m)) ==>
        i == j && k == m
  }

  ghost predicate Inv(bm: seq<bv8>, blocks: seq<FileBlock>, inodes: seq<Inode>, start: nat) {
    WellFormed(bm, blocks, inodes, start) && Marked(bm, blocks, inodes, start) && SingleOwner(blocks, inodes)
  }

  // ---------------------------------------------------------------- how single updates act

  lemma ZeroWords(j: nat)
    requires j < NINDIRECT
    ensures Word(Zeroed(), j) == 0
  {
  }

  /** Slots only depend on the inode and its indirect block. */
  lemma SlotFrame(blocks: seq<FileBlock>, blocks': seq<FileBlock>, ip: Inode, k: nat)
    requires |ip.addrs| == NDIRECT + 1 && |blocks'| == |blocks|
    requires 0 < ip.addrs[NDIRECT] < |blocks| ==> blocks'[ip.addrs[NDIRECT]] == blocks[ip.addrs[NDIRECT]]
    ensures Slot(blocks', ip, k) == Slot(blocks, ip, k)
  {
  }

  /** Marking and clearing a free block changes no slot and no file. */
  lemma AllocKeeps(bm: seq<bv8>, blocks: seq<FileBlock>, inodes: seq<Inode>, start: nat, a: nat)
    requires Inv(bm, blocks, inodes, start) && a < |blocks| && !Bit(bm, a)
    ensures var bm', blocks' := SetBit(bm, a), blocks[a := Zeroed()];
            && a >= start && Inv(bm', blocks', inodes, start)
            && (forall i, k :: 0 <= i < |inodes| && 0 <= k < NSLOTS ==>
                  Slot(blocks', inodes[i], k) == Slot(blocks, inodes[i], k) != a)
            && (forall i, p :: 0 <= i < |inodes| && 0 <= p < MAXBYTES ==>
                  View(blocks', inodes[i], p) == View(blocks, inodes[i], p))
  {
    var bm', blocks' := SetBit(bm, a), blocks[a := Zeroed()];
    forall b | 0 <= b < |blocks| ensures Bit(bm', b) <==> b == a || Bit(bm, b) {
      BitAfter(bm, a, b);
    }
    forall i, k | 0 <= i < |inodes| && 0 <= k < NSLOTS
      ensures Slot(blocks', inodes[i], k) == Slot(blocks, inodes[i], k) != a
    {
      assert Slot(blocks, inodes[i], INDIRECT) != a;
      SlotFrame(blocks, blocks', inodes[i], k);
      assert Slot(blocks, inodes[i], k) != a;
    }
  }

  /** Two images whose files look the same, position by position. */
  ghost predicate SameViews(blocks: seq<FileBlock>, inodes: seq<Inode>, blocks': seq<FileBlock>, inodes': seq<Inode>)
    requires |inodes'| == |inodes|
    requires forall i :: 0 <= i < |inodes| ==> |inodes[i].addrs| == |inodes'[i].addrs| == NDIRECT + 1
  {
    forall i, p :: 0 <= i < |inodes| && 0 <= p < MAXBYTES ==>
      View(blocks', inodes'[i], p) == View(blocks, inodes[i], p)
  }

  /** The slots of an image after slot `k0` of inode `i0` received address `a`. */
  ghost predicate Attached(blocks: seq<FileBlock>, inodes: seq<Inode>, blocks': seq<FileBlock>, inodes': seq<Inode>,
                           i0: nat, k0: nat, a: nat)
    requires |inodes'| == |inodes| && i0 < |inodes|
    requires forall i :: 0 <= i < |inodes| ==> |inodes[i].addrs| == |inodes'[i].addrs| == NDIRECT + 1
  {
    forall i, k :: 0 <= i < |inodes| && 0 <= k < NSLOTS ==>
      Slot(blocks', inodes'[i], k) == if i == i0 && k == k0 then a else Slot(blocks, inodes[i], k)
  }

  /** A marked block that is in no slot yet may be put into an empty one. */
  lemma AttachKeeps(bm: seq<bv8>, blocks: seq<FileBlock>, inodes: seq<Inode>, start: nat,
                    blocks': seq<FileBlock>, inodes': seq<Inode>, i0: nat, k0: nat, a: nat)
    requires Inv(bm, blocks, inodes, start) && i0 < |inodes| && k0 < NSLOTS && start <= a < |blocks| && Bit(bm, a)
    requires forall i, k :: 0 <= i < |inodes| && 0 <= k < NSLOTS ==> Slot(blocks, inodes[i], k) != a
    requires |inodes'| == |inodes| && |blocks'| == |blocks|
    requires forall i :: 0 <= i < |inodes| ==> |inodes'[i].addrs| == NDIRECT + 1 && inodes'[i].size == inodes[i].size
    requires Attached(blocks, inodes, blocks', inodes', i0, k0, a)
    ensures Inv(bm, blocks', inodes', start)
  {
  }

  /** Entering a fresh zeroed block in the inode itself: a direct block, or the indirect block. */
  lemma AttachInInode(bm: seq<bv8>, blocks: seq<FileBlock>, inodes: seq<Inode>, start: nat, i0: nat, c: nat, a: nat)
    requires Inv(bm, blocks, inodes, start) && i0 < |inodes| && c <= NDIRECT && start <= a < |blocks| && Bit(bm, a)
    requires inodes[i0].addrs[c] == 0 && blocks[a] == Zeroed()
    requires forall i, k :: 0 <= i < |inodes| && 0 <= k < NSLOTS ==> Slot(blocks, inodes[i], k) != a
    ensures var inodes' := inodes[i0 := inodes[i0].(addrs := inodes[i0].addrs[c := a])];
            var k0 := if c < NDIRECT then c else INDIRECT;
            && Inv(bm, blocks, inodes', start)
            && Attached(blocks, inodes, blocks, inodes', i0, k0, a)
            && SameViews(blocks, inodes, blocks, inodes')
  {
    var inodes' := inodes[i0 := inodes[i0].(addrs := inodes[i0].addrs[c := a])];
    var k0 := if c < NDIRECT then c else INDIRECT;
    forall i, k | 0 <= i < |inodes| && 0 <= k < NSLOTS
      ensures Slot(blocks, inodes'[i], k) == if i == i0 && k == k0 then a else Slot(blocks, inodes[i], k)
    {
      if i == i0 && c == NDIRECT && NDIRECT <= k < MAXFILE {
        ZeroWords(k - NDIRECT);
      }
    }
    AttachKeeps(bm, blocks, inodes, start, blocks, inodes', i0, k0, a);
    forall i, p | 0 <= i < |inodes| && 0 <= p < MAXBYTES
      ensures View(blocks, inodes'[i], p) == View(blocks, inodes[i], p)
    {
      assert Slot(blocks, inodes'[i], p / BSIZE) == if i == i0 && p / BSIZE == k0 then a
             else Slot(blocks, inodes[i], p / BSIZE);
    }
  }

  /** Entering a fresh zeroed block in the indirect block. */
  lemma AttachInIndirect(bm: seq<bv8>, blocks: seq<FileBlock>, inodes: seq<Inode>, start: nat, i0: nat, j: nat, a: nat)
    requires Inv(bm, blocks, inodes, start) && i0 < |inodes| && j < NINDIRECT && start <= a < |blocks| && Bit(bm, a)
    requires inodes[i0].addrs[NDIRECT] != 0 && Slot(blocks, inodes[i0], NDIRECT + j) == 0 && blocks[a] == Zeroed()
    requires forall i, k :: 0 <= i < |inodes| && 0 <= k < NSLOTS ==> Slot(blocks, inodes[i], k) != a
    ensures var x := inodes[i0].addrs[NDIRECT];
            && x < |blocks|
            && var blocks' := blocks[x := SetWord(blocks[x], j, a)];
               && Inv(bm, blocks', inodes, start)
               && Attached(blocks, inodes, blocks', inodes, i0, NDIRECT + j, a)
               && SameViews(blocks, inodes, blocks', inodes)
  {
    var x := inodes[i0].addrs[NDIRECT];
    assert Slot(blocks, inodes[i0], INDIRECT) == x;
    var blocks' := blocks[x := SetWord(blocks[x], j, a)];
    forall i, k | 0 <= i < |inodes| && 0 <= k < NSLOTS
      ensures Slot(blocks', inodes[i], k) == if i == i0 && k == NDIRECT + j then a else Slot(blocks, inodes[i], k)
    {
      if i == i0 {
        if NDIRECT <= k < MAXFILE {
          WordOfSet(blocks[x], j, a, k - NDIRECT);
        }
      } else {
        assert Slot(blocks, inodes[i], INDIRECT) != x;
        SlotFrame(blocks, blocks', inodes[i], k);
      }
    }
    AttachKeeps(bm, blocks, inodes, start, blocks', inodes, i0, NDIRECT + j, a);
    forall i, p | 0 <= i < |inodes| && 0 <= p < MAXBYTES
      ensures View(blocks', inodes[i], p) == View(blocks, inodes[i], p)
    {
      var k := p / BSIZE;
      assert Slot(blocks', inodes[i], k) == if i == i0 && k == NDIRECT + j then a else Slot(blocks, inodes[i], k);
      assert Slot(blocks, inodes[i], k) != x;
      assert a != x;
    }
  }

  ghost predicate SameSlots(blocks: seq<FileBlock>, blocks': seq<FileBlock>, inodes: seq<Inode>)
    requires forall i :: 0 <= i < |inodes| ==> |inodes[i].addrs| == NDIRECT + 1
  {
    forall i, k :: 0 <= i < |inodes| && 0 <= k < NSLOTS ==>
      Slot(blocks', inodes[i], k) == Slot(blocks, inodes[i], k)
  }

  ghost predicate DataWritten(blocks: seq<FileBlock>, blocks': seq<FileBlock>, inodes: seq<Inode>, i0: nat, k0: nat,
                              data: FileBlock)
    requires forall i :: 0 <= i < |inodes| ==> |inodes[i].addrs| == NDIRECT + 1
  {
    forall i: nat, p: nat :: i < |inodes| && p < MAXBYTES ==> ViewWritten(blocks, blocks', inodes, i0, k0, data, i, p)
  }

  predicate ViewWritten(blocks: seq<FileBlock>, blocks': seq<FileBlock>, inodes: seq<Inode>, i0: nat, k0: nat,
                        data: FileBlock,
                        i: nat, p: nat)
    requires i < |inodes| && |inodes[i].addrs| == NDIRECT + 1
  {
    View(blocks', inodes[i], p) ==
    if i == i0 && p / BSIZE == k0 then data[p % BSIZE] else View(blocks, inodes[i], p)
  }

  /** Writing data blocks touches no slot, and only the owning file, only within that block. */
  lemma DataWriteKeeps(bm: seq<bv8>, blocks: seq<FileBlock>, inodes: seq<Inode>, start: nat, i0: nat, k0: nat,
                       data: FileBlock)
    requires Inv(bm, blocks, inodes, start) && i0 < |inodes| && k0 < MAXFILE && Slot(blocks, inodes[i0], k0) != 0
    ensures var a := Slot(blocks, inodes[i0], k0);
            && start <= a < |blocks|
            && var blocks' := blocks[a := data];
               && Inv(bm, blocks', inodes, start)
               && SameSlots(blocks, blocks', inodes)
               && DataWritten(blocks, blocks', inodes, i0, k0, data)
  {
    var a := Slot(blocks, inodes[i0], k0);
    var blocks' := blocks[a := data];
    forall i, k | 0 <= i < |inodes| && 0 <= k < NSLOTS
      ensures Slot(blocks', inodes[i], k) == Slot(blocks, inodes[i], k)
    {
      assert Slot(blocks, inodes[i], INDIRECT) != a;
      SlotFrame(blocks, blocks', inodes[i], k);
    }
    assert Inv(bm, blocks', inodes, start) by {
      assert WellFormed(bm, blocks', inodes, start);
      assert Marked(bm, blocks', inodes, start);
      assert SingleOwner(blocks', inodes);
    }
    forall i: nat, p: nat | i < |inodes| && p < MAXBYTES
      ensures ViewWritten(blocks, blocks', inodes, i0, k0, data, i, p)
    {
      assert Slot(blocks', inodes[i], p / BSIZE) == Slot(blocks, inodes[i], p / BSIZE);
    }
  }
}
