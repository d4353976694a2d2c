/** FileBlock allocation, block maps, and file reading and writing, as they change the disk image in place. */
module FileSystem {
  import opened Params
  import opened DiskLayout

  const BPB: nat := 8192          // bitmap bits per block
  const IPB: nat := 16            // inodes per block
  const CHUNK: nat := (MAXOPBLOCKS - 1 - 1 - 2) / 2 * BSIZE   // bytes per transaction of a file write

  /** The bytes of files after `src` went into file `ip` at positions `lo..hi`, nothing else changed. */
  ghost predicate Overlaid(blocks: seq<FileBlock>, inodes: seq<Inode>, blocks': seq<FileBlock>, inodes': seq<Inode>,
                           ip: nat, lo: nat, hi: nat, src: seq<byte>)
    requires |inodes'| == |inodes| && lo <= hi <= lo + |src|
    requires forall i :: 0 <= i < |inodes| ==> |inodes[i].addrs| == |inodes'[i].addrs| == NDIRECT + 1
  {
    forall i: nat, p: nat :: i < |inodes| && p < MAXBYTES ==>
      OverlaidAt(blocks, inodes, blocks', inodes', ip, lo, hi, src, i, p)
  }

  predicate OverlaidAt(blocks: seq<FileBlock>, inodes: seq<Inode>, blocks': seq<FileBlock>, inodes': seq<Inode>,
                       ip: nat, lo: nat, hi: nat, src: seq<byte>, i: nat, p: nat)
    requires lo <= hi <= lo + |src| && i < |inodes| && i < |inodes'|
    requires |inodes[i].addrs| == |inodes'[i].addrs| == NDIRECT + 1
  {
    View(blocks', inodes'[i], p) == if i == ip && lo <= p < hi then src[p - lo] else View(blocks, inodes[i], p)
  }

  /** Mapping a block and copying a piece into it overlays exactly that piece. */
  lemma PieceOverlay(b1: seq<FileBlock>, i1: seq<Inode>, b2: seq<FileBlock>, i2: seq<Inode>, b3: seq<FileBlock>,
                     ip: nat, off: nat, hi: nat, piece: seq<byte>, data: FileBlock)
    requires |i2| == |i1| && ip < |i1| && off <= hi == off + |piece| <= MAXBYTES
    requires forall i :: 0 <= i < |i1| ==> |i1[i].addrs| == |i2[i].addrs| == NDIRECT + 1
    requires off % BSIZE + |piece| <= BSIZE
    requires SameViews(b1, i1, b2, i2) && DataWritten(b2, b3, i2, ip, off / BSIZE, data)
    requires 0 < Slot(b2, i2[ip], off / BSIZE) < |b2|
    requires data == b2[Slot(b2, i2[ip], off / BSIZE)][..off % BSIZE] + piece
                     + b2[Slot(b2, i2[ip], off / BSIZE)][off % BSIZE + |piece|..]
    ensures Overlaid(b1, i1, b3, i2, ip, off, hi, piece)
  {
    forall i: nat, p: nat | i < |i1| && p < MAXBYTES
      ensures OverlaidAt(b1, i1, b3, i2, ip, off, hi, piece, i, p)
    {
      assert View(b2, i2[i], p) == View(b1, i1[i], p);
      assert ViewWritten(b2, b3, i2, ip, off / BSIZE, data, i, p);
      if i == ip && p / BSIZE == off / BSIZE {
        var q, o := p % BSIZE, off % BSIZE;
        assert p - off == q - o;
        if o <= q < o + |piece| {
          assert data[q] == piece[p - off];
        } else {
          assert data[q] == b2[Slot(b2, i2[ip], off / BSIZE)][q];
        }
      }
    }
  }

  /** Pieces join up. */
  lemma OverlayJoin(b0: seq<FileBlock>, i0: seq<Inode>, b1: seq<FileBlock>, i1: seq<Inode>, b2: seq<FileBlock>,
                    i2: seq<Inode>,
                    ip: nat, lo: nat, off: nat, hi: nat, src: seq<byte>)
    requires |i2| == |i1| == |i0| && lo <= off <= hi <= lo + |src|
    requires forall i :: 0 <= i < |i0| ==> |i0[i].addrs| == |i1[i].addrs| == |i2[i].addrs| == NDIRECT + 1
    requires Overlaid(b0, i0, b1, i1, ip, lo, off, src)
    requires Overlaid(b1, i1, b2, i2, ip, off, hi, src[off - lo..hi - lo])
    ensures Overlaid(b0, i0, b2, i2, ip, lo, hi, src)
  {
    forall i: nat, p: nat | i < |i0| && p < MAXBYTES
      ensures OverlaidAt(b0, i0, b2, i2, ip, lo, hi, src, i, p)
    {
      assert OverlaidAt(b0, i0, b1, i1, ip, lo, off, src, i, p);
      assert OverlaidAt(b1, i1, b2, i2, ip, off, hi, src[off - lo..hi - lo], i, p);
    }
  }

  lemma OverlayNothing(b0: seq<FileBlock>, i0: seq<Inode>, b1: seq<FileBlock>, i1: seq<Inode>, ip: nat, lo: nat,
                       src: seq<byte>)
    requires |i1| == |i0|
    requires forall i :: 0 <= i < |i0| ==> |i0[i].addrs| == |i1[i].addrs| == NDIRECT + 1
    requires SameViews(b0, i0, b1, i1)
    ensures Overlaid(b0, i0, b1, i1, ip, lo, lo, src)
  {
    forall i: nat, p: nat | i < |i0| && p < MAXBYTES
      ensures OverlaidAt(b0, i0, b1, i1, ip, lo, lo, src, i, p)
    {
    }
  }

  function Max(a: nat, b: nat): nat {
    if a < b then b else a
  }

  /** A byte string with `piece` written over it at `lo`, growing if the piece reaches past its end. */
  function Splice(c: seq<byte>, lo: nat, piece: seq<byte>): seq<byte>
    requires lo <= |c|
  {
    c[..lo] + piece + c[if lo + |piece| < |c| then lo + |piece| else |c|..]
  }

  /** The contents of all files after an overlay: one file is spliced, no other changes. */
  lemma OverlayContent(b0: seq<FileBlock>, i0: seq<Inode>, b1: seq<FileBlock>, i1: seq<Inode>,
                       ip: nat, lo: nat, hi: nat, src: seq<byte>)
    requires |i1| == |i0| && ip < |i0| && lo <= hi <= lo + |src| && lo <= i0[ip].size
    requires forall i :: 0 <= i < |i0| ==> |i0[i].addrs| == |i1[i].addrs| == NDIRECT + 1 && i1[i].size <= MAXBYTES
    requires forall i :: 0 <= i < |i0| ==> i1[i].size == if i == ip then Max(i0[ip].size, hi) else i0[i].size
    requires Overlaid(b0, i0, b1, i1, ip, lo, hi, src)
    ensures Content(b1, i1[ip]) == Splice(Content(b0, i0[ip]), lo, src[..hi - lo])
    ensures forall i :: 0 <= i < |i0| && i != ip ==> Content(b1, i1[i]) == Content(b0, i0[i])
  {
    var was, now := Content(b0, i0[ip]), Content(b1, i1[ip]);
    var want := Splice(was, lo, src[..hi - lo]);
    assert |now| == |want|;
    forall p | 0 <= p < |now| ensures now[p] == want[p] {
      assert OverlaidAt(b0, i0, b1, i1, ip, lo, hi, src, ip, p);
    }
    forall i | 0 <= i < |i0| && i != ip ensures Content(b1, i1[i]) == Content(b0, i0[i]) {
      forall p | 0 <= p < i0[i].size ensures Content(b1, i1[i])[p] == Content(b0, i0[i])[p] {
        assert OverlaidAt(b0, i0, b1, i1, ip, lo, hi, src, i, p);
      }
    }
  }

  ghost predicate Full(bm: seq<bv8>, blocks: seq<FileBlock>)
    requires |blocks| <= 8 * |bm|
  {
    forall b: nat :: b < |blocks| ==> Bit(bm, b)
  }

  /** Every block below the file's size is allocated. */
  ghost predicate HoleFree(blocks: seq<FileBlock>, f: Inode)
    requires |f.addrs| == NDIRECT + 1
  {
    forall bn: nat :: bn * BSIZE < f.size && bn < MAXFILE ==> Slot(blocks, f, bn) != 0
  }

  function NonZero(a: nat): set<nat> {
    if a == 0 then {} else {a}
  }

  /** What mapping a block adds to the transaction: the block, the indirect block, and one
      bitmap block for each of the two that is new. */
  ghost predicate MapLogs(was: set<nat>, now: set<nat>, ind0: nat, ind: nat, slot0: nat, addr: nat, bms: set<nat>) {
    && now <= was + NonZero(addr) + NonZero(ind) + bms
    && |bms| <= (if slot0 == 0 && addr != 0 then 1 else 0) + (if ind0 == 0 && ind != 0 then 1 else 0)
    && (ind0 != 0 ==> ind == ind0)
  }

  lemma {:induction false} SubsetSize(a: set<nat>, b: set<nat>)
    requires a <= b
    ensures |a| <= |b|
  {
    if a != {} {
      var x :| x in a;
      SubsetSize(a - {x}, b - {x});
    }
  }

  /** The transaction after `visited` rounds, `kept` of which found their block allocated:
      data blocks `ds`, bitmap blocks `bs`, and the indirect block. */
  ghost predicate Tally(now: set<nat>, was: set<nat>, ds: set<nat>, bs: set<nat>, ind0: nat, ind: nat,
                        visited: nat, kept: nat) {
    && now <= was + ds + NonZero(ind) + bs
    && |ds| <= visited && kept <= visited
    && |bs| <= visited - kept + (if ind0 == 0 && ind != 0 then 1 else 0)
    && (ind0 != 0 ==> ind == ind0)
  }

  lemma TallyRound(was: set<nat>, now: set<nat>, now': set<nat>, ds: set<nat>, bs: set<nat>, ind0: nat, ind: nat,
                   ind': nat,
                   visited: nat, kept: nat, slot: nat, addr: nat, bms: set<nat>)
    requires Tally(now, was, ds, bs, ind0, ind, visited, kept)
    requires MapLogs(now, now', ind, ind', slot, addr, bms) && (slot != 0 ==> addr != 0)
    ensures addr != 0 ==>
              Tally(now', was, ds + {addr}, bs + bms, ind0, ind', visited + 1, kept + (if slot != 0 then 1 else 0))
    ensures addr == 0 ==> Tally(now', was, ds, bs + bms, ind0, ind', visited, kept)
  {
    assert |bs + bms| <= |bs| + |bms|;
    assert |ds + {addr}| <= |ds| + 1;
  }

  /** Four data blocks, one of them found allocated, or three data blocks: at most ten blocks in all. */
  lemma TallyBound(now: set<nat>, ds: set<nat>, bs: set<nat>, ind0: nat, ind: nat, visited: nat, kept: nat, inode: nat)
    requires Tally(now, {}, ds, bs, ind0, ind, visited, kept)
    requires visited <= 3 || (visited == 4 && kept >= 1)
    ensures |now + {inode}| <= MAXOPBLOCKS
  {
    var all := ds + NonZero(ind) + bs + {inode};
    SubsetSize(now + {inode}, all);
    assert |ds + NonZero(ind)| <= |ds| + 1;
    assert |ds + NonZero(ind) + bs| <= |ds + NonZero(ind)| + |bs|;
    assert |all| <= |ds + NonZero(ind) + bs| + 1;
  }

  /** Blocks visited by the writing loop once it has reached `off`. */
  function Visited(off0: nat, off: nat): (v: nat)
    requires off0 <= off
    ensures off > off0 ==> v == (off - 1) / BSIZE - off0 / BSIZE + 1
  {
    if off == off0 then 0 else (off - 1) / BSIZE - off0 / BSIZE + 1
  }

  lemma VisitedStep(off0: nat, off: nat, m: nat)
    requires off0 <= off && (off == off0 || off % BSIZE == 0) && 0 < m <= BSIZE - off % BSIZE
    ensures off / BSIZE == off0 / BSIZE + Visited(off0, off)
    ensures Visited(off0, off + m) == Visited(off0, off) + 1
    ensures m == BSIZE - off % BSIZE ==> (off + m) % BSIZE == 0
  {
  }

  lemma VisitedBound(off0: nat, off: nat)
    requires off0 <= off <= off0 + CHUNK
    ensures Visited(off0, off) <= if off0 % BSIZE == 0 then 3 else 4
  {
  }

  /** A disk image with the transaction that produced it. */
  datatype Image = Image(blocks: seq<FileBlock>, inodes: seq<Inode>, logged: set<nat>)

  ghost predicate Shaped(x: Image) {
    forall i :: 0 <= i < |x.inodes| ==> |x.inodes[i].addrs| == NDIRECT + 1
  }

  /** No file but `ip` changes its contents. */
  ghost predicate OthersSame(x: Image, y: Image, ip: nat) {
    && Shaped(x) && Shaped(y) && |y.inodes| == |x.inodes| && ip < |x.inodes|
    && forall i :: 0 <= i < |x.inodes| && i != ip ==>
         Content(y.blocks, y.inodes[i]) == Content(x.blocks, x.inodes[i])
  }

  /** The addresses of other files, and all sizes, stay as they are. */
  ghost predicate SameTable(x: Image, y: Image, ip: nat) {
    && Shaped(x) && Shaped(y) && |y.inodes| == |x.inodes| && ip < |x.inodes|
    && y.inodes[ip].size == x.inodes[ip].size
    && forall i :: 0 <= i < |x.inodes| && i != ip ==> y.inodes[i] == x.inodes[i]
  }

  /** FileBlock `bn` of file `ip` has been looked up at `addr`, or filled in; no file shows it. */
  ghost predicate Mapped(x: Image, y: Image, ip: nat, bn: nat, addr: nat, bms: set<nat>) {
    && SameTable(x, y, ip) && |y.blocks| == |x.blocks| && SameViews(x.blocks, x.inodes, y.blocks, y.inodes)
    && addr == Slot(y.blocks, y.inodes[ip], bn)
    && (Slot(x.blocks, x.inodes[ip], bn) != 0 ==> addr == Slot(x.blocks, x.inodes[ip], bn))
    && (forall k :: 0 <= k < MAXFILE && k != bn ==>
          Slot(y.blocks, y.inodes[ip], k) == Slot(x.blocks, x.inodes[ip], k))
    && MapLogs(x.logged, y.logged, x.inodes[ip].addrs[NDIRECT], y.inodes[ip].addrs[NDIRECT],
               Slot(x.blocks, x.inodes[ip], bn), addr, bms)
  }

  /** File `ip` has its indirect block at `ind`, old or new; its data blocks are where they were. */
  ghost predicate Prepared(x: Image, y: Image, ip: nat, ind: nat, bms: set<nat>) {
    && SameTable(x, y, ip) && |y.blocks| == |x.blocks| && SameViews(x.blocks, x.inodes, y.blocks, y.inodes)
    && y.inodes[ip].addrs[NDIRECT] == ind
    && (forall k :: 0 <= k < MAXFILE ==> Slot(y.blocks, y.inodes[ip], k) == Slot(x.blocks, x.inodes[ip], k))
    && MapLogs(x.logged, y.logged, x.inodes[ip].addrs[NDIRECT], ind, 0, 0, bms)
  }

  lemma MappedThrough(x: Image, y: Image, z: Image, ip: nat, bn: nat, ind: nat, addr: nat, bms: set<nat>,
                      more: set<nat>)
    requires Prepared(x, y, ip, ind, bms) && NDIRECT <= bn < MAXFILE
    requires Shaped(z) && z.inodes == y.inodes && |z.blocks| == |y.blocks|
    requires SameViews(y.blocks, y.inodes, z.blocks, z.inodes)
    requires addr == Slot(z.blocks, z.inodes[ip], bn)
    requires Slot(y.blocks, y.inodes[ip], bn) != 0 ==> addr == Slot(y.blocks, y.inodes[ip], bn) && more == {}
    requires forall k :: 0 <= k < MAXFILE && k != bn ==>
               Slot(z.blocks, z.inodes[ip], k) == Slot(y.blocks, y.inodes[ip], k)
    requires z.logged <= y.logged + NonZero(addr) + NonZero(ind) + more
    requires |more| <= if addr == 0 then 0 else 1
    ensures Mapped(x, z, ip, bn, addr, bms + more)
  {
    assert |bms + more| <= |bms| + |more|;
  }

  lemma BitAt(bm: seq<bv8>, b: nat, bi: nat)
    requires b % BPB == 0 && (b + bi) / 8 < |bm|
    ensures b / 8 + bi / 8 == (b + bi) / 8
    ensures Bit(bm, b + bi) <==> Has(bm[b / 8 + bi / 8], bi % 8)
    ensures SetBit(bm, b + bi) == bm[b / 8 + bi / 8 := With(bm[b / 8 + bi / 8], bi % 8)]
  {
    assert b / 8 + bi / 8 == (b + bi) / 8 && bi % 8 == (b + bi) % 8;
  }

  /** The effect of one round of the writing loop at `off`; `addr` is 0 if no block could be had. */
  ghost predicate PieceDone(x: Image, y: Image, ip: nat, off: nat, piece: seq<byte>, addr: nat, bms: set<nat>) {
    && SameTable(x, y, ip)
    && (addr != 0 ==> Overlaid(x.blocks, x.inodes, y.blocks, y.inodes, ip, off, off + |piece|, piece))
    && (addr == 0 ==> SameViews(x.blocks, x.inodes, y.blocks, y.inodes))
    && addr == Slot(y.blocks, y.inodes[ip], off / BSIZE)
    && (forall k :: 0 <= k < MAXFILE && k != off / BSIZE ==>
          Slot(y.blocks, y.inodes[ip], k) == Slot(x.blocks, x.inodes[ip], k))
    && (Slot(x.blocks, x.inodes[ip], off / BSIZE) != 0 ==> addr != 0)
    && MapLogs(x.logged, y.logged, x.inodes[ip].addrs[NDIRECT], y.inodes[ip].addrs[NDIRECT],
               Slot(x.blocks, x.inodes[ip], off / BSIZE), addr, bms)
  }

  /** The writing loop at `off`: the bytes so far, the slots so far, and the tally of its transaction. */
  ghost predicate Progress(x: Image, y: Image, ip: nat, src: seq<byte>, off0: nat, off: nat,
                           ds: set<nat>, bs: set<nat>, kept: nat) {
    && SameTable(x, y, ip) && off0 <= off <= off0 + |src| <= MAXBYTES
    && (off0 < off < off0 + |src| ==> off % BSIZE == 0)
    && Overlaid(x.blocks, x.inodes, y.blocks, y.inodes, ip, off0, off, src)
    && SlotsFilled(x, y, ip, off0 / BSIZE, off0 / BSIZE + Visited(off0, off))
    && TallyAt(x, y, ip, off0, off, ds, bs, kept)
  }

  ghost predicate TallyAt(x: Image, y: Image, ip: nat, off0: nat, off: nat, ds: set<nat>, bs: set<nat>, kept: nat)
    requires SameTable(x, y, ip) && off0 <= off
  {
    && Tally(y.logged, x.logged, ds, bs, x.inodes[ip].addrs[NDIRECT], y.inodes[ip].addrs[NDIRECT], Visited(off0, off),
             kept)
    && (Slot(x.blocks, x.inodes[ip], off0 / BSIZE) != 0 && off > off0 ==> kept >= 1)
  }

  /** Slots `from..to` are in use, the others are as before. */
  ghost predicate SlotsFilled(x: Image, y: Image, ip: nat, from: nat, to: nat)
    requires SameTable(x, y, ip)
  {
    forall k: nat :: k < MAXFILE ==>
      if from <= k < to then Slot(y.blocks, y.inodes[ip], k) != 0
      else Slot(y.blocks, y.inodes[ip], k) == Slot(x.blocks, x.inodes[ip], k)
  }

  lemma RoundBytes(x: Image, y: Image, z: Image, ip: nat, src: seq<byte>, off0: nat, off: nat, m: nat,
                   piece: seq<byte>, addr: nat, bms: set<nat>)
    requires SameTable(x, y, ip) && off0 <= off && off + m <= off0 + |src| <= MAXBYTES
    requires Overlaid(x.blocks, x.inodes, y.blocks, y.inodes, ip, off0, off, src)
    requires piece == src[off - off0..off - off0 + m] && PieceDone(y, z, ip, off, piece, addr, bms)
    ensures SameTable(x, z, ip)
    ensures Overlaid(x.blocks, x.inodes, z.blocks, z.inodes, ip, off0, if addr == 0 then off else off + m, src)
  {
    if addr == 0 {
      OverlayNothing(y.blocks, y.inodes, z.blocks, z.inodes, ip, off, src[off - off0..off - off0]);
      OverlayJoin(x.blocks, x.inodes, y.blocks, y.inodes, z.blocks, z.inodes, ip, off0, off, off, src);
    } else {
      OverlayJoin(x.blocks, x.inodes, y.blocks, y.inodes, z.blocks, z.inodes, ip, off0, off, off + m, src);
    }
  }

  lemma RoundSlots(x: Image, y: Image, z: Image, ip: nat, off: nat, from: nat, to: nat, piece: seq<byte>, addr: nat,
                   bms: set<nat>)
    requires SameTable(x, y, ip) && SlotsFilled(x, y, ip, from, to) && PieceDone(y, z, ip, off, piece, addr, bms)
    requires from <= to == off / BSIZE
    ensures SameTable(x, z, ip) && SlotsFilled(x, z, ip, from, if addr == 0 then to else to + 1)
  {
  }

  lemma RoundTally(x: Image, y: Image, z: Image, ip: nat, off0: nat, off: nat, m: nat, ds: set<nat>, bs: set<nat>,
                   kept: nat,
                   piece: seq<byte>, addr: nat, bms: set<nat>)
    requires SameTable(x, y, ip) && off0 <= off && TallyAt(x, y, ip, off0, off, ds, bs, kept)
    requires PieceDone(y, z, ip, off, piece, addr, bms) && m > 0
    requires Visited(off0, off + m) == Visited(off0, off) + 1
    requires off == off0 ==> Slot(x.blocks, x.inodes[ip], off0 / BSIZE) == Slot(y.blocks, y.inodes[ip], off / BSIZE)
    ensures SameTable(x, z, ip)
    ensures addr != 0 ==> TallyAt(x, z, ip, off0, off + m, ds + {addr}, bs + bms,
                                  kept + if Slot(y.blocks, y.inodes[ip], off / BSIZE) != 0 then 1 else 0)
    ensures addr == 0 ==> TallyAt(x, z, ip, off0, off, ds, bs + bms, kept)
  {
    TallyRound(x.logged, y.logged, z.logged, ds, bs, x.inodes[ip].addrs[NDIRECT], y.inodes[ip].addrs[NDIRECT],
               z.inodes[ip].addrs[NDIRECT], Visited(off0, off), kept, Slot(y.blocks, y.inodes[ip], off / BSIZE), addr,
                 bms);
  }

  lemma ProgressStart(x: Image, ip: nat, src: seq<byte>, off0: nat)
    requires Shaped(x) && ip < |x.inodes| && off0 + |src| <= MAXBYTES
    ensures Progress(x, x, ip, src, off0, off0, {}, {}, 0)
  {
    OverlayNothing(x.blocks, x.inodes, x.blocks, x.inodes, ip, off0, src);
  }

  lemma ProgressRound(x: Image, y: Image, z: Image, ip: nat, src: seq<byte>, off0: nat, off: nat, m: nat,
                      piece: seq<byte>, ds: set<nat>, bs: set<nat>, kept: nat, addr: nat, bms: set<nat>)
    requires Progress(x, y, ip, src, off0, off, ds, bs, kept) && off < off0 + |src|
    requires m == if off0 + |src| - off < BSIZE - off % BSIZE then off0 + |src| - off else BSIZE - off % BSIZE
    requires piece == src[off - off0..off - off0 + m] && PieceDone(y, z, ip, off, piece, addr, bms)
    ensures addr != 0 ==>
              Progress(x, z, ip, src, off0, off + m, ds + {addr}, bs + bms,
                       kept + if Slot(y.blocks, y.inodes[ip], off / BSIZE) != 0 then 1 else 0)
    ensures addr == 0 ==> Progress(x, z, ip, src, off0, off, ds, bs + bms, kept)
  {
    VisitedStep(off0, off, m);
    RoundBytes(x, y, z, ip, src, off0, off, m, piece, addr, bms);
    RoundSlots(x, y, z, ip, off, off0 / BSIZE, off0 / BSIZE + Visited(off0, off), piece, addr, bms);
    RoundTally(x, y, z, ip, off0, off, m, ds, bs, kept, piece, addr, bms);
  }

  lemma ProgressBound(x: Image, y: Image, ip: nat, src: seq<byte>, off0: nat, off: nat,
                      ds: set<nat>, bs: set<nat>, kept: nat, inode: nat)
    requires Progress(x, y, ip, src, off0, off, ds, bs, kept)
    requires x.logged == {} && |src| <= CHUNK && off0 <= x.inodes[ip].size && HoleFree(x.blocks, x.inodes[ip])
    ensures |y.logged + {inode}| <= MAXOPBLOCKS
  {
    assert off0 % BSIZE != 0 ==> (off0 / BSIZE) * BSIZE < off0;
    VisitedBound(off0, off);
    TallyBound(y.logged, ds, bs, x.inodes[ip].addrs[NDIRECT], y.inodes[ip].addrs[NDIRECT], Visited(off0, off), kept,
               inode);
  }

  /** What differs from the disk image a transaction began with is in a logged block: file and indirect
      blocks themselves, and the bitmap by its blocks of BSIZE bytes. */
  ghost predicate Covers(bm0: seq<bv8>, blocks0: seq<FileBlock>, bm: seq<bv8>, blocks: seq<FileBlock>, logged: set<nat>,
                         bmapstart: nat) {
    && |bm| == |bm0| && |blocks| == |blocks0|
    && (forall a: nat :: a < |blocks| && a !in logged ==> blocks[a] == blocks0[a])
    && (forall k: nat :: k < |bm| && bmapstart + k / BSIZE !in logged ==> bm[k] == bm0[k])
  }

  /** The bitmap blocks of a disk of `size` blocks. */
  function BitmapBlocks(bmapstart: nat, size: nat): (r: set<nat>)
    requires size > 0
    ensures |r| == (size - 1) / BPB + 1 && forall b: nat :: b < size ==> bmapstart + b / BPB in r
  {
    Span(bmapstart, (size - 1) / BPB + 1)
  }

  function Span(first: nat, k: nat): (r: set<nat>)
    ensures |r| == k && forall a :: a in r <==> first <= a < first + k
  {
    if k == 0 then {} else Span(first, k - 1) + {first + k - 1}
  }

  /** A data block, a bitmap block or an inode block. */
  predicate Home(a: nat, size: nat, ninodes: nat, start: nat, bmapstart: nat, inodestart: nat) {
    || start <= a < size
    || bmapstart <= a <= bmapstart + (size - 1) / BPB
    || inodestart <= a <= inodestart + (ninodes - 1) / IPB
  }

  ghost predicate AllHome(logged: set<nat>, size: nat, ninodes: nat, start: nat, bmapstart: nat, inodestart: nat) {
    forall a :: a in logged ==> Home(a, size, ninodes, start, bmapstart, inodestart)
  }

  lemma CoversAlloc(bm0: seq<bv8>, blocks0: seq<FileBlock>, bm: seq<bv8>, blocks: seq<FileBlock>, logged: set<nat>,
                    bmapstart: nat,
                    a: nat)
    requires Covers(bm0, blocks0, bm, blocks, logged, bmapstart) && a < |blocks| && a / 8 < |bm|
    ensures Covers(bm0, blocks0, SetBit(bm, a), blocks[a := Zeroed()], logged + {bmapstart + a / BPB, a}, bmapstart)
    ensures Covers(bm0, blocks0, ClearBit(bm, a), blocks, logged + {bmapstart + a / BPB}, bmapstart)
  {
    hide With, Unset;
    assert a / BPB == a / 8 / BSIZE;
  }

  lemma CoversBlock(bm0: seq<bv8>, blocks0: seq<FileBlock>, bm: seq<bv8>, blocks: seq<FileBlock>, logged: set<nat>,
                    bmapstart: nat,
                    a: nat, data: FileBlock)
    requires Covers(bm0, blocks0, bm, blocks, logged, bmapstart) && a < |blocks|
    ensures Covers(bm0, blocks0, bm, blocks[a := data], logged + {a}, bmapstart)
  {
  }

  /** One more logged block that is not in the log itself. */
  lemma LogMore(bm0: seq<bv8>, blocks0: seq<FileBlock>, bm: seq<bv8>, blocks: seq<FileBlock>, logged: set<nat>, a: nat,
                ninodes: nat, start: nat, bmapstart: nat, inodestart: nat)
    requires Home(a, |blocks|, ninodes, start, bmapstart, inodestart)
    ensures Covers(bm0, blocks0, bm, blocks, logged, bmapstart) ==>
              Covers(bm0, blocks0, bm, blocks, logged + {a}, bmapstart)
    ensures AllHome(logged, |blocks|, ninodes, start, bmapstart, inodestart) ==>
              AllHome(logged + {a}, |blocks|, ninodes, start, bmapstart, inodestart)
  {
  }

  class Fs {
    const start: nat        // first data block
    const bmapstart: nat    // first bitmap block
    const inodestart: nat   // first inode block

    var bitmap: seq<bv8>
    var blocks: seq<FileBlock>
    var inodes: seq<Inode>

    ghost var logged: set<nat>          // blocks logged in the current transaction
    ghost var bitmap0: seq<bv8>         // the bitmap and the blocks when it began
    ghost var blocks0: seq<FileBlock>

    ghost predicate Valid()
      reads this
    {
      Inv(bitmap, blocks, inodes, start) && Logging(bitmap, |inodes|)
    }

    /** Every change since the transaction began is in a logged block, and only blocks outside the log are logged. */
    ghost predicate Logging(bm: seq<bv8>, ninodes: nat)
      reads this
    {
      && Covers(bitmap0, blocks0, bm, blocks, logged, bmapstart)
      && AllHome(logged, |blocks|, ninodes, start, bmapstart, inodestart)
    }

    ghost function Now(): Image
      reads this
    {
      Image(blocks, inodes, logged)
    }

    constructor (image: seq<FileBlock>, bm: seq<bv8>, table: seq<Inode>, first: nat, bms: nat, ins: nat)
      requires Inv(bm, image, table, first)
      ensures Valid() && blocks == image && bitmap == bm && inodes == table && logged == {}
      ensures start == first && bmapstart == bms && inodestart == ins
    {
      start, bmapstart, inodestart := first, bms, ins;
      blocks, bitmap, inodes, logged := image, bm, table, {};
      blocks0, bitmap0 := image, bm;
    }

    /** Takes the lowest free block and clears it; 0 means that no block is free. */
    method Balloc() returns (addr: nat)
      requires Valid()
      modifies this`bitmap, this`blocks, this`logged
      ensures addr == 0 ==> bitmap == old(bitmap) && blocks == old(blocks) && logged == old(logged)
      ensures addr == 0 ==> Full(bitmap, blocks)
      ensures addr != 0 ==> addr < |old(blocks)| && !Bit(old(bitmap), addr)
      ensures addr != 0 ==> forall b: nat :: b < addr ==> Bit(old(bitmap), b)
      ensures addr != 0 ==> bitmap == SetBit(old(bitmap), addr) && blocks == old(blocks)[addr := Zeroed()]
      ensures addr != 0 ==> logged == old(logged) + {bmapstart + addr / BPB, addr}
    {
      hide Has, With, Marked, SingleOwner, Bit, SetBit;
      var b := 0;
      while b < |blocks|
        invariant b % BPB == 0 && bitmap == old(bitmap) && blocks == old(blocks) && logged == old(logged)
        invariant forall c: nat :: c < b && c < |blocks| ==> Bit(bitmap, c)
      {
        var bi := 0;
        while bi < BPB && b + bi < |blocks|
          invariant 0 <= bi <= BPB && bitmap == old(bitmap) && blocks == old(blocks) && logged == old(logged)
          invariant forall c: nat :: c < b + bi && c < |blocks| ==> Bit(bitmap, c)
        {
          var at := b / 8 + bi / 8;
          BitAt(bitmap, b, bi);
          if !Has(bitmap[at], bi % 8) {
            bitmap := bitmap[at := With(bitmap[at], bi % 8)];
            Bzero(b + bi);
            return b + bi;
          }
          bi := bi + 1;
        }
        b := b + BPB;
      }
      return 0;
    }

    /** Clears a block, and logs it with the bitmap block that has just been changed for it. */
    method Bzero(addr: nat)
      requires addr < |blocks|
      modifies this`blocks, this`logged
      ensures blocks == old(blocks)[addr := Zeroed()] && logged == old(logged) + {bmapstart + addr / BPB, addr}
    {
      blocks := blocks[addr := Zeroed()];
      logged := logged + {bmapstart + addr / BPB, addr};
    }

    /** Frees a block, or panics if it is free already. */
    method Bfree(b: nat) returns (panic: bool)
      requires b < |blocks| <= 8 * |bitmap|
      modifies this`bitmap, this`logged
      ensures panic <==> !Bit(old(bitmap), b)
      ensures bitmap == if panic then old(bitmap) else ClearBit(old(bitmap), b)
      ensures logged == if panic then old(logged) else old(logged) + {bmapstart + b / BPB}
      ensures old(Logging(bitmap, |inodes|)) ==> Logging(bitmap, |inodes|)
    {
      hide Has, Unset;
      if Logging(bitmap, |inodes|) {
        CoversAlloc(bitmap0, blocks0, bitmap, blocks, logged, bmapstart, b);
      }
      if !Has(bitmap[b / 8], b % 8) {
        return true;
      }
      bitmap := bitmap[b / 8 := Unset(bitmap[b / 8], b % 8)];
      logged := logged + {bmapstart + b / BPB};
      return false;
    }

    /** Allocation seen from the files: nothing changes, and the block is free to be entered in a slot. */
    method BallocFresh() returns (addr: nat)
      requires Valid()
      modifies this`bitmap, this`blocks, this`logged
      ensures Valid() && |blocks| == |old(blocks)|
      ensures SameSlots(old(blocks), blocks, inodes) && SameViews(old(blocks), inodes, blocks, inodes)
      ensures addr == 0 ==> blocks == old(blocks) && logged == old(logged) && Full(bitmap, blocks)
      ensures addr != 0 ==> logged == old(logged) + {bmapstart + addr / BPB, addr}
      ensures addr != 0 ==> start <= addr < |blocks| && Bit(bitmap, addr) && blocks[addr] == Zeroed()
      ensures addr != 0 ==> forall i, k :: 0 <= i < |inodes| && 0 <= k < NSLOTS ==> Slot(blocks, inodes[i], k) != addr
    {
      addr := Balloc();
      if addr != 0 {
        AllocKeeps(old(bitmap), old(blocks), inodes, start, addr);
        BitAfter(old(bitmap), addr, addr);
        CoversAlloc(bitmap0, blocks0, old(bitmap), old(blocks), old(logged), bmapstart, addr);
      }
    }

    /** Allocates a block for an empty entry of the inode. */
    method FillInode(ip: nat, c: nat) returns (addr: nat)
      requires Valid() && ip < |inodes| && c <= NDIRECT && inodes[ip].addrs[c] == 0
      modifies this`bitmap, this`blocks, this`inodes, this`logged
      ensures Valid() && |blocks| == |old(blocks)| && |inodes| == |old(inodes)|
      ensures inodes == if addr == 0 then old(inodes)
                        else old(inodes)[ip := old(inodes)[ip].(addrs := old(inodes)[ip].addrs[c := addr])]
      ensures SameViews(old(blocks), old(inodes), blocks, inodes)
      ensures Attached(old(blocks), old(inodes), blocks, inodes, ip, if c < NDIRECT then c else INDIRECT, addr)
      ensures addr < |blocks| && (addr == 0 ==> Full(bitmap, blocks))
      ensures logged == if addr == 0 then old(logged) else old(logged) + {bmapstart + addr / BPB, addr}
    {
      addr := BallocFresh();
      if addr != 0 {
        AttachInInode(bitmap, blocks, inodes, start, ip, c, addr);
        inodes := inodes[ip := inodes[ip].(addrs := inodes[ip].addrs[c := addr])];
      }
    }

    /** Allocates a block for an empty word of the indirect block. */
    method FillIndirect(ip: nat, j: nat) returns (addr: nat)
      requires Valid() && ip < |inodes| && j < NINDIRECT
      requires inodes[ip].addrs[NDIRECT] != 0 && Slot(blocks, inodes[ip], NDIRECT + j) == 0
      modifies this`bitmap, this`blocks, this`logged
      ensures Valid() && |blocks| == |old(blocks)|
      ensures SameViews(old(blocks), inodes, blocks, inodes)
      ensures Attached(old(blocks), inodes, blocks, inodes, ip, NDIRECT + j, addr)
      ensures addr < |blocks| && (addr == 0 ==> Full(bitmap, blocks))
      ensures logged == if addr == 0 then old(logged)
                        else old(logged) + {bmapstart + addr / BPB, addr} + {inodes[ip].addrs[NDIRECT]}
    {
      var ind := inodes[ip].addrs[NDIRECT];
      addr := BallocFresh();
      if addr != 0 {
        AttachInIndirect(bitmap, blocks, inodes, start, ip, j, addr);
        CoversBlock(bitmap0, blocks0, bitmap, blocks, logged, bmapstart, ind, SetWord(blocks[ind], j, addr));
        assert Slot(blocks, inodes[ip], INDIRECT) == ind;
        blocks := blocks[ind := SetWord(blocks[ind], j, addr)];
        logged := logged + {ind};
      }
    }

    /** The disk address of a file's block, allocating it, and the indirect block, where needed;
        a block number past the largest file is a panic. */
    method Bmap(ip: nat, bn: nat) returns (panic: bool, addr: nat, ghost bms: set<nat>)
      requires Valid() && ip < |inodes|
      modifies this`bitmap, this`blocks, this`inodes, this`logged
      ensures Valid() && (panic <==> bn >= MAXFILE)
      ensures panic ==> Now() == old(Now()) && bitmap == old(bitmap)
      ensures !panic ==> Mapped(old(Now()), Now(), ip, bn, addr, bms)
      ensures !panic ==> addr < |blocks| && (addr == 0 ==> Full(bitmap, blocks))
    {
      hide SingleOwner, Word, Has, Full, Covers, AllHome;
      panic, bms := false, {};
      if bn < NDIRECT {
        addr := inodes[ip].addrs[bn];
        if addr == 0 {
          addr := FillInode(ip, bn);
          bms := if addr == 0 then {} else {bmapstart + addr / BPB};
        }
        assert addr == Slot(blocks, inodes[ip], bn);
        return;
      }
      if bn - NDIRECT >= NINDIRECT {
        return true, 0, bms;
      }
      addr, bms := BmapIndirect(ip, bn);
    }

    method BmapIndirect(ip: nat, bn: nat) returns (addr: nat, ghost bms: set<nat>)
      requires Valid() && ip < |inodes| && NDIRECT <= bn < MAXFILE
      modifies this`bitmap, this`blocks, this`inodes, this`logged
      ensures Valid() && Mapped(old(Now()), Now(), ip, bn, addr, bms)
      ensures addr < |blocks| && (addr == 0 ==> Full(bitmap, blocks))
    {
      hide SingleOwner, Word, Has, Full, View, MapLogs, Covers, AllHome;
      var ind;
      ind, bms := EnsureIndirect(ip);
      ghost var x, y := old(Now()), Now();
      if ind == 0 {
        MappedThrough(x, y, y, ip, bn, ind, 0, bms, {});
        assert bms + {} == bms;
        return 0, bms;
      }
      addr := Word(blocks[ind], bn - NDIRECT);
      assert addr == Slot(blocks, inodes[ip], bn);
      if addr == 0 {
        ghost var more;
        addr, more := BmapHole(ip, bn, x, ind, bms);
        bms := bms + more;
      } else {
        assert Slot(blocks, inodes[ip], INDIRECT) == ind;
        MappedThrough(x, y, y, ip, bn, ind, addr, bms, {});
        assert bms + {} == bms;
      }
    }

    /** bmap's last step: a block for an empty entry of the indirect block. */
    method BmapHole(ip: nat, bn: nat, ghost x: Image, ghost ind: nat, ghost bms: set<nat>)
      returns (addr: nat, ghost more: set<nat>)
      requires Valid() && ip < |inodes| && NDIRECT <= bn < MAXFILE && Prepared(x, Now(), ip, ind, bms)
      requires ind == inodes[ip].addrs[NDIRECT] != 0 && Slot(blocks, inodes[ip], bn) == 0
      modifies this`bitmap, this`blocks, this`logged
      ensures Valid() && Mapped(x, Now(), ip, bn, addr, bms + more)
      ensures addr < |blocks| && (addr == 0 ==> Full(bitmap, blocks))
    {
      hide SingleOwner, Marked, Word, Has, Full, View, MapLogs, Covers, AllHome;
      addr := FillIndirect(ip, bn - NDIRECT);
      more := if addr == 0 then {} else {bmapstart + addr / BPB};
      MappedThrough(x, old(Now()), Now(), ip, bn, ind, addr, bms, more);
    }

    /** The indirect block's address, allocating the block where there is none. */
    method EnsureIndirect(ip: nat) returns (ind: nat, ghost bms: set<nat>)
      requires Valid() && ip < |inodes|
      modifies this`bitmap, this`blocks, this`inodes, this`logged
      ensures Valid() && Prepared(old(Now()), Now(), ip, ind, bms)
      ensures ind < |blocks| && (ind == 0 ==> Full(bitmap, blocks))
    {
      hide SingleOwner, Word, Has, Full, Covers, AllHome;
      bms := {};
      ind := inodes[ip].addrs[NDIRECT];
      assert Slot(blocks, inodes[ip], INDIRECT) == ind;
      if ind == 0 {
        ind := FillInode(ip, NDIRECT);
        bms := if ind == 0 then {} else {bmapstart + ind / BPB};
      }
    }

    /** One round of the writing loop, within one block. */
    method WritePiece(ip: nat, piece: seq<byte>, off: nat) returns (ok: bool, ghost addr: nat, ghost bms: set<nat>)
      requires Valid() && ip < |inodes| && off % BSIZE + |piece| <= BSIZE && 0 < |piece| && off + |piece| <= MAXBYTES
      modifies this`bitmap, this`blocks, this`inodes, this`logged
      ensures Valid() && (ok <==> addr != 0) && (!ok ==> Full(bitmap, blocks))
      ensures PieceDone(old(Now()), Now(), ip, off, piece, addr, bms)
    {
      hide Marked, SingleOwner, Word, Has, Full, Covers, AllHome;
      var panic, a;
      panic, a, bms := Bmap(ip, off / BSIZE);
      addr := a;
      if a == 0 {
        return false, 0, bms;
      }
      PutPiece(ip, piece, off, a, old(Now()), bms);
      ok := true;
    }

    /** The bytes go into the block that has been found for them; `x` is the image before it was looked up. */
    method PutPiece(ip: nat, piece: seq<byte>, off: nat, a: nat, ghost x: Image, ghost bms: set<nat>)
      requires Valid() && ip < |inodes| && off % BSIZE + |piece| <= BSIZE && 0 < |piece| && off + |piece| <= MAXBYTES
      requires 0 < a < |blocks| && Mapped(x, Now(), ip, off / BSIZE, a, bms)
      modifies this`blocks, this`logged
      ensures Valid() && PieceDone(x, Now(), ip, off, piece, a, bms)
    {
      hide Marked, SingleOwner, Word, Has, Covers, AllHome;
      ghost var b2 := blocks;
      var o := off % BSIZE;
      var data: FileBlock := blocks[a][..o] + piece + blocks[a][o + |piece|..];
      DataWriteKeeps(bitmap, blocks, inodes, start, ip, off / BSIZE, data);
      CoversBlock(bitmap0, blocks0, bitmap, blocks, logged, bmapstart, a, data);
      LogMore(bitmap0, blocks0, bitmap, blocks, logged, a, |inodes|, start, bmapstart, inodestart);
      blocks := blocks[a := data];
      logged := logged + {a};
      PieceOverlay(x.blocks, x.inodes, b2, inodes, blocks, ip, off, off + |piece|, piece, data);
      assert Slot(blocks, inodes[ip], off / BSIZE) == a;
    }

    /** The writing loop proper, block by block. */
    method WriteLoop(ip: nat, src: seq<byte>, off0: nat)
      returns (tot: nat, ghost ds: set<nat>, ghost bs: set<nat>, ghost kept: nat)
      requires Valid() && ip < |inodes| && off0 + |src| <= MAXBYTES && off0 <= inodes[ip].size
      modifies this`bitmap, this`blocks, this`inodes, this`logged
      ensures Valid() && tot <= |src| && (tot < |src| ==> Full(bitmap, blocks))
      ensures Progress(old(Now()), Now(), ip, src, off0, off0 + tot, ds, bs, kept)
    {
      hide Covers, AllHome, Progress, Marked, SingleOwner, Full;
      var off := off0;
      ds, bs, kept := {}, {}, 0;
      ProgressStart(Now(), ip, src, off0);
      while off < off0 + |src|
        invariant Valid() && off0 <= off <= off0 + |src|
        invariant Progress(old(Now()), Now(), ip, src, off0, off, ds, bs, kept)
      {
        var ok;
        ok, off, ds, bs, kept := WriteRound(ip, src, off0, off, old(Now()), ds, bs, kept);
        if !ok {
          break;
        }
      }
      tot := off - off0;
    }

    method WriteRound(ip: nat, src: seq<byte>, off0: nat, off: nat, ghost x: Image, ghost ds: set<nat>,
                      ghost bs: set<nat>, ghost kept: nat)
      returns (ok: bool, off': nat, ghost ds': set<nat>, ghost bs': set<nat>, ghost kept': nat)
      requires Valid() && Progress(x, Now(), ip, src, off0, off, ds, bs, kept) && off < off0 + |src|
      modifies this`bitmap, this`blocks, this`inodes, this`logged
      ensures Valid() && Progress(x, Now(), ip, src, off0, off', ds', bs', kept')
      ensures if ok then off < off' <= off0 + |src| else off' == off && Full(bitmap, blocks)
    {
      hide Marked, SingleOwner, View, Full, Overlaid, SlotsFilled, TallyAt, Covers, AllHome;
      var tot := off - off0;
      var m := if |src| - tot < BSIZE - off % BSIZE then |src| - tot else BSIZE - off % BSIZE;
      ghost var y, addr, bms := Now(), 0, {};
      var piece := src[tot..tot + m];
      ok, addr, bms := WritePiece(ip, piece, off);
      ProgressRound(x, y, Now(), ip, src, off0, off, m, piece, ds, bs, kept, addr, bms);
      if !ok {
        return false, off, ds, bs + bms, kept;
      }
      return true, off + m, ds + {addr}, bs + bms, kept + if Slot(y.blocks, y.inodes[ip], off / BSIZE) != 0 then 1
             else 0;
    }

    /** Writes `src` at `off0`: -1 for a bad range, else the number of bytes written, short only
        when the disk is full. */
    method Writei(ip: nat, src: seq<byte>, off0: nat) returns (tot: int)
      requires Valid() && ip < |inodes| && off0 < TWO32 && |src| < TWO32
      modifies this`bitmap, this`blocks, this`inodes, this`logged
      ensures Valid() && |inodes| == |old(inodes)| && -1 <= tot <= |src|
      ensures forall i :: 0 <= i < |inodes| && i != ip ==> inodes[i] == old(inodes)[i]
      ensures tot == -1 <==> off0 > old(inodes)[ip].size || off0 + |src| > MAXBYTES
      ensures tot == -1 ==> blocks == old(blocks) && inodes == old(inodes) && logged == old(logged)
      ensures tot >= 0 ==> inodestart + ip / IPB in logged
      ensures tot >= 0 ==> inodes[ip].size == Max(old(inodes)[ip].size, off0 + tot)
      ensures tot >= 0 ==> Content(blocks, inodes[ip]) == Splice(old(Content(blocks, inodes[ip])), off0, src[..tot])
      ensures OthersSame(old(Now()), Now(), ip)
      ensures 0 <= tot < |src| ==> Full(bitmap, blocks)
      ensures HoleFree(old(blocks), old(inodes)[ip]) ==> HoleFree(blocks, inodes[ip])
      ensures old(logged) == {} && |src| <= CHUNK && HoleFree(old(blocks), old(inodes)[ip]) ==> |logged| <= MAXOPBLOCKS
    {
      hide Marked, SingleOwner, HoleFree, Slot, View, Splice, Full, Covers, AllHome, Overlaid, SlotsFilled, TallyAt,
           Bit;
      if off0 > inodes[ip].size || (off0 + |src|) % TWO32 < off0 {
        return -1;
      }
      if off0 + |src| > MAXBYTES {
        return -1;
      }
      ghost var ds, bs, kept;
      tot, ds, bs, kept := WriteLoop(ip, src, off0);
      var off := off0 + tot;
      ghost var y := Now();
      if off > inodes[ip].size {
        inodes := inodes[ip := inodes[ip].(size := off)];
      }
      WriteEnds(bitmap, start, old(Now()), y, inodes, ip, src, off0, off, ds, bs, kept, inodestart + ip / IPB);
      LogMore(bitmap0, blocks0, bitmap, blocks, logged, inodestart + ip / IPB, |inodes|, start, bmapstart, inodestart);
      logged := logged + {inodestart + ip / IPB};
    }

    /** Reads up to `n` bytes at `off0`. Reading a hole allocates it, which no file's contents show. */
    method Readi(ip: nat, off0: nat, n: nat) returns (dst: seq<byte>)
      requires Valid() && ip < |inodes| && off0 < TWO32 && n < TWO32
      modifies this`bitmap, this`blocks, this`inodes, this`logged
      ensures Valid() && |inodes| == |old(inodes)|
      ensures SameViews(old(blocks), old(inodes), blocks, inodes)
      ensures forall i :: 0 <= i < |inodes| ==> Content(blocks, inodes[i]) == old(Content(blocks, inodes[i]))
      ensures if off0 > old(inodes)[ip].size || off0 + n >= TWO32 then dst == []
              else var c := old(Content(blocks, inodes[ip]));
                   var end := if off0 + n > |c| then |c| else off0 + n;
                   && off0 + |dst| <= end && dst == c[off0..off0 + |dst|]
                   && (|dst| < end - off0 ==> Full(bitmap, blocks))
                   && (HoleFree(old(blocks), old(inodes)[ip]) ==> |dst| == end - off0)
    {
      if off0 > inodes[ip].size || (off0 + n) % TWO32 < off0 {
        return [];
      }
      var cnt := if off0 + n > inodes[ip].size then inodes[ip].size - off0 else n;
      dst := ReadLoop(ip, off0, cnt);
      ReadContent(old(Now()), Now(), ip, off0, cnt, dst);
    }

    method ReadLoop(ip: nat, off0: nat, cnt: nat) returns (dst: seq<byte>)
      requires Valid() && ip < |inodes| && off0 + cnt <= inodes[ip].size
      modifies this`bitmap, this`blocks, this`inodes, this`logged
      ensures Valid() && Unaltered(old(Now()), Now(), ip) && |dst| <= cnt
      ensures forall q :: 0 <= q < |dst| ==> dst[q] == View(old(blocks), old(inodes)[ip], off0 + q)
      ensures |dst| < cnt ==> Full(bitmap, blocks) && Slot(old(blocks), old(inodes)[ip], (off0 + |dst|) / BSIZE) == 0
    {
      hide Covers, AllHome;
      dst := [];
      var off := off0;
      while |dst| < cnt
        invariant Valid() && Unaltered(old(Now()), Now(), ip)
        invariant |dst| <= cnt && off == off0 + |dst|
        invariant forall q :: 0 <= q < |dst| ==> dst[q] == View(old(blocks), old(inodes)[ip], off0 + q)
      {
        var m := if cnt - |dst| < BSIZE - off % BSIZE then cnt - |dst| else BSIZE - off % BSIZE;
        var ok, piece := ReadPiece(ip, off, m, old(Now()));
        if !ok {
          break;
        }
        dst := dst + piece;
        off := off + m;
      }
    }

    /** One round of the reading loop, within one block; `x` is the image the loop started from. */
    method ReadPiece(ip: nat, off: nat, m: nat, ghost x: Image) returns (ok: bool, piece: seq<byte>)
      requires Valid() && ip < |inodes| && off % BSIZE + m <= BSIZE && off + m <= MAXBYTES && m > 0
      requires Unaltered(x, Now(), ip)
      modifies this`bitmap, this`blocks, this`inodes, this`logged
      ensures Valid() && Unaltered(x, Now(), ip)
      ensures ok ==> |piece| == m && forall q :: 0 <= q < m ==> piece[q] == View(x.blocks, x.inodes[ip], off + q)
      ensures !ok ==> Full(bitmap, blocks) && Slot(x.blocks, x.inodes[ip], off / BSIZE) == 0
    {
      hide Covers, AllHome;
      ghost var y := Now();
      var _, addr, bms := Bmap(ip, off / BSIZE);
      UnalteredTrans(x, y, Now(), ip);
      if addr == 0 {
        return false, [];
      }
      var o := off % BSIZE;
      piece := blocks[addr][o..o + m];
      forall q | 0 <= q < m
        ensures piece[q] == View(x.blocks, x.inodes[ip], off + q)
      {
        assert (off + q) / BSIZE == off / BSIZE && (off + q) % BSIZE == o + q;
        assert View(blocks, inodes[ip], off + q) == piece[q];
      }
      ok := true;
    }

    /** Discards a file's contents: frees exactly its blocks, and never finds one of them free already. */
    method Itrunc(ip: nat) returns (panic: bool)
      requires Valid() && ip < |inodes|
      modifies this`bitmap, this`inodes, this`logged
      ensures !panic && Valid()
      ensures inodes == old(inodes)[ip := EmptyInode]
      ensures forall b: nat :: 0 < b < |blocks| ==>
                (Bit(bitmap, b) <==> Bit(old(bitmap), b) && !InSlots(blocks, old(inodes)[ip], NSLOTS, b))
      ensures OthersSame(old(Now()), Now(), ip)
      ensures inodestart + ip / IPB in logged && 0 < |blocks|
      ensures logged <= old(logged) + BitmapBlocks(bmapstart, |blocks|) + {inodestart + ip / IPB}
    {
      hide Marked, SingleOwner, Covers, AllHome, BitmapBlocks;
      ghost var bm0, ins := bitmap, inodes;
      panic := FreeDirect(ip);
      if inodes[ip].addrs[NDIRECT] != 0 {
        panic := FreeIndirectBlocks(ip, bm0, ins);
      } else {
        NoIndirect(bm0, bitmap, blocks, ins[ip]);
      }
      inodes := inodes[ip := inodes[ip].(size := 0)];
      assert inodes[ip].addrs == EmptyInode.addrs;
      assert inodes == ins[ip := EmptyInode];
      LogMore(bitmap0, blocks0, bitmap, blocks, logged, inodestart + ip / IPB, |inodes|, start, bmapstart, inodestart);
      logged := logged + {inodestart + ip / IPB};
      TruncKeeps(bm0, bitmap, blocks, ins, start, ip);
    }

    /** The loop over the inode's own entries. */
    method FreeDirect(ip: nat) returns (panic: bool)
      requires Valid() && ip < |inodes|
      modifies this`bitmap, this`inodes, this`logged
      ensures !panic && Freed(old(bitmap), bitmap, blocks, old(inodes)[ip], NDIRECT) && Logging(bitmap, |inodes|)
      ensures |inodes| == |old(inodes)| && |inodes[ip].addrs| == NDIRECT + 1
      ensures inodes == old(inodes)[ip := old(inodes)[ip].(addrs := inodes[ip].addrs)]
      ensures forall c :: 0 <= c < NDIRECT ==> inodes[ip].addrs[c] == 0
      ensures inodes[ip].addrs[NDIRECT] == old(inodes)[ip].addrs[NDIRECT]
      ensures logged <= old(logged) + BitmapBlocks(bmapstart, |blocks|)
    {
      hide Covers, AllHome, BitmapBlocks;
      ghost var bm0, ins := bitmap, inodes;
      ghost var f := inodes[ip];
      panic := false;
      for i := 0 to NDIRECT
        invariant !panic && |inodes| == |ins| && |inodes[ip].addrs| == NDIRECT + 1
        invariant inodes == ins[ip := f.(addrs := inodes[ip].addrs)]
        invariant forall c :: 0 <= c <= NDIRECT ==> inodes[ip].addrs[c] == if c < i then 0 else f.addrs[c]
        invariant Freed(bm0, bitmap, blocks, f, i) && Logging(bitmap, |inodes|)
        invariant logged <= old(logged) + BitmapBlocks(bmapstart, |blocks|)
      {
        FreeStep(bm0, bitmap, blocks, ins, start, ip, i);
        if inodes[ip].addrs[i] != 0 {
          panic := Bfree(inodes[ip].addrs[i]);
          inodes := inodes[ip := inodes[ip].(addrs := inodes[ip].addrs[i := 0])];
        }
      }
    }

    /** The loop over the indirect block, and then the indirect block itself. */
    method FreeIndirectBlocks(ip: nat, ghost bm0: seq<bv8>, ghost ins: seq<Inode>) returns (panic: bool)
      requires Inv(bm0, blocks, ins, start) && ip < |ins| && Freed(bm0, bitmap, blocks, ins[ip], NDIRECT)
      requires |inodes| == |ins| && |inodes[ip].addrs| == NDIRECT + 1
      requires inodes[ip].addrs[NDIRECT] == ins[ip].addrs[NDIRECT] != 0 && Logging(bitmap, |inodes|)
      modifies this`bitmap, this`inodes, this`logged
      ensures !panic && Freed(bm0, bitmap, blocks, ins[ip], NSLOTS) && Logging(bitmap, |inodes|)
      ensures inodes == old(inodes)[ip := old(inodes)[ip].(addrs := old(inodes)[ip].addrs[NDIRECT := 0])]
      ensures logged <= old(logged) + BitmapBlocks(bmapstart, |blocks|)
    {
      hide Covers, AllHome, BitmapBlocks, Marked, SingleOwner, ClearBit, InSlots;
      var ind := inodes[ip].addrs[NDIRECT];
      assert Slot(blocks, ins[ip], INDIRECT) == ind;
      IndirectInside(bm0, blocks, ins, start, ip);
      panic := false;
      for j := 0 to NINDIRECT
        invariant !panic && inodes == old(inodes)
        invariant Freed(bm0, bitmap, blocks, ins[ip], NDIRECT + j) && Logging(bitmap, |inodes|)
        invariant logged <= old(logged) + BitmapBlocks(bmapstart, |blocks|)
      {
        FreeStep(bm0, bitmap, blocks, ins, start, ip, NDIRECT + j);
        var a := Word(blocks[ind], j);
        if a != 0 {
          panic := Bfree(a);
        }
      }
      FreeStep(bm0, bitmap, blocks, ins, start, ip, INDIRECT);
      panic := Bfree(ind);
      inodes := inodes[ip := inodes[ip].(addrs := inodes[ip].addrs[NDIRECT := 0])];
    }

    /** A truncation as a transaction of its own: it logs every block it changes, at most the whole bitmap and
        the inode. */
    method Truncation(ip: nat) returns (panic: bool)
      requires Valid() && ip < |inodes|
      modifies this`bitmap, this`inodes, this`logged, this`bitmap0, this`blocks0
      ensures !panic && Valid() && inodes == old(inodes)[ip := EmptyInode]
      ensures bitmap0 == old(bitmap) && blocks0 == old(blocks)
      ensures forall i :: 0 <= i < |inodes| && inodes[i] != old(inodes)[i] ==> inodestart + i / IPB in logged
      ensures |logged| <= (|blocks| - 1) / BPB + 2
      ensures OthersSame(old(Now()), Now(), ip)
    {
      hide Marked, SingleOwner, HoleFree, Slot, View, BitmapBlocks, Bit, InSlots;
      logged, bitmap0, blocks0 := {}, bitmap, blocks;
      panic := Itrunc(ip);
      ghost var bms, inode := BitmapBlocks(bmapstart, |blocks|), {inodestart + ip / IPB};
      SubsetSize(logged, bms + inode);
      assert |bms + inode| <= |bms| + 1;
    }

    /** Writes in transactions of at most CHUNK bytes, each within its reservation. `foff` is the
        file's offset, moved past everything written; `written` counts those bytes. */
    method FileWrite(ip: nat, src: seq<byte>, foff: nat) returns (ret: int, foff': nat, written: nat)
      requires Valid() && ip < |inodes| && foff < TWO32 && |src| < TWO32
      modifies this`bitmap, this`blocks, this`inodes, this`logged, this`bitmap0, this`blocks0
      ensures Valid() && |inodes| == |old(inodes)|
      ensures HoleFree(old(blocks), old(inodes)[ip]) ==> HoleFree(blocks, inodes[ip])
      ensures written <= |src| && foff' == foff + written
      ensures ret == if written == |src| then |src| else -1
      ensures Written(old(Content(blocks, inodes[ip])), Content(blocks, inodes[ip]), foff, src, written)
      ensures OthersSame(old(Now()), Now(), ip)
      ensures foff <= old(inodes)[ip].size && foff + |src| <= MAXBYTES && written < |src| ==> Full(bitmap, blocks)
    {
      hide Marked, SingleOwner, HoleFree, Slot, View, Splice, Full, Covers, AllHome;
      var i := 0;
      foff', written := foff, 0;
      ghost var was := Content(blocks, inodes[ip]);
      ghost var now := was;
      SpliceNothing(was, foff, src);
      var failed := false;
      while i < |src| && !failed
        invariant Valid() && |inodes| == |old(inodes)|
        invariant HoleFree(old(blocks), old(inodes)[ip]) ==> HoleFree(blocks, inodes[ip])
        invariant i <= written <= |src| && foff' == foff + written
        invariant i != written ==> failed
        invariant failed ==> written < |src|
        invariant failed && foff <= |was| && foff + |src| <= MAXBYTES ==> Full(bitmap, blocks)
        invariant now == Content(blocks, inodes[ip]) && was == old(Content(blocks, inodes[ip]))
        invariant Written(was, now, foff, src, written)
        invariant OthersSame(old(Now()), Now(), ip)
        decreases |src| - i, !failed
      {
        var n1 := |src| - i;
        if n1 > CHUNK {
          n1 := CHUNK;
        }
        ghost var mid := now;
        WrittenRoom(was, mid, foff, src, i);
        var r := Transaction(ip, src[i..i + n1], foff');
        now := Content(blocks, inodes[ip]);
        WrittenStep(was, mid, now, foff, src, i, n1, r);
        if r > 0 {
          foff' := foff' + r;
          written := written + r;
        }
        if r != n1 {
          failed := true;
        } else {
          i := i + r;
        }
      }
      ret := if i == |src| then |src| else -1;
    }

    /** One transaction of a file write: it logs every block it changes and, on a file without holes,
        no more of them than `begin_op` reserved. */
    method Transaction(ip: nat, piece: seq<byte>, off: nat) returns (r: int)
      requires Valid() && ip < |inodes| && |piece| <= CHUNK && off < TWO32
      modifies this`bitmap, this`blocks, this`inodes, this`logged, this`bitmap0, this`blocks0
      ensures Valid() && |inodes| == |old(inodes)| && -1 <= r <= |piece|
      ensures bitmap0 == old(bitmap) && blocks0 == old(blocks)
      ensures forall i :: 0 <= i < |inodes| && inodes[i] != old(inodes)[i] ==> inodestart + i / IPB in logged
      ensures HoleFree(old(blocks), old(inodes)[ip]) ==> HoleFree(blocks, inodes[ip]) && |logged| <= MAXOPBLOCKS
      ensures r == -1 <==> off > |old(Content(blocks, inodes[ip]))| || off + |piece| > MAXBYTES
      ensures Content(blocks, inodes[ip])
           == if r == -1 then old(Content(blocks, inodes[ip]))
              else Splice(old(Content(blocks, inodes[ip])), off, piece[..r])
      ensures OthersSame(old(Now()), Now(), ip)
      ensures 0 <= r < |piece| ==> Full(bitmap, blocks)
    {
      hide Marked, SingleOwner, HoleFree, Slot, View, Splice, Full;
      logged, bitmap0, blocks0 := {}, bitmap, blocks;
      r := Writei(ip, piece, off);
    }
  }

  /** `now` is `was` with the first `w` bytes of `src` written at `lo`; nothing can be written past the end. */
  ghost predicate Written(was: seq<byte>, now: seq<byte>, lo: nat, src: seq<byte>, w: nat) {
    && w <= |src|
    && if lo <= |was| then now == Splice(was, lo, src[..w]) else w == 0 && now == was
  }

  lemma SpliceNothing(c: seq<byte>, lo: nat, src: seq<byte>)
    ensures Written(c, c, lo, src, 0)
  {
  }

  lemma WrittenRoom(was: seq<byte>, now: seq<byte>, lo: nat, src: seq<byte>, w: nat)
    requires Written(was, now, lo, src, w)
    ensures lo <= |was| ==> lo + w <= |now|
  {
  }

  /** Two writes one after the other are one write. */
  lemma WrittenStep(was: seq<byte>, mid: seq<byte>, now: seq<byte>, lo: nat, src: seq<byte>, i: nat, n: nat, r: int)
    requires Written(was, mid, lo, src, i) && i + n <= |src| && -1 <= r <= n
    requires r == -1 ==> now == mid
    requires r >= 0 ==> lo + i <= |mid| && now == Splice(mid, lo + i, src[i..i + n][..r])
    ensures r >= 0 ==> Written(was, now, lo, src, i + r)
    ensures r == -1 ==> Written(was, now, lo, src, i)
  {
    if r >= 0 {
      assert src[i..i + n][..r] == src[i..i + r];
      assert src[..i + r] == src[..i] + src[i..i + r];
    }
  }

  /** Address `b` is in one of the first `n` slots. */
  ghost predicate InSlots(blocks: seq<FileBlock>, f: Inode, n: nat, b: nat)
    requires |f.addrs| == NDIRECT + 1
  {
    exists k :: 0 <= k < n && Slot(blocks, f, k) == b
  }

  /** `bm` is `bm0` with the blocks in the first `n` slots freed. */
  ghost predicate Freed(bm0: seq<bv8>, bm: seq<bv8>, blocks: seq<FileBlock>, f: Inode, n: nat) {
    && |f.addrs| == NDIRECT + 1 && |bm| == |bm0| && 0 < |blocks| <= 8 * |bm0|
    && Bit(bm, 0) == Bit(bm0, 0)
    && forall b: nat :: 0 < b < |blocks| ==> (Bit(bm, b) <==> Bit(bm0, b) && !InSlots(blocks, f, n, b))
  }

  lemma FreeStep(bm0: seq<bv8>, bm: seq<bv8>, blocks: seq<FileBlock>, inodes: seq<Inode>, start: nat, ip: nat, n: nat)
    requires Inv(bm0, blocks, inodes, start) && ip < |inodes| && n < NSLOTS && Freed(bm0, bm, blocks, inodes[ip], n)
    ensures var a := Slot(blocks, inodes[ip], n);
            && a < |blocks|
            && (a == 0 ==> Freed(bm0, bm, blocks, inodes[ip], n + 1))
            && (a != 0 ==> Bit(bm, a) && Freed(bm0, ClearBit(bm, a), blocks, inodes[ip], n + 1))
  {
    var f := inodes[ip];
    var a := Slot(blocks, f, n);
    forall b: nat | 0 < b < |blocks|
      ensures InSlots(blocks, f, n + 1, b) <==> InSlots(blocks, f, n, b) || b == a
    {
      if b == a {
        assert Slot(blocks, f, n) == b;
      }
      if InSlots(blocks, f, n, b) {
        var k :| 0 <= k < n && Slot(blocks, f, k) == b;
        assert InSlots(blocks, f, n + 1, b);
      }
    }
    if a != 0 {
      assert !InSlots(blocks, f, n, a);
      BitAfter(bm, a, 0);
      forall b: nat | 0 < b < |blocks|
        ensures Bit(ClearBit(bm, a), b) <==> Bit(bm, b) && b != a
      {
        BitAfter(bm, a, b);
      }
    }
  }

  lemma IndirectInside(bm: seq<bv8>, blocks: seq<FileBlock>, inodes: seq<Inode>, start: nat, ip: nat)
    requires Inv(bm, blocks, inodes, start) && ip < |inodes|
    ensures inodes[ip].addrs[NDIRECT] < |blocks|
  {
    assert Slot(blocks, inodes[ip], INDIRECT) == inodes[ip].addrs[NDIRECT];
  }

  lemma NoIndirect(bm0: seq<bv8>, bm: seq<bv8>, blocks: seq<FileBlock>, f: Inode)
    requires Freed(bm0, bm, blocks, f, NDIRECT) && f.addrs[NDIRECT] == 0
    ensures Freed(bm0, bm, blocks, f, NSLOTS)
  {
    forall b: nat | 0 < b < |blocks|
      ensures InSlots(blocks, f, NSLOTS, b) <==> InSlots(blocks, f, NDIRECT, b)
    {
      if InSlots(blocks, f, NSLOTS, b) {
        var k :| 0 <= k < NSLOTS && Slot(blocks, f, k) == b;
        assert k < NDIRECT;
      }
    }
  }

  lemma TruncKeeps(bm0: seq<bv8>, bm: seq<bv8>, blocks: seq<FileBlock>, inodes: seq<Inode>, start: nat, ip: nat)
    requires Inv(bm0, blocks, inodes, start) && ip < |inodes| && Freed(bm0, bm, blocks, inodes[ip], NSLOTS)
    ensures Inv(bm, blocks, inodes[ip := EmptyInode], start)
  {
    var inodes' := inodes[ip := EmptyInode];
    assert forall k :: 0 <= k < NSLOTS ==> Slot(blocks, inodes'[ip], k) == 0;
    assert forall b: nat :: b < start ==> Bit(bm, b);
    forall i, k | 0 <= i < |inodes| && 0 <= k < NSLOTS && Slot(blocks, inodes'[i], k) != 0
      ensures start <= Slot(blocks, inodes'[i], k) < |blocks| && Bit(bm, Slot(blocks, inodes'[i], k))
    {
      var a := Slot(blocks, inodes[i], k);
      assert i != ip;
      assert !InSlots(blocks, inodes[ip], NSLOTS, a);
    }
  }

  /** Reading may fill holes but shows through in no file. */
  ghost predicate Unaltered(x: Image, y: Image, ip: nat) {
    && SameTable(x, y, ip) && SameViews(x.blocks, x.inodes, y.blocks, y.inodes)
    && forall k :: 0 <= k < MAXFILE && Slot(x.blocks, x.inodes[ip], k) != 0 ==> Slot(y.blocks, y.inodes[ip], k) != 0
  }

  lemma UnalteredTrans(x: Image, y: Image, z: Image, ip: nat)
    requires Unaltered(x, y, ip) && Unaltered(y, z, ip)
    ensures Unaltered(x, z, ip)
  {
  }

  lemma ReadContent(x: Image, y: Image, ip: nat, off0: nat, cnt: nat, dst: seq<byte>)
    requires Unaltered(x, y, ip) && off0 + cnt <= x.inodes[ip].size && |dst| <= cnt
    requires forall i :: 0 <= i < |x.inodes| ==> x.inodes[i].size <= MAXBYTES
    requires forall q :: 0 <= q < |dst| ==> dst[q] == View(x.blocks, x.inodes[ip], off0 + q)
    requires |dst| < cnt ==> Slot(x.blocks, x.inodes[ip], (off0 + |dst|) / BSIZE) == 0
    ensures dst == Content(x.blocks, x.inodes[ip])[off0..off0 + |dst|]
    ensures forall i :: 0 <= i < |x.inodes| ==> Content(y.blocks, y.inodes[i]) == Content(x.blocks, x.inodes[i])
    ensures HoleFree(x.blocks, x.inodes[ip]) ==> |dst| == cnt
  {
    if |dst| < cnt {
      var bn := (off0 + |dst|) / BSIZE;
      assert bn * BSIZE < x.inodes[ip].size && bn < MAXFILE;
    }
    forall i | 0 <= i < |x.inodes|
      ensures Content(y.blocks, y.inodes[i]) == Content(x.blocks, x.inodes[i])
    {
      assert forall p :: 0 <= p < x.inodes[i].size ==> View(y.blocks, y.inodes[i], p) == View(x.blocks, x.inodes[i], p);
    }
  }

  /** The image after the loop and the final update of the size. */
  lemma WriteEnds(bm: seq<bv8>, start: nat, x: Image, y: Image, inodes': seq<Inode>, ip: nat, src: seq<byte>,
                  off0: nat, off: nat,
                  ds: set<nat>, bs: set<nat>, kept: nat, inode: nat)
    requires Progress(x, y, ip, src, off0, off, ds, bs, kept) && off0 <= x.inodes[ip].size <= MAXBYTES
    requires Inv(bm, y.blocks, y.inodes, start)
    requires inodes' == if off > y.inodes[ip].size then y.inodes[ip := y.inodes[ip].(size := off)] else y.inodes
    ensures Inv(bm, y.blocks, inodes', start)
    ensures inodes'[ip].size == Max(x.inodes[ip].size, off)
    ensures forall i :: 0 <= i < |inodes'| && i != ip ==> inodes'[i] == x.inodes[i]
    ensures Content(y.blocks, inodes'[ip]) == Splice(Content(x.blocks, x.inodes[ip]), off0, src[..off - off0])
    ensures OthersSame(x, Image(y.blocks, inodes', y.logged + {inode}), ip)
    ensures HoleFree(x.blocks, x.inodes[ip]) ==> HoleFree(y.blocks, inodes'[ip])
    ensures HoleFree(x.blocks, x.inodes[ip]) && x.logged == {} && |src| <= CHUNK ==> |y.logged + {inode}| <= MAXOPBLOCKS
  {
    ResizeKeeps(bm, y.blocks, y.inodes, inodes', start, ip);
    OverlayJoin(x.blocks, x.inodes, y.blocks, y.inodes, y.blocks, inodes', ip, off0, off, off, src);
    OverlayContent(x.blocks, x.inodes, y.blocks, inodes', ip, off0, off, src);
    if HoleFree(x.blocks, x.inodes[ip]) {
      WrittenHoleFree(x, y, ip, src, off0, off, ds, bs, kept, inodes'[ip]);
      if x.logged == {} && |src| <= CHUNK {
        ProgressBound(x, y, ip, src, off0, off, ds, bs, kept, inode);
      }
    }
  }

  /** Writing never leaves a hole behind. */
  lemma WrittenHoleFree(x: Image, y: Image, ip: nat, src: seq<byte>, off0: nat, off: nat,
                        ds: set<nat>, bs: set<nat>, kept: nat, f: Inode)
    requires Progress(x, y, ip, src, off0, off, ds, bs, kept) && off0 <= x.inodes[ip].size
    requires HoleFree(x.blocks, x.inodes[ip])
    requires f == y.inodes[ip].(size := Max(x.inodes[ip].size, off))
    ensures HoleFree(y.blocks, f)
  {
    forall bn: nat | bn * BSIZE < f.size && bn < MAXFILE
      ensures Slot(y.blocks, f, bn) != 0
    {
      assert Slot(y.blocks, f, bn) == Slot(y.blocks, y.inodes[ip], bn);
      if bn * BSIZE >= x.inodes[ip].size {
        assert off0 <= bn * BSIZE <= off - 1;
        assert off0 / BSIZE <= bn < off0 / BSIZE + Visited(off0, off);
      }
    }
  }

  /** Changing sizes touches neither slots nor bytes. */
  lemma ResizeKeeps(bm: seq<bv8>, blocks: seq<FileBlock>, inodes: seq<Inode>, inodes': seq<Inode>, start: nat, ip: nat)
    requires Inv(bm, blocks, inodes, start) && |inodes'| == |inodes|
    requires forall i :: 0 <= i < |inodes| ==> inodes'[i].addrs == inodes[i].addrs && inodes'[i].size <= MAXBYTES
    ensures Inv(bm, blocks, inodes', start)
    ensures forall lo: nat, src: seq<byte> :: Overlaid(blocks, inodes, blocks, inodes', ip, lo, lo, src)
    ensures forall i, k :: 0 <= i < |inodes| && 0 <= k < NSLOTS ==>
              Slot(blocks, inodes'[i], k) == Slot(blocks, inodes[i], k)
  {
    assert forall i, k :: 0 <= i < |inodes| && 0 <= k < NSLOTS ==>
             Slot(blocks, inodes'[i], k) == Slot(blocks, inodes[i], k);
    forall lo: nat, src: seq<byte> ensures Overlaid(blocks, inodes, blocks, inodes', ip, lo, lo, src) {
      OverlayNothing(blocks, inodes, blocks, inodes', ip, lo, src);
    }
  }
}
