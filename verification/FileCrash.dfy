/** Files through the log: how the file system's state lies on the disk, and what a crash during the commit of
    one piece of a file write leaves of every file. */
module FileCrash {
  import opened Params
  import opened Seqs
  import opened RedoLog
  import opened DiskLayout
  import FS = FileSystem
  import LD = LogDevice
  import LogSpace

  /** The fields of the superblock. */
  datatype Super = Super(log: Area, inodestart: nat, bmapstart: nat, start: nat)

  datatype Files = Files(bitmap: seq<bv8>, blocks: seq<FileBlock>, inodes: seq<Inode>)

  /** The order mkfs lays a disk out in: log, inode blocks, bitmap blocks, data blocks. */
  ghost predicate Laid(sb: Super, x: Files) {
    && sb.log.size >= 1 && sb.log.start + sb.log.size <= sb.inodestart
    && sb.inodestart + (|x.inodes| - 1) / FS.IPB < sb.bmapstart
    && sb.bmapstart + (|x.blocks| - 1) / FS.BPB < sb.start
    && Inv(x.bitmap, x.blocks, x.inodes, sb.start)
  }

  // ---------------------------------------------------------------- blocks as words and as bytes

  function Words(b: FileBlock): (w: WordBlock)
    ensures forall j :: 0 <= j < WORDS ==> w[j] == Word(b, j)
  {
    seq(WORDS, j requires 0 <= j < WORDS => Word(b, j))
  }

  function ByteOf(w: int, t: nat): byte {
    (w / (if t == 0 then 1 else if t == 1 then 0x100 else if t == 2 then 0x1_0000 else 0x100_0000) % 0x100) as byte
  }

  function Bytes(w: WordBlock): (b: FileBlock)
    ensures forall x :: 0 <= x < BSIZE ==> b[x] == ByteOf(w[x / 4], x % 4)
  {
    seq(BSIZE, x requires 0 <= x < BSIZE => ByteOf(w[x / 4], x % 4))
  }

  lemma ByteOfWord(p: int, q: int, r: int, s: int)
    requires 0 <= p < 256 && 0 <= q < 256 && 0 <= r < 256 && 0 <= s < 256
    ensures var w := p + 0x100 * q + 0x1_0000 * r + 0x100_0000 * s;
            ByteOf(w, 0) as int == p && ByteOf(w, 1) as int == q && ByteOf(w, 2) as int == r && ByteOf(w, 3) as int == s
  {
    Digit(p, q + 0x100 * r + 0x1_0000 * s);
    Digit(q, r + 0x100 * s);
    Digit(r, s);
    var w := p + 0x100 * q + 0x1_0000 * r + 0x100_0000 * s;
    assert w / 0x1_0000 == w / 0x100 / 0x100 && w / 0x100_0000 == w / 0x1_0000 / 0x100;
  }

  lemma Digit(lo: int, rest: int)
    requires 0 <= lo < 0x100
    ensures (lo + 0x100 * rest) % 0x100 == lo && (lo + 0x100 * rest) / 0x100 == rest
  {
  }

  /** Nothing is lost by looking at a block as words. */
  lemma BytesOfWords(b: FileBlock)
    ensures Bytes(Words(b)) == b
  {
    hide ByteOf;
    forall x: nat | x < BSIZE ensures ByteOf(Words(b)[x / 4], x % 4) == b[x] {
      var j := x / 4;
      ByteOfWord(b[4 * j] as int, b[4 * j + 1] as int, b[4 * j + 2] as int, b[4 * j + 3] as int);
      assert x == 4 * j || x == 4 * j + 1 || x == 4 * j + 2 || x == 4 * j + 3;
    }
  }

  // ---------------------------------------------------------------- where the state lies

  function ByteAt(bm: seq<bv8>, k: nat): int {
    if k < |bm| then bm[k] as int else 0
  }

  /** The `x`-th word of the bitmap. */
  function BitmapWord(bm: seq<bv8>, x: nat): int {
    ByteAt(bm, 4 * x) + 0x100 * ByteAt(bm, 4 * x + 1)
    + 0x1_0000 * ByteAt(bm, 4 * x + 2) + 0x100_0000 * ByteAt(bm, 4 * x + 3)
  }

  /** A dinode is 16 words: two for its type and links, then the size and the addresses. */
  predicate InodeOn(b: WordBlock, i: nat, f: Inode)
    requires |f.addrs| == NDIRECT + 1
  {
    var o := i % FS.IPB * 16;
    b[o + 2] == f.size && forall c :: 0 <= c <= NDIRECT ==> b[o + 3 + c] == f.addrs[c]
  }

  function BitmapBlock(bm: seq<bv8>, k: nat): WordBlock {
    seq(WORDS, j requires 0 <= j < WORDS => BitmapWord(bm, k * WORDS + j))
  }

  /** The disk holds the state `x`. */
  ghost predicate Represents(sb: Super, d: Disk, x: Files) {
    && Laid(sb, x) && |d| == |x.blocks|
    && (forall a :: sb.start <= a < |d| ==> d[a] == Words(x.blocks[a]))
    && (forall k: nat :: k <= (|d| - 1) / FS.BPB ==> d[sb.bmapstart + k] == BitmapBlock(x.bitmap, k))
    && (forall i: nat :: i < |x.inodes| ==> InodeOn(d[sb.inodestart + i / FS.IPB], i, x.inodes[i]))
  }

  /** Only home blocks matter to it. */
  lemma RepresentsHome(sb: Super, d: Disk, e: Disk, x: Files)
    requires Represents(sb, d, x) && SameHome(sb.log, e, d)
    ensures Represents(sb, e, x)
  {
    hide Marked, SingleOwner, BitmapBlock, InodeOn;
    forall i: nat | i < |x.inodes| ensures InodeOn(e[sb.inodestart + i / FS.IPB], i, x.inodes[i]) {
      InodePlace(sb, x, i);
    }
  }

  lemma InodePlace(sb: Super, x: Files, i: nat)
    requires Laid(sb, x) && i < |x.inodes|
    ensures sb.inodestart + i / FS.IPB < sb.bmapstart < sb.start <= |x.blocks|
  {
  }

  // ---------------------------------------------------------------- reading a file off a disk

  function Address(b: WordBlock, w: nat): nat
    requires w < WORDS
  {
    if b[w] < 0 then 0 else b[w]
  }

  function Addresses(b: WordBlock, w: nat, n: nat): (r: seq<nat>)
    requires w + n <= WORDS
    ensures |r| == n && forall c :: 0 <= c < n ==> r[c] == Address(b, w + c)
  {
    if n == 0 then [] else Addresses(b, w, n - 1) + [Address(b, w + n - 1)]
  }

  function InodeOf(b: WordBlock, i: nat): (f: Inode)
    ensures |f.addrs| == NDIRECT + 1
  {
    var o := i % FS.IPB * 16;
    Inode(Addresses(b, o + 3, NDIRECT + 1), Address(b, o + 2))
  }

  /** The contents of file `i`, read with nothing but the disk at hand. */
  function FileOf(sb: Super, d: Disk, i: nat): seq<byte>
    requires sb.inodestart + i / FS.IPB < |d|
  {
    Content(seq(|d|, a requires 0 <= a < |d| => Bytes(d[a])), InodeOf(d[sb.inodestart + i / FS.IPB], i))
  }

  /** A file's contents depend on data blocks only. */
  lemma ContentFrame(x: Files, start: nat, blocks: seq<FileBlock>, i: nat)
    requires Inv(x.bitmap, x.blocks, x.inodes, start) && i < |x.inodes| && |blocks| == |x.blocks|
    requires forall a :: start <= a < |blocks| ==> blocks[a] == x.blocks[a]
    ensures Content(blocks, x.inodes[i]) == Content(x.blocks, x.inodes[i])
  {
    var f := x.inodes[i];
    forall p: nat | p < f.size ensures View(blocks, f, p) == View(x.blocks, f, p) {
      var k := p / BSIZE;
      assert Slot(x.blocks, f, INDIRECT) == f.addrs[NDIRECT];
      SlotFrame(x.blocks, blocks, f, k);
      assert Slot(x.blocks, f, k) != 0 ==> start <= Slot(x.blocks, f, k) < |blocks|;
    }
  }

  lemma FileRead(sb: Super, d: Disk, x: Files, i: nat)
    requires Represents(sb, d, x) && i < |x.inodes|
    ensures sb.inodestart + i / FS.IPB < |d|
    ensures FileOf(sb, d, i) == Content(x.blocks, x.inodes[i])
  {
    var blocks := seq(|d|, a requires 0 <= a < |d| => Bytes(d[a]));
    forall a | sb.start <= a < |d| ensures blocks[a] == x.blocks[a] {
      BytesOfWords(x.blocks[a]);
    }
    ContentFrame(x, sb.start, blocks, i);
    assert InodeOf(d[sb.inodestart + i / FS.IPB], i).addrs == x.inodes[i].addrs;
  }

  // ---------------------------------------------------------------- storing a state

  function InodeBlock(was: WordBlock, inodes: seq<Inode>, first: nat): (b: WordBlock)
    requires forall i :: 0 <= i < |inodes| ==> |inodes[i].addrs| == NDIRECT + 1
    ensures forall w: nat :: w < WORDS ==> b[w] == InodeWord(was, inodes, first + w / 16, w)
  {
    seq(WORDS, w requires 0 <= w < WORDS => InodeWord(was, inodes, first + w / 16, w))
  }

  function InodeWord(was: WordBlock, inodes: seq<Inode>, i: nat, w: nat): int
    requires w < WORDS && forall i :: 0 <= i < |inodes| ==> |inodes[i].addrs| == NDIRECT + 1
  {
    if i >= |inodes| || w % 16 < 2 then was[w]
    else if w % 16 == 2 then inodes[i].size
    else inodes[i].addrs[w % 16 - 3]
  }

  /** The disk with the state `x` on it, all else as it was. */
  function Stored(sb: Super, d: Disk, x: Files): (t: Disk)
    requires |d| == |x.blocks| && forall i :: 0 <= i < |x.inodes| ==> |x.inodes[i].addrs| == NDIRECT + 1
    ensures |t| == |d|
  {
    seq(|d|, a requires 0 <= a < |d| => StoredBlock(sb, d[a], x, a))
  }

  function StoredBlock(sb: Super, was: WordBlock, x: Files, a: nat): (b: WordBlock)
    requires a < |x.blocks| && forall i :: 0 <= i < |x.inodes| ==> |x.inodes[i].addrs| == NDIRECT + 1
  {
    if a >= sb.start then Words(x.blocks[a])
    else if sb.bmapstart <= a <= sb.bmapstart + (|x.blocks| - 1) / FS.BPB then
      BitmapBlock(x.bitmap, a - sb.bmapstart)
    else if sb.inodestart <= a <= sb.inodestart + (|x.inodes| - 1) / FS.IPB then
      InodeBlock(was, x.inodes, (a - sb.inodestart) * FS.IPB)
    else was
  }

  lemma StoredRepresents(sb: Super, d: Disk, x: Files)
    requires Laid(sb, x) && |d| == |x.blocks|
    ensures Represents(sb, Stored(sb, d, x), x)
  {
    var t := Stored(sb, d, x);
    forall i: nat | i < |x.inodes| ensures InodeOn(t[sb.inodestart + i / FS.IPB], i, x.inodes[i]) {
      StoredInode(sb, d, x, i);
    }
    hide Marked, SingleOwner, BitmapBlock, InodeOn, InodeBlock;
  }

  lemma StoredInode(sb: Super, d: Disk, x: Files, i: nat)
    requires Laid(sb, x) && |d| == |x.blocks| && i < |x.inodes|
    ensures sb.inodestart + i / FS.IPB < |d|
    ensures InodeOn(Stored(sb, d, x)[sb.inodestart + i / FS.IPB], i, x.inodes[i])
  {
    hide Marked, SingleOwner, BitmapBlock, InodeOn, InodeBlock;
    var a := sb.inodestart + i / FS.IPB;
    assert i / FS.IPB <= (|x.inodes| - 1) / FS.IPB;
    var b := Stored(sb, d, x)[a];
    assert b == InodeBlock(d[a], x.inodes, i / FS.IPB * FS.IPB);
    InodeInBlock(d[a], x.inodes, i);
  }

  lemma InodeInBlock(was: WordBlock, inodes: seq<Inode>, i: nat)
    requires i < |inodes| && forall j :: 0 <= j < |inodes| ==> |inodes[j].addrs| == NDIRECT + 1
    ensures InodeOn(InodeBlock(was, inodes, i / FS.IPB * FS.IPB), i, inodes[i])
  {
    var b, o := InodeBlock(was, inodes, i / FS.IPB * FS.IPB), i % FS.IPB * 16;
    assert (o + 2) / 16 == i % FS.IPB && (o + 2) % 16 == 2;
    forall c | 0 <= c <= NDIRECT ensures b[o + 3 + c] == inodes[i].addrs[c] {
      assert (o + 3 + c) / 16 == i % FS.IPB && (o + 3 + c) % 16 == 3 + c;
    }
  }

  /** What a transaction from `x` to `y` promises: every block it changes is logged, and none in the log area is. */
  ghost predicate Recorded(sb: Super, x: Files, y: Files, logged: set<nat>) {
    && |y.inodes| == |x.inodes|
    && FS.Covers(x.bitmap, x.blocks, y.bitmap, y.blocks, logged, sb.bmapstart)
    && (forall i :: 0 <= i < |x.inodes| && y.inodes[i] != x.inodes[i] ==> sb.inodestart + i / FS.IPB in logged)
    && FS.AllHome(logged, |x.blocks|, |x.inodes|, sb.start, sb.bmapstart, sb.inodestart)
  }

  /** Blocks that were not logged are on the disk already. */
  lemma StoredUnlogged(sb: Super, d: Disk, x: Files, y: Files, logged: set<nat>, a: nat)
    requires Represents(sb, d, x) && Laid(sb, y) && Recorded(sb, x, y, logged) && a < |d| && a !in logged
    ensures Stored(sb, d, y)[a] == d[a]
  {
    hide Marked, SingleOwner, BitmapBlock, InodeBlock, InodeOn;
    if a >= sb.start {
    } else if sb.bmapstart <= a <= sb.bmapstart + (|d| - 1) / FS.BPB {
      SameBitmapBlock(x.bitmap, y.bitmap, a - sb.bmapstart);
    } else if sb.inodestart <= a <= sb.inodestart + (|x.inodes| - 1) / FS.IPB {
      SameInodeBlock(sb, d, x, y, a);
    }
  }

  lemma SameBitmapBlock(bm: seq<bv8>, bm': seq<bv8>, k: nat)
    requires |bm'| == |bm| && forall x: nat :: x < |bm| && x / BSIZE == k ==> bm'[x] == bm[x]
    ensures BitmapBlock(bm', k) == BitmapBlock(bm, k)
  {
    hide BitmapWord;
    var b, b' := BitmapBlock(bm, k), BitmapBlock(bm', k);
    forall j: nat | j < WORDS ensures b'[j] == b[j] {
      SameBitmapWord(bm, bm', k, j);
    }
  }

  lemma SameBitmapWord(bm: seq<bv8>, bm': seq<bv8>, k: nat, j: nat)
    requires j < WORDS && |bm'| == |bm| && forall x: nat :: x < |bm| && x / BSIZE == k ==> bm'[x] == bm[x]
    ensures BitmapWord(bm', k * WORDS + j) == BitmapWord(bm, k * WORDS + j)
  {
    var x := 4 * (k * WORDS + j);
    assert x / BSIZE == k && (x + 1) / BSIZE == k && (x + 2) / BSIZE == k && (x + 3) / BSIZE == k;
  }

  lemma SameInodeBlock(sb: Super, d: Disk, x: Files, y: Files, a: nat)
    requires Represents(sb, d, x) && Laid(sb, y) && |y.inodes| == |x.inodes| && sb.inodestart <= a < |d|
    requires forall i: nat :: i < |x.inodes| && i / FS.IPB == a - sb.inodestart ==> y.inodes[i] == x.inodes[i]
    ensures InodeBlock(d[a], y.inodes, (a - sb.inodestart) * FS.IPB) == d[a]
  {
    hide Marked, SingleOwner, BitmapBlock, InodeOn, InodeWord;
    var first := (a - sb.inodestart) * FS.IPB;
    forall w: nat | w < WORDS ensures InodeWord(d[a], y.inodes, first + w / 16, w) == d[a][w] {
      InBlock(a - sb.inodestart, w);
      var i := first + w / 16;
      assert i < |x.inodes| ==> InodeOn(d[a], i, x.inodes[i]) && y.inodes[i] == x.inodes[i];
      SameInodeWord(d[a], y.inodes, i, w);
    }
  }

  lemma InBlock(k: nat, w: nat)
    requires w < WORDS
    ensures (k * FS.IPB + w / 16) / FS.IPB == k && (k * FS.IPB + w / 16) % FS.IPB == w / 16
  {
  }

  lemma SameInodeWord(b: WordBlock, inodes: seq<Inode>, i: nat, w: nat)
    requires w < WORDS && i % FS.IPB == w / 16 && forall j :: 0 <= j < |inodes| ==> |inodes[j].addrs| == NDIRECT + 1
    requires i < |inodes| ==> InodeOn(b, i, inodes[i])
    ensures InodeWord(b, inodes, i, w) == b[w]
  {
    assert w == i % FS.IPB * 16 + w % 16;
    if i < |inodes| && w % 16 > 2 {
      assert b[i % FS.IPB * 16 + 3 + (w % 16 - 3)] == inodes[i].addrs[w % 16 - 3];
    }
  }

  // ---------------------------------------------------------------- a crash

  /** The header lists each logged block once, in whatever order log_write met them. */
  ghost predicate Lists(lh: seq<nat>, logged: set<nat>) {
    Distinct(lh) && forall a :: a in lh <==> a in logged
  }

  /** There is such a list for every set. */
  lemma {:induction false} SomeList(logged: set<nat>) returns (lh: seq<nat>)
    ensures Lists(lh, logged)
    decreases |logged|
  {
    if logged == {} {
      lh := [];
    } else {
      var a :| a in logged;
      var rest := SomeList(logged - {a});
      lh := rest + [a];
    }
  }

  lemma {:induction false} ListsLength(lh: seq<nat>, logged: set<nat>)
    requires Lists(lh, logged)
    ensures |lh| == |logged|
    decreases |lh|
  {
    if lh == [] {
      assert logged == {};
    } else {
      var n := |lh| - 1;
      assert lh[n] in logged;
      forall a ensures a in lh[..n] <==> a in logged - {lh[n]} {
        if a in logged - {lh[n]} {
          var i :| 0 <= i < |lh| && lh[i] == a;
          assert lh[..n][i] == a;
        }
      }
      ListsLength(lh[..n], logged - {lh[n]});
    }
  }

  function Picked(t: Disk, lh: seq<nat>): (data: seq<WordBlock>)
    requires forall i :: 0 <= i < |lh| ==> lh[i] < |t|
    ensures |data| == |lh| && forall i :: 0 <= i < |lh| ==> data[i] == t[lh[i]]
  {
    seq(|lh|, i requires 0 <= i < |lh| => t[lh[i]])
  }

  /** The transaction turns the disk of one state into a disk of the other. */
  lemma UpdatedRepresents(sb: Super, d: Disk, x: Files, y: Files, logged: set<nat>, lh: seq<nat>)
    requires Represents(sb, d, x) && Laid(sb, y) && Recorded(sb, x, y, logged) && ValidTxn(sb.log, d, lh)
    requires Lists(lh, logged)
    ensures |d| == |y.blocks| && (forall i :: 0 <= i < |y.inodes| ==> |y.inodes[i].addrs| == NDIRECT + 1)
    ensures Represents(sb, Updated(d, lh, Picked(Stored(sb, d, y), lh)), y)
  {
    var t := Stored(sb, d, y);
    StoredRepresents(sb, d, y);
    UpdatedAt(d, lh, Picked(t, lh));
    hide Represents, Laid, Updated, Stored, Recorded;
    var u := Updated(d, lh, Picked(t, lh));
    forall a: nat | a < |d| ensures u[a] == t[a] {
      if a in lh {
        var i :| 0 <= i < |lh| && lh[i] == a;
      } else {
        StoredUnlogged(sb, d, x, y, logged, a);
      }
    }
    assert u == t;
  }

  /** After a crash `k` writes into the commit, and however often recovery is cut short, the disk holds one of
      the two states, and every file reads as it does in that state. */
  ghost predicate OldOrNew(sb: Super, d: Disk, lh: seq<nat>, data: seq<WordBlock>, x: Files, y: Files) {
    && ValidTxn(sb.log, d, lh) && |data| == |lh| && Addressed(d, CommitWrites(sb.log, d, lh, data))
    && forall k: nat, stops: seq<nat> :: OldOrNewAt(sb, d, lh, data, x, y, k, stops)
  }

  ghost predicate OldOrNewAt(sb: Super, d: Disk, lh: seq<nat>, data: seq<WordBlock>, x: Files, y: Files,
                             k: nat, stops: seq<nat>)
    requires ValidTxn(sb.log, d, lh) && |data| == |lh| && Addressed(d, CommitWrites(sb.log, d, lh, data))
  {
    k <= |CommitWrites(sb.log, d, lh, data)| ==>
      var e := Apply(d, CommitWrites(sb.log, d, lh, data)[..k]);
      && ValidHeader(sb.log, e)
      && Holds(sb, Recovered(sb.log, e, stops), if k <= |lh| then x else y)
  }

  ghost predicate Holds(sb: Super, d: Disk, x: Files) {
    && Represents(sb, d, x)
    && forall i: nat :: i < |x.inodes| && sb.inodestart + i / FS.IPB < |d| ==>
         FileOf(sb, d, i) == Content(x.blocks, x.inodes[i])
  }

  lemma HoldsIf(sb: Super, d: Disk, x: Files)
    requires Represents(sb, d, x)
    ensures Holds(sb, d, x)
  {
    forall i: nat | i < |x.inodes| && sb.inodestart + i / FS.IPB < |d|
      ensures FileOf(sb, d, i) == Content(x.blocks, x.inodes[i])
    {
      FileRead(sb, d, x, i);
    }
  }

  /** The commit of the blocks `lh` of `y` takes a disk of `x` to one of `y` with an empty log; stopped anywhere
      it leaves the old state or the new. */
  ghost predicate Atomic(sb: Super, d: Disk, lh: seq<nat>, x: Files, y: Files) {
    && |d| == |y.blocks| && (forall i :: 0 <= i < |y.inodes| ==> |y.inodes[i].addrs| == NDIRECT + 1)
    && (forall i :: 0 <= i < |lh| ==> lh[i] < |d|)
    && var data := Picked(Stored(sb, d, y), lh);
       && OldOrNew(sb, d, lh, data, x, y)
       && var e := Apply(d, CommitWrites(sb.log, d, lh, data));
          Represents(sb, e, y) && ValidHeader(sb.log, e) && Count(sb.log, e) == 0
  }

  /** A transaction that logs everything it changes, and fits the log, is atomic for all files together,
      in whatever order its blocks were logged. */
  lemma FilesCrashAtomic(sb: Super, d: Disk, x: Files, y: Files, logged: set<nat>, lh: seq<nat>)
    requires Represents(sb, d, x) && Laid(sb, y) && Recorded(sb, x, y, logged) && Lists(lh, logged)
    requires ValidHeader(sb.log, d) && Count(sb.log, d) == 0 && |logged| <= LOGSIZE && |logged| < sb.log.size
    ensures Atomic(sb, d, lh, x, y)
  {
    LoggedTxn(sb, d, x, logged, lh);
    UpdatedRepresents(sb, d, x, y, logged, lh);
    var data := Picked(Stored(sb, d, y), lh);
    CommitDone(sb.log, d, lh, data);
    hide Represents, Laid, Updated, Stored, CommitWrites, OldOrNewAt, Recorded, Apply, Lists;
    RepresentsHome(sb, Updated(d, lh, data), Apply(d, CommitWrites(sb.log, d, lh, data)), y);
    forall k: nat, stops: seq<nat> ensures OldOrNewAt(sb, d, lh, data, x, y, k, stops) {
      CrashPoint(sb, d, lh, data, x, y, k, stops);
    }
  }

  lemma CrashPoint(sb: Super, d: Disk, lh: seq<nat>, data: seq<WordBlock>, x: Files, y: Files, k: nat, stops: seq<nat>)
    requires ValidTxn(sb.log, d, lh) && |data| == |lh| && Addressed(d, CommitWrites(sb.log, d, lh, data))
    requires ValidHeader(sb.log, d) && Count(sb.log, d) == 0
    requires Represents(sb, d, x) && Represents(sb, Updated(d, lh, data), y)
    ensures OldOrNewAt(sb, d, lh, data, x, y, k, stops)
  {
    hide Represents, Updated, CommitWrites, Apply, Recovered, Holds, Addressed;
    if k <= |CommitWrites(sb.log, d, lh, data)| {
      CrashAtomicity(sb.log, d, lh, data, k, stops);
      var r := Recovered(sb.log, Apply(d, CommitWrites(sb.log, d, lh, data)[..k]), stops);
      if k <= |lh| {
        RepresentsHome(sb, d, r, x);
        HoldsIf(sb, r, x);
      } else {
        RepresentsHome(sb, Updated(d, lh, data), r, y);
        HoldsIf(sb, r, y);
      }
    }
  }

  lemma LoggedTxn(sb: Super, d: Disk, x: Files, logged: set<nat>, lh: seq<nat>)
    requires Represents(sb, d, x) && FS.AllHome(logged, |d|, |x.inodes|, sb.start, sb.bmapstart, sb.inodestart)
    requires Lists(lh, logged) && |logged| <= LOGSIZE && |logged| < sb.log.size
    ensures ValidTxn(sb.log, d, lh)
  {
    hide Marked, SingleOwner, BitmapBlock, InodeOn, FS.Home;
    ListsLength(lh, logged);
    forall i | 0 <= i < |lh| ensures lh[i] < |d| && !InLog(sb.log, lh[i]) {
      assert lh[i] in lh;
      HomeOutside(sb, d, x, lh[i]);
    }
  }

  lemma HomeOutside(sb: Super, d: Disk, x: Files, a: nat)
    requires Represents(sb, d, x)
    ensures |d| == |x.blocks|
    ensures FS.Home(a, |d|, |x.inodes|, sb.start, sb.bmapstart, sb.inodestart) ==> a < |d| && !InLog(sb.log, a)
  {
    hide Marked, SingleOwner, BitmapBlock, InodeOn;
  }

  /** The log_writes of a transaction: between them they leave the new state in every block they log. */
  ghost predicate Leaves(sb: Super, d: Disk, y: Files, ws: seq<Write>) {
    && |d| == |y.blocks| && (forall i :: 0 <= i < |y.inodes| ==> |y.inodes[i].addrs| == NDIRECT + 1)
    && Addressed(d, ws)
    && (forall a :: a in LD.Noted(ws) ==> a < |d| && Apply(d, ws)[a] == Stored(sb, d, y)[a])
  }

  /** The logging code at work on such a transaction: its disk writes are the commit that the theorem above is
      about, with the blocks in log_write order, and it leaves the new state on the disk. */
  method CommitFiles(log: LD.Log, ws: seq<Write>, ghost sb: Super, ghost x: Files, ghost y: Files,
                     ghost logged: set<nat>)
    requires log.Valid() && log.Space() == LogSpace.INIT && log.pinned == map[] && sb.log == log.area
    requires ValidHeader(log.area, log.disk) && Count(log.area, log.disk) == 0
    requires Represents(sb, log.disk, x) && Laid(sb, y) && Recorded(sb, x, y, logged)
    requires Lists(LD.Noted(ws), logged) && |logged| <= MAXOPBLOCKS && LD.Roomy(log.area.size, ws)
    requires Leaves(sb, log.disk, y, ws)
    modifies log, log.block
    ensures log.Valid() && log.Space() == LogSpace.INIT && log.pinned == map[]
    ensures ValidHeader(log.area, log.disk) && Count(log.area, log.disk) == 0 && Represents(sb, log.disk, y)
    ensures Atomic(sb, old(log.disk), LD.Noted(ws), x, y)
    ensures log.trace == old(log.trace) + CommitWrites(sb.log, old(log.disk), LD.Noted(ws),
                                                       Picked(Stored(sb, old(log.disk), y), LD.Noted(ws)))
  {
    hide Recorded, Represents, Laid, Updated, CommitWrites, Apply, Stored, LD.Noted, LD.Roomy, OldOrNew;
    ghost var d, lh := log.disk, LD.Noted(ws);
    LoggedHome(sb, d, x, y, logged, ws);
    ListsLength(lh, logged);
    ghost var data := log.Operation(ws);
    assert data == Picked(Stored(sb, d, y), lh);
    FilesCrashAtomic(sb, d, x, y, logged, lh);
    UpdatedRepresents(sb, d, x, y, logged, lh);
    RepresentsHome(sb, Updated(d, lh, data), log.disk, y);
  }

  lemma LoggedHome(sb: Super, d: Disk, x: Files, y: Files, logged: set<nat>, ws: seq<Write>)
    requires Represents(sb, d, x) && Recorded(sb, x, y, logged) && Lists(LD.Noted(ws), logged)
    ensures forall i :: 0 <= i < |ws| ==> ws[i].addr < |d| && !InLog(sb.log, ws[i].addr)
  {
    hide Represents, LD.Noted, FS.Covers, FS.Home;
    forall i | 0 <= i < |ws| ensures ws[i].addr < |d| && !InLog(sb.log, ws[i].addr) {
      assert ws[i].addr in LD.Noted(ws);
      HomeOutside(sb, d, x, ws[i].addr);
    }
  }

  ghost function State(fs: FS.Fs): Files
    reads fs
  {
    Files(fs.bitmap, fs.blocks, fs.inodes)
  }

  /** One piece of a file write, on a disk that holds the file system: in whatever order its blocks are logged
      and whatever happens during its commit, afterwards all files are as they were, or all are as the write
      left them; and the next piece finds the disk as this one did. */
  method WriteChunk(fs: FS.Fs, ip: nat, piece: seq<byte>, off: nat, ghost sb: Super, ghost d: Disk) returns (r: int)
    requires fs.Valid() && ip < |fs.inodes| && |piece| <= FS.CHUNK && off < TWO32
    requires sb.start == fs.start && sb.bmapstart == fs.bmapstart && sb.inodestart == fs.inodestart
    requires Represents(sb, d, State(fs)) && ValidHeader(sb.log, d) && Count(sb.log, d) == 0
    requires FS.HoleFree(fs.blocks, fs.inodes[ip]) && MAXOPBLOCKS < sb.log.size
    modifies fs
    ensures fs.Valid() && |fs.inodes| == |old(fs.inodes)| && -1 <= r <= |piece|
    ensures FS.HoleFree(fs.blocks, fs.inodes[ip]) && FS.OthersSame(old(fs.Now()), fs.Now(), ip)
    ensures r == -1 <==> off > |old(Content(fs.blocks, fs.inodes[ip]))| || off + |piece| > MAXBYTES
    ensures Content(fs.blocks, fs.inodes[ip])
         == if r == -1 then old(Content(fs.blocks, fs.inodes[ip]))
            else FS.Splice(old(Content(fs.blocks, fs.inodes[ip])), off, piece[..r])
    ensures 0 <= r < |piece| ==> FS.Full(fs.bitmap, fs.blocks)
    ensures forall lh :: Lists(lh, fs.logged) ==> Atomic(sb, d, lh, old(State(fs)), State(fs))
  {
    hide Marked, SingleOwner, FS.HoleFree, Slot, View, FS.Splice, FS.Full, FS.Covers, FS.AllHome, Atomic,
         BitmapBlock, InodeOn, Content, Lists;
    ghost var x := State(fs);
    r := fs.Transaction(ip, piece, off);
    CoveredSize(x.bitmap, x.blocks, fs.bitmap, fs.blocks, fs.logged, fs.bmapstart);
    forall lh | Lists(lh, fs.logged) ensures Atomic(sb, d, lh, x, State(fs)) {
      FilesCrashAtomic(sb, d, x, State(fs), fs.logged, lh);
    }
  }

  /** A truncation likewise: a crash leaves the file whole or empty, with its blocks in use or free, and all other
      files as they were. The bitmap and one more block have to fit the log. */
  method TruncateFile(fs: FS.Fs, ip: nat, ghost sb: Super, ghost d: Disk) returns (panic: bool)
    requires fs.Valid() && ip < |fs.inodes|
    requires sb.start == fs.start && sb.bmapstart == fs.bmapstart && sb.inodestart == fs.inodestart
    requires Represents(sb, d, State(fs)) && ValidHeader(sb.log, d) && Count(sb.log, d) == 0
    requires var most := (|fs.blocks| - 1) / FS.BPB + 2; most <= LOGSIZE && most < sb.log.size
    modifies fs
    ensures !panic && fs.Valid() && |fs.inodes| == |old(fs.inodes)|
    ensures Content(fs.blocks, fs.inodes[ip]) == [] && FS.OthersSame(old(fs.Now()), fs.Now(), ip)
    ensures forall lh :: Lists(lh, fs.logged) ==> Atomic(sb, d, lh, old(State(fs)), State(fs))
  {
    hide Marked, SingleOwner, Slot, View, FS.Covers, FS.AllHome, Atomic, BitmapBlock, InodeOn, Lists;
    ghost var x := State(fs);
    panic := fs.Truncation(ip);
    CoveredSize(x.bitmap, x.blocks, fs.bitmap, fs.blocks, fs.logged, fs.bmapstart);
    forall lh | Lists(lh, fs.logged) ensures Atomic(sb, d, lh, x, State(fs)) {
      FilesCrashAtomic(sb, d, x, State(fs), fs.logged, lh);
    }
  }

  lemma CoveredSize(bm: seq<bv8>, blocks: seq<FileBlock>, bm': seq<bv8>, blocks': seq<FileBlock>, logged: set<nat>,
                    bmapstart: nat)
    requires FS.Covers(bm, blocks, bm', blocks', logged, bmapstart)
    ensures |blocks'| == |blocks|
  {
  }
}
