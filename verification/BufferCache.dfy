/** The buffer cache of bio.c in the atomic steps its locks make: the critical sections under
    `bcache.lock`, taking and giving back a buffer's sleep lock, and disk transfers by the lock's
    holder. `store` is what an uncached disk would hold: every change to a buffer's data goes
    straight into it. */
module BufferCache {
  import opened Seqs
  import opened Blocks
  import opened LruList
  import V = BlockView

  const ROOTDEV: nat := 1

  datatype Found = Buffer(b: nat) | Panic

  /** What one buffer says about itself. */
  datatype Buf = Buf(dev: nat, blockno: nat, valid: bool, refcnt: nat, data: Block, locked: bool) {
    predicate Caches(d: nat, k: nat) { dev == d && blockno == k }
    predicate Holds(k: nat) { valid && Caches(ROOTDEV, k) }
  }

  /** Buffer `b` is why block `k` may differ from the disk: it is in use by its holder or pinned. */
  ghost predicate Keeps(bufs: seq<Buf>, pins: seq<nat>, b: nat, k: nat) {
    b < |bufs| == |pins| && bufs[b].Holds(k) && (bufs[b].locked || pins[b] > 0)
  }

  /** No two buffers hold one block of a non-zero device. */
  ghost predicate Unique(bufs: seq<Buf>) {
    forall a, b :: 0 <= a < b < |bufs| && bufs[a].dev == bufs[b].dev != 0 ==> bufs[a].blockno != bufs[b].blockno
  }

  ghost predicate Fresh(bufs: seq<Buf>, store: seq<Block>) {
    forall b, k :: 0 <= b < |bufs| && 0 <= k < |store| && bufs[b].Holds(k) ==> bufs[b].data == store[k]
  }

  ghost predicate Kept(bufs: seq<Buf>, pins: seq<nat>, disk: seq<Block>, store: seq<Block>) {
    && |disk| == |store|
    && forall k :: 0 <= k < |disk| && disk[k] != store[k] ==> exists b :: Keeps(bufs, pins, b, k)
  }

  /** Every reference is a pin or a process between `bget` and the end of `brelse`. */
  ghost predicate Counted(bufs: seq<Buf>, pins: seq<nat>, users: seq<nat>) {
    && |bufs| == |pins| == |users|
    && forall b :: 0 <= b < |bufs| ==>
         bufs[b].refcnt == pins[b] + users[b] && (bufs[b].locked ==> users[b] > 0)
  }

  ghost predicate PinnedFor(bufs: seq<Buf>, pins: seq<nat>, b: nat, k: nat) {
    b < |bufs| == |pins| && bufs[b].Holds(k) && pins[b] == 1
  }

  /** Exactly the blocks logged and not yet installed are pinned, each once. */
  ghost predicate Pinned(bufs: seq<Buf>, pins: seq<nat>, pending: set<nat>) {
    && (forall b :: 0 <= b < |bufs| == |pins| && pins[b] > 0 ==>
          PinnedFor(bufs, pins, b, bufs[b].blockno) && bufs[b].blockno in pending)
    && (forall k :: k in pending ==> exists b :: PinnedFor(bufs, pins, b, k))
  }

  ghost predicate Transparent(bufs: seq<Buf>, pins: seq<nat>, users: seq<nat>, pending: set<nat>, disk: seq<Block>,
                              store: seq<Block>) {
    && Unique(bufs) && Counted(bufs, pins, users) && Fresh(bufs, store)
    && Kept(bufs, pins, disk, store) && Pinned(bufs, pins, pending)
  }

  /** Pins stay in step when no pinned buffer loses its block. */
  lemma PinnedStill(bufs: seq<Buf>, bufs': seq<Buf>, pins: seq<nat>, pending: set<nat>)
    requires Pinned(bufs, pins, pending) && |bufs'| == |bufs| == |pins|
    requires forall b :: 0 <= b < |bufs| && pins[b] > 0 ==>
               bufs'[b].dev == bufs[b].dev && bufs'[b].blockno == bufs[b].blockno && bufs'[b].valid == bufs[b].valid
    ensures Pinned(bufs', pins, pending)
  {
    forall k | k in pending ensures exists b :: PinnedFor(bufs', pins, b, k) {
      var b :| PinnedFor(bufs, pins, b, k);
      assert PinnedFor(bufs', pins, b, k);
    }
    forall b | 0 <= b < |bufs| && pins[b] > 0 ensures PinnedFor(bufs', pins, b, bufs'[b].blockno) {
      assert PinnedFor(bufs, pins, b, bufs[b].blockno);
    }
  }

  /** The list runs from the latest use to the earliest. */
  ghost predicate Recency(order: seq<nat>, stamp: seq<nat>, clock: nat) {
    && Members(order, |stamp|)
    && (forall i, j :: 0 <= i < j < |order| ==> stamp[order[i]] > stamp[order[j]])
    && (forall i :: 0 <= i < |stamp| ==> stamp[i] < clock)
  }

  ghost predicate Clean(b: Buf, disk: seq<Block>) {
    b.Holds(b.blockno) && b.blockno < |disk| ==> b.data == disk[b.blockno]
  }

  /** A buffer that nothing refers to may be given to another block. */
  lemma Recycle(bufs: seq<Buf>, pins: seq<nat>, users: seq<nat>, pending: set<nat>, disk: seq<Block>,
                store: seq<Block>, v: nat, dev: nat, blockno: nat)
    requires Transparent(bufs, pins, users, pending, disk, store) && v < |bufs| && bufs[v].refcnt == 0
    requires forall b :: 0 <= b < |bufs| ==> !bufs[b].Caches(dev, blockno)
    ensures var b := bufs[v].(dev := dev, blockno := blockno, valid := false, refcnt := 1);
            Transparent(bufs[v := b], pins, users[v := users[v] + 1], pending, disk, store)
  {
    var bufs' := bufs[v := bufs[v].(dev := dev, blockno := blockno, valid := false, refcnt := 1)];
    PinnedStill(bufs, bufs', pins, pending);
    forall k | 0 <= k < |disk| && disk[k] != store[k] ensures exists b :: Keeps(bufs', pins, b, k) {
      var b :| Keeps(bufs, pins, b, k);
      assert Keeps(bufs', pins, b, k);
    }
  }

  /** Changing one buffer without its identity or data keeps the rest, as long as the buffer still
      accounts for a difference from the disk. */
  lemma Adjust(bufs: seq<Buf>, pins: seq<nat>, users: seq<nat>, pending: set<nat>, disk: seq<Block>,
               store: seq<Block>, b: nat, c: Buf, u: nat)
    requires Transparent(bufs, pins, users, pending, disk, store) && b < |bufs|
    requires c.dev == bufs[b].dev && c.blockno == bufs[b].blockno && c.valid == bufs[b].valid && c.data == bufs[b].data
    requires c.refcnt == pins[b] + u && (c.locked ==> u > 0)
    requires bufs[b].locked && !c.locked ==> bufs[b].blockno in pending || Clean(bufs[b], disk)
    ensures Transparent(bufs[b := c], pins, users[b := u], pending, disk, store)
  {
    var bufs' := bufs[b := c];
    PinnedStill(bufs, bufs', pins, pending);
    forall k | 0 <= k < |disk| && disk[k] != store[k] ensures exists b :: Keeps(bufs', pins, b, k) {
      var d :| Keeps(bufs, pins, d, k);
      if d == b && k in pending {
        var e :| PinnedFor(bufs, pins, e, k);
      }
      assert Keeps(bufs', pins, d, k);
    }
  }

  /** log_write of a block new to the log, by the buffer's holder. */
  lemma PinStep(bufs: seq<Buf>, pins: seq<nat>, users: seq<nat>, pending: set<nat>, disk: seq<Block>,
                store: seq<Block>, b: nat)
    requires Transparent(bufs, pins, users, pending, disk, store) && b < |bufs|
    requires bufs[b].valid && bufs[b].dev == ROOTDEV && bufs[b].blockno !in pending
    ensures pins[b] == 0
    ensures Transparent(bufs[b := bufs[b].(refcnt := bufs[b].refcnt + 1)], pins[b := 1], users,
                        pending + {bufs[b].blockno}, disk, store)
  {
    var bufs', pins', pending' := bufs[b := bufs[b].(refcnt := bufs[b].refcnt + 1)], pins[b := 1],
      pending + {bufs[b].blockno};
    forall k | 0 <= k < |disk| && disk[k] != store[k] ensures exists b :: Keeps(bufs', pins', b, k) {
      var d :| Keeps(bufs, pins, d, k);
      assert Keeps(bufs', pins', d, k);
    }
    assert PinnedFor(bufs', pins', b, bufs[b].blockno);
    forall k | k in pending ensures exists b :: PinnedFor(bufs', pins', b, k) {
      var d :| PinnedFor(bufs, pins, d, k);
      assert PinnedFor(bufs', pins', d, k);
    }
    forall d | 0 <= d < |bufs| && d != b && pins[d] > 0 ensures PinnedFor(bufs', pins', d, bufs'[d].blockno) {
      assert PinnedFor(bufs, pins, d, bufs[d].blockno);
    }
  }

  lemma PinnedOnce(bufs: seq<Buf>, pins: seq<nat>, pending: set<nat>, b: nat)
    requires Unique(bufs) && Pinned(bufs, pins, pending) && b < |bufs| == |pins|
    requires bufs[b].Holds(bufs[b].blockno) && bufs[b].blockno in pending
    ensures pins[b] == 1
  {
    var e :| PinnedFor(bufs, pins, e, bufs[b].blockno);
    assert e == b;
  }

  lemma UnpinPinned(bufs: seq<Buf>, bufs': seq<Buf>, pins: seq<nat>, pending: set<nat>, b: nat)
    requires Unique(bufs) && Pinned(bufs, pins, pending) && b < |bufs| == |pins| == |bufs'|
    requires bufs[b].Holds(bufs[b].blockno) && bufs' == bufs[b := bufs'[b]]
    ensures Pinned(bufs', pins[b := 0], pending - {bufs[b].blockno})
  {
    var pins', pending' := pins[b := 0], pending - {bufs[b].blockno};
    forall k | k in pending' ensures exists b :: PinnedFor(bufs', pins', b, k) {
      var d :| PinnedFor(bufs, pins, d, k);
      assert PinnedFor(bufs', pins', d, k);
    }
    forall d | 0 <= d < |bufs| && d != b && pins[d] > 0
      ensures PinnedFor(bufs', pins', d, bufs'[d].blockno) && bufs'[d].blockno in pending'
    {
      assert PinnedFor(bufs, pins, d, bufs[d].blockno);
    }
  }

  /** bunpin once the block is on disk. */
  lemma UnpinStep(bufs: seq<Buf>, pins: seq<nat>, users: seq<nat>, pending: set<nat>, disk: seq<Block>,
                  store: seq<Block>, b: nat)
    requires Transparent(bufs, pins, users, pending, disk, store) && b < |bufs|
    requires bufs[b].Holds(bufs[b].blockno) && bufs[b].blockno in pending && Clean(bufs[b], disk)
    ensures pins[b] == 1
    ensures Transparent(bufs[b := bufs[b].(refcnt := pins[b] + users[b] - 1)], pins[b := 0], users,
                        pending - {bufs[b].blockno}, disk, store)
  {
    PinnedOnce(bufs, pins, pending, b);
    var bufs', pins' := bufs[b := bufs[b].(refcnt := users[b])], pins[b := 0];
    UnpinPinned(bufs, bufs', pins, pending, b);
    hide Pinned;
    forall k | 0 <= k < |disk| && disk[k] != store[k] ensures exists b :: Keeps(bufs', pins', b, k) {
      var d :| Keeps(bufs, pins, d, k);
      assert Keeps(bufs', pins', d, k);
    }
  }

  /** A block that differs from the disk is held right now or waiting in the log. */
  lemma DirtyIsHeldOrLogged(bufs: seq<Buf>, pins: seq<nat>, users: seq<nat>, pending: set<nat>, disk: seq<Block>,
                            store: seq<Block>, k: nat)
    requires Transparent(bufs, pins, users, pending, disk, store) && k < |disk|
    ensures disk[k] == store[k] || k in pending || exists b :: 0 <= b < |bufs| && bufs[b].Holds(k) && bufs[b].locked
  {
    if disk[k] != store[k] {
      var b: nat :| Keeps(bufs, pins, b, k);
      if !bufs[b].locked {
        assert PinnedFor(bufs, pins, b, bufs[b].blockno);
      }
    }
  }

  /** Once the log is installed and no buffer is held, the disk is the store. */
  lemma QuietDiskIsStore(bufs: seq<Buf>, pins: seq<nat>, users: seq<nat>, disk: seq<Block>, store: seq<Block>)
    requires Transparent(bufs, pins, users, {}, disk, store) && forall b :: 0 <= b < |bufs| ==> !bufs[b].locked
    ensures disk == store
  {
    forall k | 0 <= k < |disk| ensures disk[k] == store[k] {
      DirtyIsHeldOrLogged(bufs, pins, users, {}, disk, store, k);
    }
  }

  /** A buffer being filled finds the disk up to date: nothing else can stand for its block. */
  lemma FillSees(bufs: seq<Buf>, pins: seq<nat>, users: seq<nat>, pending: set<nat>, disk: seq<Block>,
                 store: seq<Block>, b: nat)
    requires Transparent(bufs, pins, users, pending, disk, store) && b < |bufs| && !bufs[b].valid
    requires bufs[b].dev == ROOTDEV && bufs[b].blockno < |disk|
    ensures disk[bufs[b].blockno] == store[bufs[b].blockno]
  {
    var k := bufs[b].blockno;
    forall c: nat ensures !Keeps(bufs, pins, c, k) {}
  }

  lemma Filled(bufs: seq<Buf>, pins: seq<nat>, users: seq<nat>, pending: set<nat>, disk: seq<Block>,
               store: seq<Block>, b: nat)
    requires Transparent(bufs, pins, users, pending, disk, store) && b < |bufs| && !bufs[b].valid
    requires bufs[b].blockno < |disk|
    ensures Transparent(bufs[b := bufs[b].(valid := true, data := disk[bufs[b].blockno])], pins, users, pending, disk,
                        store)
  {
    var bufs' := bufs[b := bufs[b].(valid := true, data := disk[bufs[b].blockno])];
    forall d | 0 <= d < |bufs| && pins[d] > 0 ensures d != b { assert PinnedFor(bufs, pins, d, bufs[d].blockno); }
    PinnedStill(bufs, bufs', pins, pending);
    if bufs[b].dev == ROOTDEV {
      FillSees(bufs, pins, users, pending, disk, store, b);
    }
    forall k | 0 <= k < |disk| && disk[k] != store[k] ensures exists b :: Keeps(bufs', pins, b, k) {
      var c :| Keeps(bufs, pins, c, k);
      assert Keeps(bufs', pins, c, k);
    }
  }

  /** The holder's new data for block `k`, on disk or not. */
  lemma Changed(bufs: seq<Buf>, pins: seq<nat>, users: seq<nat>, pending: set<nat>, disk: seq<Block>,
                store: seq<Block>, b: nat, data: Block)
    requires Transparent(bufs, pins, users, pending, disk, store) && b < |bufs| && bufs[b].locked && bufs[b].valid
    requires bufs[b].dev == ROOTDEV && bufs[b].blockno < |disk|
    ensures var k := bufs[b].blockno;
            Transparent(bufs[b := bufs[b].(data := data)], pins, users, pending, disk, store[k := data])
  {
    var k0 := bufs[b].blockno;
    var bufs', store' := bufs[b := bufs[b].(data := data)], store[k0 := data];
    PinnedStill(bufs, bufs', pins, pending);
    forall k | 0 <= k < |disk| && disk[k] != store'[k] ensures exists b :: Keeps(bufs', pins, b, k) {
      if k == k0 {
        assert Keeps(bufs', pins, b, k);
      } else {
        var c :| Keeps(bufs, pins, c, k);
        assert Keeps(bufs', pins, c, k);
      }
    }
  }

  lemma Written(bufs: seq<Buf>, pins: seq<nat>, users: seq<nat>, pending: set<nat>, disk: seq<Block>,
                store: seq<Block>, b: nat)
    requires Transparent(bufs, pins, users, pending, disk, store) && b < |bufs| && bufs[b].valid
    requires bufs[b].dev == ROOTDEV && bufs[b].blockno < |disk|
    ensures Transparent(bufs, pins, users, pending, disk[bufs[b].blockno := bufs[b].data], store)
  {
    var k0 := bufs[b].blockno;
    var disk' := disk[k0 := bufs[b].data];
    forall k | 0 <= k < |disk| && disk'[k] != store[k] ensures exists b :: Keeps(bufs, pins, b, k) {
      assert bufs[b].Holds(k0);
      assert k != k0;
    }
  }

  /** The blocks pinned by the first `n` buffers. */
  ghost function PinnedBlocks(bufs: seq<Buf>, pins: seq<nat>, n: nat): set<nat>
    requires n <= |bufs| == |pins|
  {
    if n == 0 then {}
    else PinnedBlocks(bufs, pins, n - 1) + if pins[n - 1] > 0 then {bufs[n - 1].blockno} else {}
  }

  lemma {:induction false} PinnedBlocksAre(bufs: seq<Buf>, pins: seq<nat>, n: nat, k: nat)
    requires n <= |bufs| == |pins|
    ensures k in PinnedBlocks(bufs, pins, n) <==>
              exists b: nat :: b < n && pins[b] > 0 && bufs[b].blockno == k
  {
    if n > 0 {
      PinnedBlocksAre(bufs, pins, n - 1, k);
    }
  }

  lemma {:induction false} PinnedCount(bufs: seq<Buf>, pins: seq<nat>, pending: set<nat>, n: nat)
    requires Unique(bufs) && n <= |bufs| == |pins| && Pinned(bufs, pins, pending)
    ensures |PinnedBlocks(bufs, pins, n)| <= n
    ensures |PinnedBlocks(bufs, pins, n)| == n <==> forall b :: 0 <= b < n ==> pins[b] > 0
  {
    if n > 0 {
      PinnedCount(bufs, pins, pending, n - 1);
      var m := n - 1;
      if pins[m] > 0 {
        PinnedBlocksAre(bufs, pins, m, bufs[m].blockno);
        NotPinnedTwice(bufs, pins, pending, m);
      }
    }
  }

  lemma NotPinnedTwice(bufs: seq<Buf>, pins: seq<nat>, pending: set<nat>, m: nat)
    requires Unique(bufs) && m < |bufs| == |pins| && Pinned(bufs, pins, pending) && pins[m] > 0
    ensures forall b :: 0 <= b < m && pins[b] > 0 ==> bufs[b].blockno != bufs[m].blockno
  {
    assert PinnedFor(bufs, pins, m, bufs[m].blockno);
    forall b | 0 <= b < m && pins[b] > 0 ensures bufs[b].blockno != bufs[m].blockno {
      assert PinnedFor(bufs, pins, b, bufs[b].blockno);
    }
  }

  /** With nobody using a buffer one can be had for any block while fewer blocks than there are buffers wait in
      the log, and for those blocks always. */
  lemma RoomIff(bufs: seq<Buf>, pins: seq<nat>, users: seq<nat>, pending: set<nat>, disk: seq<Block>,
                store: seq<Block>, k: nat)
    requires Transparent(bufs, pins, users, pending, disk, store)
    requires forall b :: 0 <= b < |bufs| ==> users[b] == 0
    ensures (exists b :: 0 <= b < |bufs| && (bufs[b].Caches(ROOTDEV, k) || bufs[b].refcnt == 0)) <==>
              |pending| < |bufs| || k in pending
    ensures |pending| <= |bufs|
  {
    hide Fresh, Kept;
    PinnedCount(bufs, pins, pending, |bufs|);
    forall c ensures c in PinnedBlocks(bufs, pins, |bufs|) <==> c in pending {
      PendingPinned(bufs, pins, pending, c);
    }
    assert PinnedBlocks(bufs, pins, |bufs|) == pending;
    PendingPinned(bufs, pins, pending, k);
    if |pending| == |bufs| && exists b :: 0 <= b < |bufs| && bufs[b].Caches(ROOTDEV, k) {
      var b :| 0 <= b < |bufs| && bufs[b].Caches(ROOTDEV, k);
      assert PinnedFor(bufs, pins, b, bufs[b].blockno);
    }
  }

  /** A block waiting in the log is in its pinned buffer. */
  lemma PendingPinned(bufs: seq<Buf>, pins: seq<nat>, pending: set<nat>, k: nat)
    requires Pinned(bufs, pins, pending) && |bufs| == |pins|
    ensures k in PinnedBlocks(bufs, pins, |bufs|) <==> k in pending
    ensures k in pending ==> exists b :: 0 <= b < |bufs| && bufs[b].Caches(ROOTDEV, k)
  {
    PinnedBlocksAre(bufs, pins, |bufs|, k);
    if k in pending {
      var b: nat :| PinnedFor(bufs, pins, b, k);
      assert pins[b] > 0 && bufs[b].blockno == k && bufs[b].Caches(ROOTDEV, k);
    }
  }

  lemma MovedToFront(order: seq<nat>, stamp: seq<nat>, clock: nat, i: nat)
    requires Recency(order, stamp, clock) && i < |order|
    ensures Recency([order[i]] + Without(order, i), stamp[order[i] := clock], clock + 1)
  {
    var o, w := [order[i]] + Without(order, i), Without(order, i);
    forall j | 0 <= j < |w| ensures w[j] == order[if j < i then j else j + 1] {}
    forall j | 1 <= j < |o| ensures o[j] == order[if j <= i then j - 1 else j] { assert o[j] == w[j - 1]; }
  }

  const UNUSED: Buf := Buf(0, 0, false, 0, ZeroBlock(), false)

  lemma BootTransparent(n: nat, disk: seq<Block>)
    ensures Transparent(seq(n, _ => UNUSED), seq(n, _ => 0), seq(n, _ => 0), {}, disk, disk)
  {
  }

  class Cache {
    const N: nat
    var next: seq<nat>
    var prev: seq<nat>
    var bufs: seq<Buf>
    var disk: seq<Block>
    ghost var order: seq<nat>
    ghost var stamp: seq<nat>
    ghost var clock: nat
    ghost var pins: seq<nat>
    ghost var users: seq<nat>
    /** Blocks logged and not yet installed. */
    var pending: set<nat>
    ghost var store: seq<Block>

    ghost predicate Listed()
      reads this
    {
      Linked(next, prev, N, order) && Permutation(order, N) && |stamp| == N && Recency(order, stamp, clock)
    }

    ghost predicate Valid()
      reads this
    {
      Listed() && |bufs| == |pins| == |users| == N && |disk| == |store|
        && Transparent(bufs, pins, users, pending, disk, store)
    }

    /** The boot-time state and binit's loop: zeroed buffers, pushed to the front one by one. */
    constructor (n: nat, disk0: seq<Block>)
      ensures Valid() && N == n && disk == store == disk0 && pending == {}
      ensures order == seq(n, i requires 0 <= i < n => n - 1 - i)
      ensures forall b :: 0 <= b < n ==> bufs[b] == UNUSED
    {
      N := n;
      next, prev := seq(n + 1, _ => n), seq(n + 1, _ => n);
      bufs := seq(n, _ => UNUSED);
      disk, store, pending := disk0, disk0, {};
      pins, users := seq(n, _ => 0), seq(n, _ => 0);
      order, stamp, clock := [], seq(n, i => i), n;
      new;
      BootTransparent(n, disk0);
      hide Transparent;
      assert Joined(next, prev, N, order, -1);
      var b := 0;
      while b < N
        invariant 0 <= b <= N && Linked(next, prev, N, order)
        invariant |order| == b && forall i :: 0 <= i < b ==> order[i] == b - 1 - i
        modifies `next, `prev, `order
      {
        PushFront(next, prev, N, order, b);
        next, prev := next[b := next[N]], prev[b := N];
        prev := prev[next[N] := b];
        next := next[N := b];
        order := [b] + order;
        b := b + 1;
      }
      forall c: nat | c < N ensures c in order { assert order[N - 1 - c] == c; }
    }

    /** bget's first loop, from the most recently used end: `N` when the block is not cached. */
    method Lookup(dev: nat, blockno: nat) returns (b: nat)
      requires Listed() && |bufs| == N
      ensures b < N ==> bufs[b].Caches(dev, blockno)
      ensures b >= N ==> b == N && forall c :: 0 <= c < N ==> !bufs[c].Caches(dev, blockno)
    {
      hide Recency;
      ghost var i := 0;
      b := next[N];
      assert Joined(next, prev, N, order, -1);
      while b != N && !(bufs[b].dev == dev && bufs[b].blockno == blockno)
        invariant 0 <= i <= N && b == At(order, i, N)
        invariant forall j :: 0 <= j < i ==> !bufs[order[j]].Caches(dev, blockno)
        decreases N - i
      {
        assert Joined(next, prev, N, order, i);
        b, i := next[b], i + 1;
      }
      if b == N {
        forall c | 0 <= c < N ensures !bufs[c].Caches(dev, blockno) { assert c in order; }
      }
    }

    /** bget's second loop, from the other end: the unused buffer that was used longest ago. */
    method LeastRecent() returns (b: nat)
      requires Listed() && |bufs| == N
      ensures b < N ==> bufs[b].refcnt == 0 && forall c :: 0 <= c < N && bufs[c].refcnt == 0 ==> stamp[b] <= stamp[c]
      ensures b >= N ==> b == N && forall c :: 0 <= c < N ==> bufs[c].refcnt > 0
    {
      ghost var i := N - 1;
      b := prev[N];
      assert Joined(next, prev, N, order, N - 1);
      while b != N && bufs[b].refcnt != 0
        invariant -1 <= i < N && b == At(order, i, N)
        invariant forall j :: i < j < N ==> bufs[order[j]].refcnt > 0
        decreases i
      {
        assert Joined(next, prev, N, order, i - 1);
        b, i := prev[b], i - 1;
      }
      forall c | 0 <= c < N && bufs[c].refcnt == 0 ensures b < N && stamp[b] <= stamp[c] {
        assert c in order;
      }
    }

    /** bget up to the sleep lock: the cached buffer, or the least recently used free one, or a panic. */
    method Bget(dev: nat, blockno: nat) returns (r: Found)
      requires Valid()
      modifies `bufs, `users
      ensures Valid()
      ensures r.Buffer? ==> r.b < N && bufs[r.b].Caches(dev, blockno) && users == old(users)[r.b := old(users)[r.b] + 1]
      ensures r.Buffer? && (exists b :: 0 <= b < N && old(bufs)[b].Caches(dev, blockno)) ==>
                var c := old(bufs)[r.b];
                c.Caches(dev, blockno) && bufs == old(bufs)[r.b := c.(refcnt := c.refcnt + 1)]
      ensures r.Buffer? && (forall b :: 0 <= b < N ==> !old(bufs)[b].Caches(dev, blockno)) ==>
                var c := old(bufs)[r.b];
                && c.refcnt == 0
                && (forall b :: 0 <= b < N && old(bufs)[b].refcnt == 0 ==> stamp[r.b] <= stamp[b])
                && bufs == old(bufs)[r.b := c.(dev := dev, blockno := blockno, valid := false, refcnt := 1)]
      ensures r.Panic? <==> forall b :: 0 <= b < N ==> !old(bufs)[b].Caches(dev, blockno) && old(bufs)[b].refcnt > 0
      ensures r.Panic? ==> bufs == old(bufs) && users == old(users)
    {
      hide Listed, Transparent;
      var b := Lookup(dev, blockno);
      if b != N {
        Reference(b);
        return Buffer(b);
      }
      b := LeastRecent();
      if b == N {
        return Panic;
      }
      Reassign(b, dev, blockno);
      return Buffer(b);
    }

    method Reference(b: nat)
      requires Valid() && b < N
      modifies `bufs, `users
      ensures Valid() && users == old(users)[b := old(users)[b] + 1]
      ensures bufs == old(bufs)[b := old(bufs)[b].(refcnt := old(bufs)[b].refcnt + 1)]
    {
      hide Linked, Permutation, Recency, Unique, Fresh, Kept, Pinned;
      Adjust(bufs, pins, users, pending, disk, store, b, bufs[b].(refcnt := bufs[b].refcnt + 1), users[b] + 1);
      bufs := bufs[b := bufs[b].(refcnt := bufs[b].refcnt + 1)];
      users := users[b := users[b] + 1];
    }

    /** An unreferenced buffer moves to a block nobody caches. */
    method Reassign(b: nat, dev: nat, blockno: nat)
      requires Valid() && b < N && bufs[b].refcnt == 0 && forall c :: 0 <= c < N ==> !bufs[c].Caches(dev, blockno)
      modifies `bufs, `users
      ensures Valid() && users == old(users)[b := old(users)[b] + 1]
      ensures bufs == old(bufs)[b := old(bufs)[b].(dev := dev, blockno := blockno, valid := false, refcnt := 1)]
    {
      hide Linked, Permutation, Recency, Transparent;
      Recycle(bufs, pins, users, pending, disk, store, b, dev, blockno);
      bufs := bufs[b := bufs[b].(dev := dev, blockno := blockno, valid := false, refcnt := 1)];
      users := users[b := users[b] + 1];
    }

    /** acquiresleep by a process that bget gave this buffer. */
    method AcquireSleep(b: nat)
      requires Valid() && b < N && !bufs[b].locked && users[b] > 0
      modifies `bufs
      ensures Valid() && bufs == old(bufs)[b := old(bufs)[b].(locked := true)]
    {
      hide Linked, Permutation, Recency, Unique, Fresh, Kept, Pinned;
      Adjust(bufs, pins, users, pending, disk, store, b, bufs[b].(locked := true), users[b]);
      assert users[b := users[b]] == users;
      bufs := bufs[b := bufs[b].(locked := true)];
    }

    /** The rest of bread, by the lock's holder: the data is what an uncached disk would return. */
    method Fill(b: nat)
      requires Valid() && b < N && bufs[b].locked && bufs[b].blockno < |disk|
      modifies `bufs
      ensures Valid() && bufs == old(bufs)[b := bufs[b]] && bufs[b].valid
      ensures bufs[b] == old(bufs)[b].(valid := true, data := bufs[b].data)
      ensures old(bufs)[b].valid ==> bufs == old(bufs)
      ensures bufs[b].dev == ROOTDEV ==> bufs[b].data == store[bufs[b].blockno]
    {
      hide Linked, Permutation, Recency, Unique, Kept, Pinned;
      if !bufs[b].valid {
        Filled(bufs, pins, users, pending, disk, store, b);
        bufs := bufs[b := bufs[b].(data := disk[bufs[b].blockno])];
        bufs := bufs[b := bufs[b].(valid := true)];
        assert bufs == old(bufs)[b := old(bufs)[b].(valid := true, data := disk[bufs[b].blockno])];
      }
      assert bufs[b].dev == ROOTDEV ==> bufs[b].Holds(bufs[b].blockno);
    }

    /** bread when nobody else holds the block. */
    method Bread(dev: nat, blockno: nat) returns (r: Found)
      requires Valid() && blockno < |disk|
      requires forall b :: 0 <= b < N && bufs[b].Caches(dev, blockno) ==> !bufs[b].locked
      modifies `bufs, `users
      ensures Valid()
      ensures r.Panic? <==> forall b :: 0 <= b < N ==> !old(bufs)[b].Caches(dev, blockno) && old(bufs)[b].refcnt > 0
      ensures r.Buffer? ==> r.b < N && bufs[r.b].locked && bufs[r.b].valid && bufs[r.b].Caches(dev, blockno)
      ensures r.Buffer? && dev == ROOTDEV ==> bufs[r.b].data == store[blockno]
      ensures users == if r.Buffer? then old(users)[r.b := old(users)[r.b] + 1] else old(users)
      ensures forall b :: 0 <= b < N && (r.Buffer? ==> b != r.b) ==> bufs[b].locked == old(bufs)[b].locked
    {
      hide Listed, Unique, Fresh, Kept, Pinned;
      r := Bget(dev, blockno);
      if r.Buffer? {
        assert !bufs[r.b].locked;
        AcquireSleep(r.b);
        Fill(r.b);
      }
    }

    /** The holder changes the data. */
    method Store(b: nat, data: Block)
      requires Valid() && b < N && bufs[b].locked && bufs[b].valid && bufs[b].dev == ROOTDEV && bufs[b].blockno < |disk|
      modifies `bufs, `store
      ensures Valid() && bufs == old(bufs)[b := old(bufs)[b].(data := data)]
      ensures store == old(store)[bufs[b].blockno := data]
    {
      hide Linked, Permutation, Recency, Unique, Kept, Pinned;
      Changed(bufs, pins, users, pending, disk, store, b, data);
      store := store[bufs[b].blockno := data];
      bufs := bufs[b := bufs[b].(data := data)];
    }

    /** bwrite by the holder; without the lock it panics. */
    method Bwrite(b: nat) returns (panicked: bool)
      requires Valid() && b < N && bufs[b].valid && bufs[b].dev == ROOTDEV && bufs[b].blockno < |disk|
      modifies `disk
      ensures Valid() && panicked == !bufs[b].locked
      ensures disk == if panicked then old(disk) else old(disk)[bufs[b].blockno := bufs[b].data]
      ensures !panicked ==> disk[bufs[b].blockno] == store[bufs[b].blockno]
    {
      hide Linked, Permutation, Recency, Unique, Kept, Pinned;
      if !bufs[b].locked {
        return true;
      }
      Written(bufs, pins, users, pending, disk, store, b);
      assert bufs[b].Holds(bufs[b].blockno);
      disk := disk[bufs[b].blockno := bufs[b].data];
      panicked := false;
    }

    /** brelse's releasesleep: a buffer given back has been written or logged. */
    method ReleaseSleep(b: nat) returns (panicked: bool)
      requires Valid() && b < N
      requires bufs[b].blockno in pending || Clean(bufs[b], disk)
      modifies `bufs
      ensures Valid() && panicked == !old(bufs)[b].locked
      ensures bufs == old(bufs)[b := old(bufs)[b].(locked := false)]
    {
      hide Linked, Permutation, Recency, Unique, Fresh, Kept, Pinned;
      if !bufs[b].locked {
        assert bufs[b := bufs[b]] == bufs;
        return true;
      }
      Adjust(bufs, pins, users, pending, disk, store, b, bufs[b].(locked := false), users[b]);
      assert users[b := users[b]] == users;
      bufs := bufs[b := bufs[b].(locked := false)];
      panicked := false;
    }

    /** The rest of brelse, by a process that no longer holds the lock: the last one out moves the
        buffer to the front. */
    method Drop(b: nat)
      requires Valid() && b < N && users[b] > if bufs[b].locked then 1 else 0
      modifies `bufs, `users, `next, `prev, `order, `stamp, `clock
      ensures Valid() && users == old(users)[b := old(users)[b] - 1]
      ensures bufs == old(bufs)[b := old(bufs)[b].(refcnt := old(bufs)[b].refcnt - 1)]
      ensures bufs[b].refcnt > 0 ==> order == old(order) && stamp == old(stamp)
      ensures bufs[b].refcnt == 0 ==>
                && stamp == old(stamp)[b := old(clock)]
                && exists i :: 0 <= i < N && old(order)[i] == b && order == [b] + Without(old(order), i)
    {
      hide Linked, Permutation, Recency, Unique, Fresh, Kept, Pinned;
      Adjust(bufs, pins, users, pending, disk, store, b, bufs[b].(refcnt := bufs[b].refcnt - 1), users[b] - 1);
      bufs := bufs[b := bufs[b].(refcnt := bufs[b].refcnt - 1)];
      users := users[b := users[b] - 1];
      if bufs[b].refcnt == 0 {
        MoveToFront(b);
      }
    }

    /** The six pointer writes of brelse. */
    method MoveToFront(b: nat)
      requires Listed() && b < N
      modifies `next, `prev, `order, `stamp, `clock
      ensures Listed() && stamp == old(stamp)[b := old(clock)]
      ensures exists i :: 0 <= i < N && old(order)[i] == b && order == [b] + Without(old(order), i)
    {
      assert b in order;
      ghost var i: nat :| i < N && order[i] == b;
      Unlink(next, prev, N, order, i);
      PushFront(next[prev[b] := next[b]], prev[next[b] := prev[b]], N, Without(order, i), b);
      FrontPermutation(order, i, N);
      MovedToFront(order, stamp, clock, i);
      hide Linked, Permutation, Recency, Unique, Fresh, Kept, Pinned;
      ghost var n1, p1 := next[prev[b] := next[b]], prev[next[b] := prev[b]];
      prev := prev[next[b] := prev[b]];
      assert prev[b] == old(prev[b]);
      next := next[prev[b] := next[b]];
      assert next == n1 && prev == p1;
      next := next[b := next[N]];
      prev := prev[b := N];
      prev := prev[next[N] := b];
      next := next[N := b];
      order, stamp, clock := [b] + Without(order, i), stamp[b := clock], clock + 1;
    }

    /** log_write's effect on the cache: bpin on a block new to the log, nothing on an absorbed one. */
    method LogWrite(b: nat)
      requires Valid() && b < N && bufs[b].valid && bufs[b].dev == ROOTDEV
      modifies `bufs, `pins, `pending
      ensures Valid() && pending == old(pending) + {bufs[b].blockno}
      ensures bufs == if bufs[b].blockno in old(pending) then old(bufs)
              else old(bufs)[b := old(bufs)[b].(refcnt := old(bufs)[b].refcnt + 1)]
    {
      hide Linked, Permutation, Recency, Unique, Fresh, Kept, Pinned;
      if bufs[b].blockno !in pending {
        PinStep(bufs, pins, users, pending, disk, store, b);
        pending := pending + {bufs[b].blockno};
        bufs := bufs[b := bufs[b].(refcnt := bufs[b].refcnt + 1)];
        pins := pins[b := 1];
      }
    }

    /** bunpin of an installed block: after its bwrite. */
    method Bunpin(b: nat)
      requires Valid() && b < N && bufs[b].Holds(bufs[b].blockno) && bufs[b].blockno in pending && Clean(bufs[b], disk)
      modifies `bufs, `pins, `pending
      ensures Valid() && pending == old(pending) - {bufs[b].blockno}
      ensures old(bufs)[b].refcnt > 0 && bufs == old(bufs)[b := old(bufs)[b].(refcnt := old(bufs)[b].refcnt - 1)]
    {
      hide Linked, Permutation, Recency, Unique, Fresh, Kept, Pinned;
      UnpinStep(bufs, pins, users, pending, disk, store, b);
      pending := pending - {bufs[b].blockno};
      bufs := bufs[b := bufs[b].(refcnt := bufs[b].refcnt - 1)];
      pins := pins[b := 0];
    }

    // -------------------------------------------------------------- what the log is built on

    /** No process is in the middle of using a buffer. */
    ghost predicate Quiet()
      reads this
    {
      Valid() && forall b :: 0 <= b < N ==> !bufs[b].locked
    }

    /** A buffer can be had for block `k`. */
    ghost predicate Room(k: nat)
      requires Valid()
      reads this
    {
      exists b :: 0 <= b < N && (bufs[b].Caches(ROOTDEV, k) || bufs[b].refcnt == 0)
    }

    lemma PendingHasRoom(k: nat)
      requires Valid() && k in pending
      ensures Room(k)
    {
      PendingPinned(bufs, pins, pending, k);
    }

    /** The disk, and the contents of the blocks waiting in the log. */
    ghost function Now(): V.View<Block>
      requires Valid()
      reads this
    {
      V.View(disk, map k | k in pending && k < |store| :: store[k])
    }

    /** Process alone with buffer `b`, which holds block `k`. */
    ghost predicate Holding(b: nat, k: nat)
      reads this
    {
      && Valid() && b < N && bufs[b].locked && bufs[b].Holds(k) && k < |disk| && users[b] > 0
      && forall c :: 0 <= c < N && c != b ==> !bufs[c].locked
    }

    /** bread from a quiet cache. */
    method Hold(k: nat) returns (r: Found)
      requires Quiet() && k < |disk|
      modifies `bufs, `users
      ensures r.Panic? ==> Quiet()
      ensures r.Buffer? <==> old(Room(k))
      ensures r.Buffer? ==> Holding(r.b, k) && bufs[r.b].data == store[k] == V.Seen(Now(), k)
      ensures r.Buffer? && k !in pending ==> bufs[r.b].data == disk[k]
      ensures users == if r.Buffer? then old(users)[r.b := old(users)[r.b] + 1] else old(users)
    {
      hide Transparent, Listed;
      DirtyIsHeldOrLogged(bufs, pins, users, pending, disk, store, k);
      r := Bread(ROOTDEV, k);
    }

    /** brelse: what the buffer holds is on the disk or in the log. */
    method Release(b: nat, k: nat)
      requires Holding(b, k) && (k in pending || bufs[b].data == disk[k])
      modifies `bufs, `users, `next, `prev, `order, `stamp, `clock
      ensures Quiet() && users == old(users)[b := old(users)[b] - 1]
    {
      hide Transparent, Listed;
      var _ := ReleaseSleep(b);
      Drop(b);
    }

    /** bread and brelse. Each of these four gives up, changing nothing, when no buffer is free. */
    method ReadBlock(k: nat) returns (found: bool, data: Block)
      requires Quiet() && k < |disk|
      modifies `bufs, `users, `next, `prev, `order, `stamp, `clock
      ensures Quiet() && Now() == old(Now())
      ensures found ==> data == V.Seen(Now(), k)
      ensures (found <==> old(Room(k))) && users == old(users)
    {
      hide Transparent, Listed, Room;
      data := disk[k];
      var r := Hold(k);
      found := r.Buffer?;
      if found {
        data := bufs[r.b].data;
        Release(r.b, k);
      }
    }

    /** A block that is not logged is changed and written. */
    method WriteBlock(k: nat, data: Block) returns (found: bool)
      requires Quiet() && k < |disk| && k !in pending
      modifies `bufs, `users, `next, `prev, `order, `stamp, `clock, `disk, `store
      ensures Quiet() && Now() == if found then V.Written(old(Now()), k, data) else old(Now())
      ensures (found <==> old(Room(k))) && users == old(users)
    {
      hide Transparent, Listed, Room;
      var r := Hold(k);
      found := r.Buffer?;
      if found {
        Store(r.b, data);
        var _ := Bwrite(r.b);
        Release(r.b, k);
        assert Now().pinned == old(Now()).pinned;
      }
    }

    /** A block is changed and logged. */
    method LogBlock(k: nat, data: Block) returns (found: bool)
      requires Quiet() && k < |disk|
      modifies `bufs, `users, `next, `prev, `order, `stamp, `clock, `store, `pins, `pending
      ensures Quiet() && Now() == if found then V.Logged(old(Now()), k, data) else old(Now())
      ensures (found <==> old(Room(k))) && users == old(users)
    {
      hide Transparent, Listed, Room;
      var r := Hold(k);
      found := r.Buffer?;
      if found {
        Store(r.b, data);
        LogWrite(r.b);
        Release(r.b, k);
        assert Now().pinned == old(Now()).pinned[k := data];
      }
    }

    /** A logged block is installed: written to its place and let go. */
    method InstallBlock(k: nat, data: Block) returns (found: bool)
      requires Quiet() && k < |disk| && k in pending
      modifies `bufs, `users, `next, `prev, `order, `stamp, `clock, `disk, `store, `pins, `pending
      ensures Quiet() && Now() == if found then V.Installed(old(Now()), k, data) else old(Now())
      ensures (found <==> old(Room(k))) && users == old(users) && found
    {
      hide Transparent, Listed, Room;
      PendingHasRoom(k);
      var r := Hold(k);
      found := r.Buffer?;
      if found {
        Settle(r.b, k, data);
        Release(r.b, k);
      }
    }

    /** install_trans between bread and brelse. */
    method Settle(b: nat, k: nat, data: Block)
      requires Holding(b, k) && k in pending
      modifies `bufs, `disk, `store, `pins, `pending
      ensures Holding(b, k) && bufs[b].data == disk[k] && Now() == V.Installed(old(Now()), k, data)
    {
      hide Transparent, Listed;
      Store(b, data);
      var _ := Bwrite(b);
      Bunpin(b);
      assert Now().pinned == old(Now()).pinned - {k};
    }
  }
}
