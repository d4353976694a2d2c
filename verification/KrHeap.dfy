/** The user-space allocator of umalloc.c: a circular, address-ordered free list threaded through the
    headers of free blocks. Addresses and sizes are in units of one header; `sbrk` is a parameter. */
module KrHeap {
  import opened Seqs

  datatype Header = Header(ptr: nat, size: nat)

  datatype Brk = NoMemory | Break(at: nat)

  type Memory = map<nat, Header>

  /** The least number of units asked of sbrk. */
  const MIN_UNITS: nat := 4096

  function At(list: seq<nat>, i: nat): nat
    requires i <= |list| && list != []
  {
    if i == |list| then list[0] else list[i]
  }

  /** Every unit got from sbrk belongs to exactly one block. */
  ghost predicate Partition(blocks: map<nat, nat>, owner: map<nat, nat>) {
    && (forall b :: b in blocks ==> Fills(blocks, owner, b))
    && (forall u :: u in owner ==> Within(blocks, owner, u))
  }

  ghost predicate Fills(blocks: map<nat, nat>, owner: map<nat, nat>, b: nat)
    requires b in blocks
  {
    blocks[b] >= 1 && forall u :: b <= u < b + blocks[b] ==> u in owner && owner[u] == b
  }

  ghost predicate Within(blocks: map<nat, nat>, owner: map<nat, nat>, u: nat)
    requires u in owner
  {
    owner[u] in blocks && owner[u] <= u < owner[u] + blocks[owner[u]]
  }

  lemma Apart(blocks: map<nat, nat>, owner: map<nat, nat>, a: nat, b: nat)
    requires Partition(blocks, owner) && a in blocks && b in blocks && a < b
    ensures a + blocks[a] <= b
  {
    assert Fills(blocks, owner, b) && Fills(blocks, owner, a);
    assert owner[b] == b;
  }

  function Merged(blocks: map<nat, nat>, a: nat, b: nat): map<nat, nat>
    requires a in blocks && b in blocks
  {
    (blocks - {b})[a := blocks[a] + blocks[b]]
  }

  /** The units of block `b` from `c` on go to block `a`. */
  function Moved(owner: map<nat, nat>, b: nat, c: nat, a: nat): map<nat, nat> {
    map u | u in owner :: if owner[u] == b && u >= c then a else owner[u]
  }

  lemma Merge(blocks: map<nat, nat>, owner: map<nat, nat>, a: nat, b: nat)
    requires Partition(blocks, owner) && a in blocks && b in blocks && a + blocks[a] == b
    ensures Partition(Merged(blocks, a, b), Moved(owner, b, b, a))
  {
    hide Fills, Within;
    var blocks', owner' := Merged(blocks, a, b), Moved(owner, b, b, a);
    forall d | d in blocks' ensures Fills(blocks', owner', d) {
      MergeFills(blocks, owner, a, b, d);
    }
    forall u | u in owner' ensures Within(blocks', owner', u) {
      MergeWithin(blocks, owner, a, b, u);
    }
  }

  lemma MergeFills(blocks: map<nat, nat>, owner: map<nat, nat>, a: nat, b: nat, d: nat)
    requires Partition(blocks, owner) && a in blocks && b in blocks && a + blocks[a] == b && d in Merged(blocks, a, b)
    ensures Fills(Merged(blocks, a, b), Moved(owner, b, b, a), d)
  {
    assert Fills(blocks, owner, a) && Fills(blocks, owner, b) && Fills(blocks, owner, d);
  }

  lemma MergeWithin(blocks: map<nat, nat>, owner: map<nat, nat>, a: nat, b: nat, u: nat)
    requires Partition(blocks, owner) && a in blocks && b in blocks && a + blocks[a] == b && u in owner
    ensures Within(Merged(blocks, a, b), Moved(owner, b, b, a), u)
  {
    assert Fills(blocks, owner, a) && Within(blocks, owner, u);
  }

  function Cut(blocks: map<nat, nat>, a: nat, n: nat): map<nat, nat>
    requires a in blocks && n <= blocks[a]
  {
    blocks[a := blocks[a] - n][a + blocks[a] - n := n]
  }

  lemma Split(blocks: map<nat, nat>, owner: map<nat, nat>, a: nat, n: nat)
    requires Partition(blocks, owner) && a in blocks && 0 < n < blocks[a]
    ensures var c := a + blocks[a] - n;
            a < c && c !in blocks && Partition(Cut(blocks, a, n), Moved(owner, a, c, c))
  {
    hide Fills, Within;
    var c := a + blocks[a] - n;
    assert 1 <= n;
    Inside(blocks, owner, a, c);
    var blocks', owner' := Cut(blocks, a, n), Moved(owner, a, c, c);
    forall d | d in blocks' ensures Fills(blocks', owner', d) {
      SplitFills(blocks, owner, a, n, d);
    }
    forall u | u in owner' ensures Within(blocks', owner', u) {
      SplitWithin(blocks, owner, a, n, u);
    }
  }

  lemma Inside(blocks: map<nat, nat>, owner: map<nat, nat>, a: nat, c: nat)
    requires Partition(blocks, owner) && a in blocks && a < c < a + blocks[a]
    ensures c in owner && owner[c] == a && c !in blocks
  {
    assert Fills(blocks, owner, a);
    assert c in blocks ==> Fills(blocks, owner, c);
  }

  lemma SplitWithin(blocks: map<nat, nat>, owner: map<nat, nat>, a: nat, n: nat, u: nat)
    requires Partition(blocks, owner) && a in blocks && 0 < n < blocks[a] && u in owner
    ensures var c := a + blocks[a] - n;
            Within(Cut(blocks, a, n), Moved(owner, a, c, c), u)
  {
    assert Within(blocks, owner, u);
    Inside(blocks, owner, a, a + blocks[a] - n);
  }

  lemma SplitFills(blocks: map<nat, nat>, owner: map<nat, nat>, a: nat, n: nat, d: nat)
    requires Partition(blocks, owner) && a in blocks && 0 < n < blocks[a] && d in Cut(blocks, a, n)
    ensures var c := a + blocks[a] - n;
            Fills(Cut(blocks, a, n), Moved(owner, a, c, c), d)
  {
    assert Fills(blocks, owner, a);
    if d != a + blocks[a] - n {
      assert Fills(blocks, owner, d);
    }
  }

  function Cells(at: nat, n: nat): (s: set<nat>)
    ensures |s| == n && forall u :: u in s <==> at <= u < at + n
  {
    if n == 0 then {} else Cells(at, n - 1) + {at + n - 1}
  }

  function Claimed(owner: map<nat, nat>, at: nat, n: nat): map<nat, nat> {
    owner + map u | u in Cells(at, n) :: at
  }

  lemma AboveAll(blocks: map<nat, nat>, owner: map<nat, nat>, at: nat)
    requires Partition(blocks, owner) && forall u :: u in owner ==> u < at
    ensures at !in blocks
  {
    assert at in blocks ==> Fills(blocks, owner, at);
    assert at in blocks ==> at in owner;
  }

  lemma Grow(blocks: map<nat, nat>, owner: map<nat, nat>, at: nat, n: nat)
    requires Partition(blocks, owner) && n > 0 && forall u :: u in owner ==> u < at
    ensures at !in blocks && Partition(blocks[at := n], Claimed(owner, at, n))
  {
    var blocks', owner' := blocks[at := n], Claimed(owner, at, n);
    AboveAll(blocks, owner, at);
    forall d | d in blocks' ensures Fills(blocks', owner', d) {
      if d != at {
        assert Fills(blocks, owner, d);
      }
    }
    forall u | u in owner' ensures Within(blocks', owner', u) {
      if u in owner {
        assert Within(blocks, owner, u);
      }
    }
  }

  /** The free list: ascending from `base`, linked into one ring, and free of overlaps. */
  ghost predicate Ring(base: nat, mem: Memory, list: seq<nat>) {
    && list != [] && list[0] == base && base in mem && mem[base].size == 0
    && (forall i :: 0 <= i < |list| ==> Linked(mem, list, i))
    && (forall i, j :: 0 <= i < j < |list| ==> Below(mem, list[i], list[j]))
  }

  ghost predicate Linked(mem: Memory, list: seq<nat>, i: nat)
    requires i < |list|
  {
    list[i] in mem && mem[list[i]].ptr == At(list, i + 1)
  }

  ghost predicate Below(mem: Memory, a: nat, b: nat) {
    a < b && a in mem && a + mem[a].size <= b
  }

  /** No two neighbours in the list touch. */
  ghost predicate Gap(mem: Memory, list: seq<nat>, i: nat) {
    i + 1 < |list| && list[i] in mem ==> list[i] + mem[list[i]].size < list[i + 1]
  }

  ghost predicate Coalesced(mem: Memory, list: seq<nat>) {
    forall i: nat :: i < |list| ==> Gap(mem, list, i)
  }

  /** The list holds exactly the blocks that are not live, and headers record the sizes. */
  ghost predicate Sorts(base: nat, mem: Memory, list: seq<nat>, blocks: map<nat, nat>, live: set<nat>) {
    && live <= blocks.Keys && base !in blocks
    && (forall i :: 1 <= i < |list| ==> list[i] in blocks && list[i] !in live)
    && (forall b :: b in blocks ==> b in mem && mem[b].size == blocks[b] && (b in live || b in list))
  }

  /** The place in the list after which an address belongs. */
  ghost function Slot(list: seq<nat>, bp: nat, k: nat): (j: nat)
    requires k < |list| && list[k] < bp && bp !in list
    ensures k <= j < |list| && list[j] < bp && (j + 1 < |list| ==> bp < list[j + 1])
    decreases |list| - k
  {
    if k + 1 < |list| && list[k + 1] < bp then Slot(list, bp, k + 1) else k
  }

  function Link(mem: Memory, p: nat, bp: nat): Memory
    requires p in mem && bp in mem
  {
    mem[bp := Header(mem[p].ptr, mem[bp].size)][p := Header(bp, mem[p].size)]
  }

  function Insert(list: seq<nat>, j: nat, bp: nat): seq<nat>
    requires j < |list|
  {
    list[..j + 1] + [bp] + list[j + 1..]
  }

  lemma InsertAt(list: seq<nat>, j: nat, bp: nat, i: nat)
    requires j < |list| && i <= |list|
    ensures Insert(list, j, bp)[i] == if i <= j then list[i] else if i == j + 1 then bp else list[i - 1]
  {
  }

  /** Linking a block in between its neighbours. */
  lemma InsertRing(base: nat, mem: Memory, list: seq<nat>, j: nat, bp: nat)
    requires Ring(base, mem, list) && j < |list| && bp in mem && Below(mem, list[j], bp)
    requires j + 1 < |list| ==> Below(mem, bp, list[j + 1])
    ensures Ring(base, Link(mem, list[j], bp), Insert(list, j, bp))
  {
    var mem', l := Link(mem, list[j], bp), Insert(list, j, bp);
    assert Linked(mem, list, j);
    forall i | 0 <= i < |list| ensures Below(mem, list[i], bp) == (i <= j) && (i > j ==> Below(mem, bp, list[i])) {
      if i < j {
        assert Below(mem, list[i], list[j]);
      } else if i > j + 1 {
        assert Below(mem, list[j + 1], list[i]);
      }
    }
    forall i | 0 <= i < |l| ensures Linked(mem', l, i) {
      InsertAt(list, j, bp, i);
      if i + 1 < |l| { InsertAt(list, j, bp, i + 1); }
      InsertAt(list, j, bp, 0);
      if i < j {
        assert Linked(mem, list, i) && Below(mem, list[i], list[j]);
      } else if i > j + 1 {
        assert Linked(mem, list, i - 1) && Below(mem, list[j], list[i - 1]);
      }
    }
    forall i, k | 0 <= i < k < |l| ensures Below(mem', l[i], l[k]) {
      InsertAt(list, j, bp, i);
      InsertAt(list, j, bp, k);
      assert mem'[list[j]].size == mem[list[j]].size;
      if i != j + 1 && k != j + 1 {
        assert Below(mem, list[if i <= j then i else i - 1], list[if k <= j then k else k - 1]);
      }
    }
  }

  lemma InsertGaps(base: nat, mem: Memory, list: seq<nat>, j: nat, bp: nat, i: nat)
    requires Ring(base, mem, list) && Coalesced(mem, list) && j < |list| && bp in mem && bp !in list
    requires i <= |list| && i != j && i != j + 1 && list[j] in mem
    ensures Gap(Link(mem, list[j], bp), Insert(list, j, bp), i)
  {
    InsertAt(list, j, bp, i);
    if i + 1 <= |list| { InsertAt(list, j, bp, i + 1); }
    assert Linked(mem, list, j);
    assert Gap(mem, list, if i < j then i else i - 1);
  }

  function Join(mem: Memory, a: nat): Memory
    requires a in mem && mem[a].ptr in mem
  {
    var b := mem[a].ptr;
    mem[a := Header(mem[b].ptr, mem[a].size + mem[b].size)]
  }

  /** Absorbing the next block in the list into the block it touches. */
  lemma JoinRing(base: nat, mem: Memory, list: seq<nat>, i: nat)
    requires Ring(base, mem, list) && 1 <= i && i + 1 < |list|
    requires list[i] in mem && list[i] + mem[list[i]].size == list[i + 1]
    ensures list[i] in mem && mem[list[i]].ptr == list[i + 1] && list[i + 1] in mem
    ensures Ring(base, Join(mem, list[i]), Without(list, i + 1))
  {
    assert Linked(mem, list, i) && Linked(mem, list, i + 1);
    hide Without;
    var mem', l := Join(mem, list[i]), Without(list, i + 1);
    assert Below(mem, list[0], list[i]);
    forall k | 0 <= k < |l| ensures Linked(mem', l, k) {
      WithoutAt(list, i + 1, k);
      if k + 1 < |l| { WithoutAt(list, i + 1, k + 1); }
      WithoutAt(list, i + 1, 0);
      var m := if k <= i then k else k + 1;
      assert Linked(mem, list, m);
      if m < i { assert Below(mem, list[m], list[i]); }
      if m > i { assert Below(mem, list[i], list[m]); }
    }
    forall k, m | 0 <= k < m < |l| ensures Below(mem', l[k], l[m]) {
      WithoutAt(list, i + 1, k);
      WithoutAt(list, i + 1, m);
      var k', m' := if k <= i then k else k + 1, if m <= i then m else m + 1;
      assert Below(mem, list[k'], list[m']);
      if k < i { assert Below(mem, list[k], list[i]); }
      if k > i { assert Below(mem, list[i], list[k']); }
      if k == i { assert Below(mem, list[i + 1], list[m']); }
    }
  }

  lemma JoinGaps(base: nat, mem: Memory, list: seq<nat>, i: nat, k: nat)
    requires Ring(base, mem, list) && 1 <= i && i + 1 < |list| && k < |list| - 1
    requires list[i] in mem && list[i] + mem[list[i]].size == list[i + 1] && mem[list[i]].ptr == list[i + 1]
    requires list[i + 1] in mem
    requires Gap(mem, list, if k < i then k else k + 1)
    ensures Gap(Join(mem, list[i]), Without(list, i + 1), k)
  {
    WithoutAt(list, i + 1, k);
    if k + 1 < |list| - 1 { WithoutAt(list, i + 1, k + 1); }
    if k < i { assert Below(mem, list[k], list[i]); }
    if k > i { assert Below(mem, list[i], list[k + 1]); }
  }

  function Unlink(mem: Memory, prev: nat, p: nat): Memory
    requires prev in mem && p in mem
  {
    mem[prev := Header(mem[p].ptr, mem[prev].size)]
  }

  /** Taking a whole block out of the list. */
  lemma UnlinkRing(base: nat, mem: Memory, list: seq<nat>, i: nat)
    requires Ring(base, mem, list) && Coalesced(mem, list) && 1 <= i < |list|
    ensures list[i - 1] in mem && list[i] in mem
    ensures Ring(base, Unlink(mem, list[i - 1], list[i]), Without(list, i))
    ensures Coalesced(Unlink(mem, list[i - 1], list[i]), Without(list, i))
  {
    assert Linked(mem, list, i) && Linked(mem, list, i - 1);
    var mem', l := Unlink(mem, list[i - 1], list[i]), Without(list, i);
    assert |l| == |list| - 1;
    hide Without;
    WithoutAt(list, i, 0);
    forall k | 0 <= k < |l| ensures Linked(mem', l, k) && Gap(mem', l, k) {
      WithoutAt(list, i, k);
      if k + 1 < |l| { WithoutAt(list, i, k + 1); }
      var m := if k < i then k else k + 1;
      assert Linked(mem, list, m) && Gap(mem, list, m);
      if m < i - 1 { assert Below(mem, list[m], list[i - 1]); }
      if m > i - 1 { assert Below(mem, list[i - 1], list[m]); }
      if m == i - 1 && i + 1 < |list| { assert Below(mem, list[i], list[i + 1]); }
    }
    forall k, m | 0 <= k < m < |l| ensures Below(mem', l[k], l[m]) {
      WithoutAt(list, i, k);
      WithoutAt(list, i, m);
      assert Below(mem, list[if k < i then k else k + 1], list[if m < i then m else m + 1]);
    }
  }

  /** Shrinking a free block, and marking the header behind it. */
  function Carve(mem: Memory, p: nat, n: nat): Memory
    requires p in mem && n <= mem[p].size && p + mem[p].size - n in mem
  {
    var c := p + mem[p].size - n;
    var shrunk := mem[p := Header(mem[p].ptr, mem[p].size - n)];
    shrunk[c := Header(shrunk[c].ptr, n)]
  }

  lemma CarveRing(base: nat, mem: Memory, list: seq<nat>, i: nat, n: nat)
    requires Ring(base, mem, list) && Coalesced(mem, list) && 1 <= i < |list| && list[i] in mem
    requires 0 < n < mem[list[i]].size
    requires list[i] + mem[list[i]].size - n in mem
    ensures Ring(base, Carve(mem, list[i], n), list) && Coalesced(Carve(mem, list[i], n), list)
    ensures list[i] + mem[list[i]].size - n !in list
  {
    var mem', c := Carve(mem, list[i], n), list[i] + mem[list[i]].size - n;
    forall k | 0 <= k < |list| ensures list[k] != c {
      if k < i { assert Below(mem, list[k], list[i]); }
      if k > i { assert Below(mem, list[i], list[k]); }
    }
    forall k | 0 <= k < |list| ensures Linked(mem', list, k) && Gap(mem', list, k) {
      assert Linked(mem, list, k) && Gap(mem, list, k);
      if k < i { assert Below(mem, list[k], list[i]); }
      if k > i { assert Below(mem, list[i], list[k]); }
    }
    forall k, m | 0 <= k < m < |list| ensures Below(mem', list[k], list[m]) {
      assert Below(mem, list[k], list[m]);
    }
  }

  /** The heap's invariant, without the promise that neighbours do not touch. */
  ghost predicate Loose(base: nat, top: nat, mem: Memory, list: seq<nat>, blocks: map<nat, nat>, owner: map<nat, nat>,
                        live: set<nat>) {
    && Ring(base, mem, list) && Sorts(base, mem, list, blocks, live) && Partition(blocks, owner)
    && (forall u :: u in owner ==> base < u < top && u in mem)
  }

  /** Units of one block stay together. */
  ghost predicate Coarser(owner: map<nat, nat>, owner': map<nat, nat>) {
    && owner.Keys == owner'.Keys
    && forall u, v :: u in owner && v in owner && owner[u] == owner[v] ==> owner'[u] == owner'[v]
  }

  /** Nothing that a live block owns has been written or moved. */
  ghost predicate Untouched(mem: Memory, owner: map<nat, nat>, blocks: map<nat, nat>, mem': Memory,
                            owner': map<nat, nat>, blocks': map<nat, nat>, live: set<nat>) {
    && (forall b :: b in live ==> b in blocks && b in blocks' && blocks'[b] == blocks[b])
    && owner.Keys <= owner'.Keys
    && (forall u :: u in owner ==> Kept(mem, owner, mem', owner', live, u))
  }

  ghost predicate Kept(mem: Memory, owner: map<nat, nat>, mem': Memory, owner': map<nat, nat>, live: set<nat>, u: nat)
    requires u in owner && u in owner'
  {
    && (owner[u] in live <==> owner'[u] in live)
    && (owner[u] in live ==> owner'[u] == owner[u] && u in mem && u in mem' && mem'[u] == mem[u])
  }

  lemma OwnsItself(blocks: map<nat, nat>, owner: map<nat, nat>, b: nat)
    requires Partition(blocks, owner) && b in blocks
    ensures b in owner && owner[b] == b && blocks[b] >= 1
  {
    assert Fills(blocks, owner, b);
  }

  lemma InsertSorts(base: nat, mem: Memory, list: seq<nat>, blocks: map<nat, nat>, live: set<nat>, j: nat, bp: nat)
    requires Sorts(base, mem, list, blocks, live) && bp in live && j < |list| && list[j] in mem
    ensures bp in mem && Sorts(base, Link(mem, list[j], bp), Insert(list, j, bp), blocks, live - {bp})
  {
    var l := Insert(list, j, bp);
    forall i | 1 <= i < |l| ensures l[i] in blocks && l[i] !in live - {bp} { InsertAt(list, j, bp, i); }
    forall b | b in blocks ensures b in live - {bp} || b in l {
      if b == bp {
        InsertAt(list, j, bp, j + 1);
      } else if b in list {
        var i :| 0 <= i < |list| && list[i] == b;
        InsertAt(list, j, bp, if i <= j then i else i + 1);
      }
    }
  }

  lemma InsertLoose(base: nat, top: nat, mem: Memory, list: seq<nat>, blocks: map<nat, nat>, owner: map<nat, nat>,
                    live: set<nat>, j: nat, bp: nat)
    requires Loose(base, top, mem, list, blocks, owner, live) && bp in live && j < |list|
    requires list[j] < bp && (j + 1 < |list| ==> bp < list[j + 1])
    ensures list[j] in mem && bp in mem
    ensures Loose(base, top, Link(mem, list[j], bp), Insert(list, j, bp), blocks, owner, live - {bp})
    ensures Untouched(mem, owner, blocks, Link(mem, list[j], bp), owner, blocks, live - {bp})
  {
    hide Partition, Fills, Within;
    assert Linked(mem, list, j);
    if j > 0 { Apart(blocks, owner, list[j], bp); OwnsItself(blocks, owner, list[j]); }
    if j + 1 < |list| { Apart(blocks, owner, bp, list[j + 1]); }
    OwnsItself(blocks, owner, bp);
    InsertRing(base, mem, list, j, bp);
    InsertSorts(base, mem, list, blocks, live, j, bp);
    hide Ring, Insert;
  }

  lemma JoinSorts(base: nat, mem: Memory, list: seq<nat>, blocks: map<nat, nat>, live: set<nat>, i: nat)
    requires Sorts(base, mem, list, blocks, live) && 1 <= i && i + 1 < |list| && list[i] < list[i + 1]
    requires list[i] in mem && mem[list[i]].ptr == list[i + 1] && list[i + 1] in mem
    requires forall k :: 0 <= k < |list| && k != i + 1 ==> list[k] != list[i + 1]
    ensures Sorts(base, Join(mem, list[i]), Without(list, i + 1), Merged(blocks, list[i], list[i + 1]), live)
  {
    var a, c, l := list[i], list[i + 1], Without(list, i + 1);
    assert |l| == |list| - 1;
    var blocks' := Merged(blocks, a, c);
    forall k | 1 <= k < |l| ensures l[k] in blocks' && l[k] !in live { WithoutAt(list, i + 1, k); }
    forall b | b in blocks' ensures b in live || b in l {
      if b in list {
        var k :| 0 <= k < |list| && list[k] == b;
        WithoutAt(list, i + 1, if k <= i then k else k - 1);
      }
    }
  }

  lemma JoinUntouched(mem: Memory, blocks: map<nat, nat>, owner: map<nat, nat>, live: set<nat>, a: nat, b: nat)
    requires Partition(blocks, owner) && a in blocks && b in blocks && a != b && a !in live && b !in live
    requires live <= blocks.Keys
    requires a in mem && mem[a].ptr == b && b in mem && forall u :: u in owner ==> u in mem
    ensures Untouched(mem, owner, blocks, Join(mem, a), Moved(owner, b, b, a), Merged(blocks, a, b), live)
  {
    OwnsItself(blocks, owner, a);
    hide Partition;
  }

  lemma MergeCoarser(blocks: map<nat, nat>, owner: map<nat, nat>, a: nat, b: nat)
    requires Partition(blocks, owner)
    ensures Coarser(owner, Moved(owner, b, b, a))
  {
    forall u | u in owner && owner[u] == b ensures u >= b { assert Within(blocks, owner, u); }
  }

  lemma JoinLoose(base: nat, top: nat, mem: Memory, list: seq<nat>, blocks: map<nat, nat>, owner: map<nat, nat>,
                  live: set<nat>, i: nat)
    requires Loose(base, top, mem, list, blocks, owner, live) && 1 <= i && i + 1 < |list|
    requires list[i] in mem && list[i] + mem[list[i]].size == list[i + 1]
    ensures mem[list[i]].ptr == list[i + 1] && list[i + 1] in mem && list[i] in blocks && list[i + 1] in blocks
    ensures var a, b := list[i], list[i + 1];
            && Loose(base, top, Join(mem, a), Without(list, i + 1), Merged(blocks, a, b), Moved(owner, b, b, a), live)
            && Untouched(mem, owner, blocks, Join(mem, a), Moved(owner, b, b, a), Merged(blocks, a, b), live)
            && Coarser(owner, Moved(owner, b, b, a))
  {
    var a, b := list[i], list[i + 1];
    assert Below(mem, a, b);
    forall k | 0 <= k < |list| && k != i + 1 ensures list[k] != b {
      if k < i + 1 { assert Below(mem, list[k], b); } else { assert Below(mem, b, list[k]); }
    }
    JoinRing(base, mem, list, i);
    hide Ring, Partition, Untouched, Coarser, Without, Merged, Moved;
    MergeCoarser(blocks, owner, a, b);
    Merge(blocks, owner, a, b);
    JoinSorts(base, mem, list, blocks, live, i);
    JoinUntouched(mem, blocks, owner, live, a, b);
  }

  lemma UntouchedTransitive(m0: Memory, o0: map<nat, nat>, b0: map<nat, nat>, m1: Memory, o1: map<nat, nat>,
                            b1: map<nat, nat>, m2: Memory, o2: map<nat, nat>, b2: map<nat, nat>, live: set<nat>)
    requires Untouched(m0, o0, b0, m1, o1, b1, live) && Untouched(m1, o1, b1, m2, o2, b2, live)
    ensures Untouched(m0, o0, b0, m2, o2, b2, live)
  {
    forall u | u in o0 ensures u in o2 && Kept(m0, o0, m2, o2, live, u) {
      assert u in o1.Keys && u in o2.Keys;
      assert Kept(m0, o0, m1, o1, live, u) && Kept(m1, o1, m2, o2, live, u);
    }
  }

  lemma CoarserTransitive(o0: map<nat, nat>, o1: map<nat, nat>, o2: map<nat, nat>)
    requires Coarser(o0, o1) && Coarser(o1, o2)
    ensures Coarser(o0, o2)
  {
    assert forall u :: u in o0.Keys ==> u in o1.Keys && u in o2.Keys;
  }

  predicate Touches(mem: Memory, list: seq<nat>, i: nat) {
    1 <= i && i + 1 < |list| && list[i] in mem && list[i] + mem[list[i]].size == list[i + 1]
  }

  /** Joining place `i` with its neighbour if they touch leaves at most the gap `e` before it in doubt. */
  lemma JoinIfTouching(base: nat, top: nat, mem: Memory, list: seq<nat>, blocks: map<nat, nat>, owner: map<nat, nat>,
                       live: set<nat>, i: nat, e: nat)
    returns (mem': Memory, list': seq<nat>, blocks': map<nat, nat>, owner': map<nat, nat>)
    requires Loose(base, top, mem, list, blocks, owner, live) && e <= i < |list|
    requires forall k: nat :: k < |list| && k != i && k != e ==> Gap(mem, list, k)
    ensures Touches(mem, list, i) ==> mem[list[i]].ptr in mem && mem' == Join(mem, list[i])
    ensures !Touches(mem, list, i) ==> mem' == mem
    ensures Loose(base, top, mem', list', blocks', owner', live)
    ensures Untouched(mem, owner, blocks, mem', owner', blocks', live) && Coarser(owner, owner')
    ensures |list'| > i && (forall k :: 0 <= k <= i ==> list'[k] == list[k])
    ensures forall k: nat :: k < |list'| && (k != e || e == i) ==> Gap(mem', list', k)
  {
    hide Partition;
    mem', list', blocks', owner' := mem, list, blocks, owner;
    if Touches(mem, list, i) {
      JoinLoose(base, top, mem, list, blocks, owner, live, i);
      mem', list' := Join(mem, list[i]), Without(list, i + 1);
      blocks', owner' := Merged(blocks, list[i], list[i + 1]), Moved(owner, list[i + 1], list[i + 1], list[i]);
      forall k | 0 <= k <= i ensures list'[k] == list[k] { WithoutAt(list, i + 1, k); }
      forall k: nat | k < |list'| && (k != e || e == i) ensures Gap(mem', list', k) {
        assert Gap(mem, list, if k < i then k else k + 1);
        JoinGaps(base, mem, list, i, k);
      }
    } else {
      hide Merged, Moved, Join, Without;
      LooseGap(base, mem, list, i);
    }
  }

  lemma LooseGap(base: nat, mem: Memory, list: seq<nat>, i: nat)
    requires Ring(base, mem, list) && i < |list| && !Touches(mem, list, i)
    ensures Gap(mem, list, i)
  {
    if i + 1 < |list| {
      assert Below(mem, list[i], list[i + 1]);
    }
  }

  /** What `free` writes, given the block's predecessor in the list. */
  function Freed(mem: Memory, p: nat, bp: nat): Memory
    requires p in mem && bp in mem && mem[p].ptr in mem
  {
    var q := mem[p].ptr;
    var m := if bp + mem[bp].size == q then mem[bp := Header(mem[q].ptr, mem[bp].size + mem[q].size)]
             else mem[bp := Header(q, mem[bp].size)];
    if p + m[p].size == bp then m[p := Header(m[bp].ptr, m[p].size + m[bp].size)]
    else m[p := Header(bp, m[p].size)]
  }

  /** Inserting and then joining on either side is what `free` does in one go. */
  lemma FreedIsInsertAndJoin(base: nat, mem: Memory, list: seq<nat>, j: nat, bp: nat, m2: Memory, m3: Memory)
    requires Ring(base, mem, list) && j < |list| && bp in mem && bp !in list && base < bp && mem[bp].size > 0
    requires list[j] in mem && list[j] < bp && (j + 1 < |list| ==> bp < list[j + 1])
    requires var m1, l1 := Link(mem, list[j], bp), Insert(list, j, bp);
             && (Touches(m1, l1, j + 1) ==> m1[bp].ptr in m1 && m2 == Join(m1, bp))
             && (!Touches(m1, l1, j + 1) ==> m2 == m1)
    requires list[j] in m2
    requires if 1 <= j && list[j] + m2[list[j]].size == bp then m2[list[j]].ptr in m2 && m3 == Join(m2, list[j])
             else m3 == m2
    ensures mem[list[j]].ptr in mem && m3 == Freed(mem, list[j], bp)
  {
    var p := list[j];
    var q := mem[p].ptr;
    assert Linked(mem, list, j) && Linked(mem, list, 0);
    if j + 1 < |list| { assert Linked(mem, list, j + 1); }
    InsertAt(list, j, bp, j + 1);
    if j + 1 < |list| { InsertAt(list, j, bp, j + 2); }
    assert Touches(Link(mem, p, bp), Insert(list, j, bp), j + 1) <==> bp + mem[bp].size == q;
    hide Insert, Ring;
  }

  lemma FreeFacts(base: nat, top: nat, mem: Memory, list: seq<nat>, blocks: map<nat, nat>, owner: map<nat, nat>,
                  live: set<nat>, bp: nat)
    requires Loose(base, top, mem, list, blocks, owner, live) && bp in live
    ensures bp in mem && bp !in list && base < bp && mem[bp].size > 0
    ensures list != [] && list[0] == base
  {
    OwnsItself(blocks, owner, bp);
  }

  lemma FreePlaced(base: nat, mem: Memory, list: seq<nat>, j: nat)
    requires Ring(base, mem, list) && j < |list|
    ensures list[j] in mem && mem[list[j]].ptr == At(list, j + 1) && mem[list[j]].ptr in mem
  {
    assert Linked(mem, list, j) && Linked(mem, list, 0);
    assert j + 1 < |list| ==> Linked(mem, list, j + 1);
  }

  lemma LoosePlaced(base: nat, top: nat, mem: Memory, list: seq<nat>, blocks: map<nat, nat>, owner: map<nat, nat>,
                    live: set<nat>, j: nat)
    requires Loose(base, top, mem, list, blocks, owner, live) && j < |list|
    ensures Ring(base, mem, list) && list[j] in mem && mem[list[j]].ptr == At(list, j + 1) && mem[list[j]].ptr in mem
  {
    FreePlaced(base, mem, list, j);
  }

  /** The first half of freeing: the block is in the list, and only its own two gaps are in doubt. */
  lemma Inserted(base: nat, top: nat, mem: Memory, list: seq<nat>, blocks: map<nat, nat>, owner: map<nat, nat>,
                 live: set<nat>, j: nat, bp: nat)
    requires Loose(base, top, mem, list, blocks, owner, live) && Coalesced(mem, list) && bp in live && bp !in list
    requires j < |list| && list[j] < bp && (j + 1 < |list| ==> bp < list[j + 1])
    ensures bp in mem && list[j] in mem
    ensures var m1, l1 := Link(mem, list[j], bp), Insert(list, j, bp);
            && Loose(base, top, m1, l1, blocks, owner, live - {bp})
            && Untouched(mem, owner, blocks, m1, owner, blocks, live - {bp})
            && |l1| == |list| + 1 && l1[j] == list[j] && l1[j + 1] == bp
            && forall k: nat :: k < |l1| && k != j + 1 && k != j ==> Gap(m1, l1, k)
  {
    InsertLoose(base, top, mem, list, blocks, owner, live, j, bp);
    var m1, l1 := Link(mem, list[j], bp), Insert(list, j, bp);
    assert |l1| == |list| + 1;
    hide Sorts, Partition, Untouched, Link, Insert, Gap, Coalesced;
    forall k: nat | k < |l1| && k != j + 1 && k != j ensures Gap(m1, l1, k) {
      InsertGaps(base, mem, list, j, bp, k);
    }
    InsertAt(list, j, bp, j);
    InsertAt(list, j, bp, j + 1);
  }

  lemma SlotAboveBase(base: nat, top: nat, mem: Memory, list: seq<nat>, blocks: map<nat, nat>, owner: map<nat, nat>,
                      live: set<nat>, j: nat)
    requires Loose(base, top, mem, list, blocks, owner, live) && j < |list|
    ensures base <= list[j]
  {
    if j > 0 { assert Below(mem, list[0], list[j]); }
  }

  /** Freeing a live block: the units are the same, one block fewer is live, and the others are untouched. */
  lemma Release(base: nat, top: nat, mem: Memory, list: seq<nat>, blocks: map<nat, nat>, owner: map<nat, nat>,
                live: set<nat>, bp: nat)
    returns (list': seq<nat>, blocks': map<nat, nat>, owner': map<nat, nat>)
    requires Loose(base, top, mem, list, blocks, owner, live) && Coalesced(mem, list) && bp in live
    ensures list != [] && list[0] == base && bp in mem && bp !in list && base < bp && mem[bp].size > 0
    ensures var p := list[Slot(list, bp, 0)];
            && base <= p && p in mem && mem[p].ptr in mem && p in list'
            && Loose(base, top, Freed(mem, p, bp), list', blocks', owner', live - {bp})
            && Coalesced(Freed(mem, p, bp), list')
            && Untouched(mem, owner, blocks, Freed(mem, p, bp), owner', blocks', live - {bp}) && Coarser(owner, owner')
  {
    hide Loose, Ring, Sorts, Partition, Untouched, Coarser, Slot, Link, Insert;
    FreeFacts(base, top, mem, list, blocks, owner, live, bp);
    var j := Slot(list, bp, 0);
    var p := list[j];
    LoosePlaced(base, top, mem, list, blocks, owner, live, j);
    SlotAboveBase(base, top, mem, list, blocks, owner, live, j);
    var live' := live - {bp};
    var m1, l1 := Link(mem, p, bp), Insert(list, j, bp);
    Inserted(base, top, mem, list, blocks, owner, live, j, bp);
    var m2, l2, b2, o2 := JoinIfTouching(base, top, m1, l1, blocks, owner, live', j + 1, j);
    assert l2[j] == p && l2[j + 1] == bp;
    var m3, l3, b3, o3 := JoinIfTouching(base, top, m2, l2, b2, o2, live', j, j);
    UntouchedTransitive(mem, owner, blocks, m1, owner, blocks, m2, o2, b2, live');
    UntouchedTransitive(mem, owner, blocks, m2, o2, b2, m3, o3, b3, live');
    CoarserTransitive(owner, o2, o3);
    LoosePlaced(base, top, m2, l2, b2, o2, live', j);
    assert Coalesced(m3, l3);
    list', blocks', owner' := l3, b3, o3;
    assert l3[j] == p;
    FreedIsInsertAndJoin(base, mem, list, j, bp, m2, m3);
  }

  lemma UnlinkSorts(base: nat, mem: Memory, list: seq<nat>, blocks: map<nat, nat>, live: set<nat>, i: nat)
    requires Sorts(base, mem, list, blocks, live) && 1 <= i < |list| && list[i - 1] in mem && list[i] in mem
    requires forall k :: 0 <= k < |list| && k != i ==> list[k] != list[i]
    ensures Sorts(base, Unlink(mem, list[i - 1], list[i]), Without(list, i), blocks, live + {list[i]})
  {
    var l := Without(list, i);
    assert |l| == |list| - 1;
    forall k | 1 <= k < |l| ensures l[k] in blocks && l[k] !in live + {list[i]} { WithoutAt(list, i, k); }
    forall b | b in blocks ensures b in live + {list[i]} || b in l {
      if b in list && b != list[i] {
        var k :| 0 <= k < |list| && list[k] == b;
        WithoutAt(list, i, if k < i then k else k - 1);
      }
    }
  }

  /** An exact fit becomes live as it is. */
  lemma TakeWhole(base: nat, top: nat, mem: Memory, list: seq<nat>, blocks: map<nat, nat>, owner: map<nat, nat>,
                  live: set<nat>, i: nat)
    requires Loose(base, top, mem, list, blocks, owner, live) && Coalesced(mem, list) && 1 <= i < |list|
    ensures list[i - 1] in mem && list[i] in mem
    ensures var mem' := Unlink(mem, list[i - 1], list[i]);
            && Loose(base, top, mem', Without(list, i), blocks, owner, live + {list[i]})
               && Coalesced(mem', Without(list, i))
            && Untouched(mem, owner, blocks, mem', owner, blocks, live)
  {
    hide Partition;
    forall k | 0 <= k < |list| && k != i ensures list[k] != list[i] {
      if k < i { assert Below(mem, list[k], list[i]); } else { assert Below(mem, list[i], list[k]); }
    }
    UnlinkRing(base, mem, list, i);
    UnlinkSorts(base, mem, list, blocks, live, i);
    if i > 1 { OwnsItself(blocks, owner, list[i - 1]); }
    hide Ring, Coalesced, Without;
  }

  lemma CutSorts(base: nat, mem: Memory, list: seq<nat>, blocks: map<nat, nat>, live: set<nat>, i: nat, n: nat)
    requires Sorts(base, mem, list, blocks, live) && 1 <= i < |list| && list[i] in mem && 0 < n < mem[list[i]].size
    requires var c := list[i] + mem[list[i]].size - n; c in mem && c !in list && c !in blocks && c != base
    ensures var c := list[i] + mem[list[i]].size - n;
            Sorts(base, Carve(mem, list[i], n), list, Cut(blocks, list[i], n), live + {c})
  {
  }

  /** The tail of a larger block becomes live. */
  lemma TakeTail(base: nat, top: nat, mem: Memory, list: seq<nat>, blocks: map<nat, nat>, owner: map<nat, nat>,
                 live: set<nat>, i: nat, n: nat)
    requires Loose(base, top, mem, list, blocks, owner, live) && Coalesced(mem, list) && 1 <= i < |list|
    requires list[i] in mem && 0 < n < mem[list[i]].size
    ensures var c := list[i] + mem[list[i]].size - n;
            && c in owner && owner[c] == list[i] && c !in live && c in mem && list[i] in blocks && n <= blocks[list[i]]
            && Loose(base, top, Carve(mem, list[i], n), list, Cut(blocks, list[i], n), Moved(owner, list[i], c, c),
                     live + {c})
            && Coalesced(Carve(mem, list[i], n), list)
            && Untouched(mem, owner, blocks, Carve(mem, list[i], n), Moved(owner, list[i], c, c),
                         Cut(blocks, list[i], n), live)
  {
    hide Ring, Coalesced, Partition, Untouched, Cut, Carve, Moved;
    var p := list[i];
    var c := p + mem[p].size - n;
    Inside(blocks, owner, p, c);
    OwnsItself(blocks, owner, p);
    CarveRing(base, mem, list, i, n);
    Split(blocks, owner, p, n);
    CutSorts(base, mem, list, blocks, live, i, n);
    TailUntouched(mem, owner, blocks, live, p, c, n);
    hide Sorts;
    TailBounds(base, top, mem, owner, p, c, n);
  }

  lemma TailBounds(base: nat, top: nat, mem: Memory, owner: map<nat, nat>, p: nat, c: nat, n: nat)
    requires p in mem && n <= mem[p].size && p + mem[p].size - n in mem && forall u :: u in owner ==>
               base < u < top && u in mem
    ensures forall u :: u in Moved(owner, p, c, c) ==> base < u < top && u in Carve(mem, p, n)
  {
  }

  lemma TailUntouched(mem: Memory, owner: map<nat, nat>, blocks: map<nat, nat>, live: set<nat>, p: nat, c: nat, n: nat)
    requires p in mem && n <= mem[p].size && c == p + mem[p].size - n && c in mem && live <= blocks.Keys && p !in live
    requires c !in live
    requires p in blocks && blocks[p] == mem[p].size && p in owner && owner[p] == p && c in owner && owner[c] == p
    requires forall u :: u in owner ==> u in mem
    ensures Untouched(mem, owner, blocks, Carve(mem, p, n), Moved(owner, p, c, c), Cut(blocks, p, n), live)
  {
  }
}
