/** malloc, free and morecore of umalloc.c as methods on the memory they rewrite. */
module Malloc {
  import opened Seqs
  import opened KrHeap

  /** sizeof(Header) in bytes. */
  const HEADER: nat := 16

  /** Units for a request: its bytes rounded up, and one for the header. */
  function Units(nbytes: nat): nat {
    (nbytes + HEADER - 1) / HEADER + 1
  }

  /** sbrk takes an int. */
  function AsInt32(x: nat): int {
    var y := x % 0x1_0000_0000;
    if y < 0x8000_0000 then y else y - 0x1_0000_0000
  }

  /** The least unit count whose payload holds the request. */
  lemma UnitsLeast(nbytes: nat, n: nat)
    ensures n >= Units(nbytes) <==> n >= 1 && (n - 1) * HEADER >= nbytes
  {
  }

  /** The units morecore asks for on behalf of a request. */
  function Wanted(nbytes: nat): nat {
    Most(Units(nbytes), MIN_UNITS)
  }

  /** morecore's byte count survives the conversion to sbrk's argument for requests below 2^31 - 31 bytes,
      and for none above. */
  lemma SbrkArgumentExact(nbytes: nat)
    requires nbytes < 0x1_0000_0000
    ensures AsInt32(Wanted(nbytes) * HEADER) == Wanted(nbytes) * HEADER <==> nbytes < 0x7fff_ffe1
    ensures AsInt32(Wanted(nbytes) * HEADER) <= Wanted(nbytes) * HEADER
  {
  }

  /** The header morecore writes covers exactly the memory sbrk gave it for the same requests, and for none above. */
  lemma RequestCoveredIff(nbytes: nat, blocks: map<nat, nat>, owner: map<nat, nat>, at: nat)
    requires nbytes < 0x1_0000_0000 && Partition(blocks, owner) && forall u :: u in owner ==> u < at
    ensures var n := AsInt32(Wanted(nbytes) * HEADER);
            n >= 0 && Partition(blocks[at := Wanted(nbytes)], Claimed(owner, at, n / HEADER)) <==> nbytes < 0x7fff_ffe1
  {
    hide Partition;
    var n := AsInt32(Wanted(nbytes) * HEADER);
    SbrkArgumentExact(nbytes);
    if nbytes < 0x7fff_ffe1 {
      Grow(blocks, owner, at, Wanted(nbytes));
    } else if n >= 0 {
      NotCovered(blocks[at := Wanted(nbytes)], Claimed(owner, at, n / HEADER), at, at + n / HEADER);
    }
  }

  lemma NotCovered(blocks: map<nat, nat>, owner: map<nat, nat>, at: nat, u: nat)
    requires at in blocks && at <= u < at + blocks[at] && u !in owner
    ensures !Partition(blocks, owner)
  {
    assert !Fills(blocks, owner, at);
  }

  /** The largest request makes sbrk give 16 bytes for a block of 2^28 + 1 units. */
  lemma LargestRequestExample()
    ensures Wanted(0xffff_ffff) == 0x1000_0001 && AsInt32(Wanted(0xffff_ffff) * HEADER) == 16
  {
  }

  /** The size of a set of blocks, summed. */
  ghost function Total(blocks: map<nat, nat>, s: set<nat>): nat
    requires s <= blocks.Keys
  {
    if s == {} then 0 else var b :| b in s; blocks[b] + Total(blocks, s - {b})
  }

  ghost function UnitsOf(owner: map<nat, nat>, s: set<nat>): set<nat> {
    set u | u in owner && owner[u] in s
  }

  lemma OwnCells(blocks: map<nat, nat>, owner: map<nat, nat>, b: nat)
    requires Partition(blocks, owner) && b in blocks
    ensures forall u :: u in Cells(b, blocks[b]) <==> u in owner && owner[u] == b
  {
    forall u ensures u in Cells(b, blocks[b]) <==> u in owner && owner[u] == b {
      assert Fills(blocks, owner, b);
      assert u in owner ==> Within(blocks, owner, u);
    }
  }

  lemma {:induction false} TotalCountsUnits(blocks: map<nat, nat>, owner: map<nat, nat>, s: set<nat>)
    requires Partition(blocks, owner) && s <= blocks.Keys
    ensures Total(blocks, s) == |UnitsOf(owner, s)|
  {
    if s == {} {
      assert UnitsOf(owner, s) == {};
    } else {
      var b :| b in s && Total(blocks, s) == blocks[b] + Total(blocks, s - {b});
      TotalCountsUnits(blocks, owner, s - {b});
      OneMore(blocks, owner, s, b);
    }
  }

  lemma OneMore(blocks: map<nat, nat>, owner: map<nat, nat>, s: set<nat>, b: nat)
    requires Partition(blocks, owner) && b in blocks && b in s
    ensures |UnitsOf(owner, s)| == |UnitsOf(owner, s - {b})| + blocks[b]
  {
    hide Partition, Cells;
    OwnCells(blocks, owner, b);
    assert UnitsOf(owner, s) == UnitsOf(owner, s - {b}) + Cells(b, blocks[b]);
    assert UnitsOf(owner, s - {b}) !! Cells(b, blocks[b]);
  }

  /** Free and live units together are the units got from sbrk. */
  lemma Conservation(blocks: map<nat, nat>, owner: map<nat, nat>, live: set<nat>)
    requires Partition(blocks, owner) && live <= blocks.Keys
    ensures Total(blocks, live) + Total(blocks, blocks.Keys - live) == |owner.Keys|
  {
    var rest := blocks.Keys - live;
    TotalCountsUnits(blocks, owner, live);
    TotalCountsUnits(blocks, owner, rest);
    forall u | u in owner ensures owner[u] in live || owner[u] in rest {
      assert Within(blocks, owner, u);
    }
    assert owner.Keys == UnitsOf(owner, live) + UnitsOf(owner, rest);
  }

  /** `p` is the last header of the list below the address. */
  ghost predicate JustBelow(list: seq<nat>, bp: nat, p: nat) {
    p in list && p < bp && forall q :: q in list && q < bp ==> q <= p
  }

  lemma SlotJustBelow(base: nat, top: nat, mem: Memory, list: seq<nat>, blocks: map<nat, nat>, owner: map<nat, nat>,
                      live: set<nat>, bp: nat)
    requires Loose(base, top, mem, list, blocks, owner, live) && list != [] && list[0] < bp && bp !in list
    ensures JustBelow(list, bp, list[Slot(list, bp, 0)])
  {
    var j := Slot(list, bp, 0);
    forall i | 0 <= i < |list| ensures if i <= j then list[i] <= list[j] else list[i] > bp {
      if i < j {
        assert KrHeap.Below(mem, list[i], list[j]);
      } else if i > j + 1 {
        assert KrHeap.Below(mem, list[j + 1], list[i]);
      }
    }
  }

  /** Ring position `k` is passed on the way from just after `s` to `i`. */
  predicate Passed(s: nat, k: nat, i: nat) {
    if i > s then s < k < i else k > s || k < i
  }

  /** Place `i` of the list, large enough, and its predecessor. */
  ghost predicate Hit(mem: Memory, list: seq<nat>, prevp: nat, p: nat, i: nat, n: nat) {
    1 <= i < |list| && p == list[i] && prevp == list[i - 1] && p in mem && mem[p].size >= n
  }

  /** Every block between freep and place `i` is too small. */
  ghost predicate NextFit(mem: Memory, list: seq<nat>, freep: nat, i: nat, n: nat) {
    exists s :: 0 <= s < |list| && list[s] == freep && AllSmall(mem, list, s, i, n)
  }

  ghost predicate AllSmall(mem: Memory, list: seq<nat>, s: nat, i: nat, n: nat) {
    forall k :: 0 <= k < |list| && Passed(s, k, i) && list[k] in mem ==> mem[list[k]].size < n
  }

  ghost predicate Fits(blocks: map<nat, nat>, live: set<nat>, n: nat) {
    exists b :: b in blocks && b !in live && blocks[b] >= n
  }

  class Heap {
    const base: nat
    var mem: Memory
    /** 0 until the first malloc. */
    var freep: nat
    ghost var list: seq<nat>
    ghost var blocks: map<nat, nat>
    ghost var owner: map<nat, nat>
    ghost var live: set<nat>
    ghost var top: nat

    ghost predicate Ready()
      reads this
    {
      && freep in list && 0 < base <= freep && base < top
      && Loose(base, top, mem, list, blocks, owner, live) && Coalesced(mem, list)
    }

    ghost predicate Unused()
      reads this
    {
      && freep == 0 && 0 < base < top && base in mem && mem[base] == Header(0, 0)
      && list == [base] && blocks == map[] && owner == map[] && live == {}
    }

    ghost predicate Valid()
      reads this
    {
      Unused() || Ready()
    }

    /** free's loop: the free block just below the address, wherever the walk starts. */
    method FindSlot(bp: nat) returns (p: nat)
      requires Ready() && bp !in list && base < bp
      ensures p == list[Slot(list, bp, 0)]
    {
      hide Sorts, Partition, Coalesced;
      p := freep;
      ghost var i :| 0 <= i < |list| && list[i] == freep;
      ghost var j := Slot(list, bp, 0);
      assert Linked(mem, list, i);
      while !(bp > p && bp < mem[p].ptr) && !(p >= mem[p].ptr && (bp > p || bp < mem[p].ptr))
        invariant 0 <= i < |list| && p == list[i] && p in mem && mem[p].ptr == At(list, i + 1)
        decreases if i <= j then j - i else j - i + |list|
      {
        p := mem[p].ptr;
        i := if i + 1 == |list| then 0 else i + 1;
        assert Linked(mem, list, i);
      }
    }

    /** free's pointer and size writes. */
    method Splice(p: nat, bp: nat)
      requires p in mem && bp in mem && mem[p].ptr in mem
      modifies `mem
      ensures mem == Freed(old(mem), p, bp)
    {
      var q := mem[p].ptr;
      if bp + mem[bp].size == q {
        mem := mem[bp := mem[bp].(size := mem[bp].size + mem[q].size)];
        mem := mem[bp := mem[bp].(ptr := mem[q].ptr)];
      } else {
        mem := mem[bp := mem[bp].(ptr := q)];
      }
      if p + mem[p].size == bp {
        mem := mem[p := mem[p].(size := mem[p].size + mem[bp].size)];
        mem := mem[p := mem[p].(ptr := mem[bp].ptr)];
      } else {
        mem := mem[p := mem[p].(ptr := bp)];
      }
    }

    /** The block leaves the live set; every other live block keeps its units and their contents. */
    method Free(ap: nat)
      requires Ready() && ap >= 1 && ap - 1 in live
      modifies this
      ensures Ready() && live == old(live) - {ap - 1} && top == old(top)
      ensures Untouched(old(mem), old(owner), old(blocks), mem, owner, blocks, live) && Coarser(old(owner), owner)
      ensures JustBelow(old(list), ap - 1, freep)
    {
      hide Loose, Coalesced, Untouched, Coarser, Freed, Slot, JustBelow;
      var bp := ap - 1;
      ghost var list', blocks', owner' := Release(base, top, mem, list, blocks, owner, live, bp);
      var p := FindSlot(bp);
      SlotJustBelow(base, top, mem, list, blocks, owner, live, bp);
      Splice(p, bp);
      freep := p;
      list, blocks, owner, live := list', blocks', owner', live - {bp};
    }

    /** malloc's walk: the first block, in ring order after freep, that is large enough. */
    method Search(nunits: nat) returns (found: bool, prevp: nat, p: nat, ghost i: nat)
      requires Ready() && nunits > 0
      ensures found ==> Hit(mem, list, prevp, p, i, nunits)
      ensures found ==> NextFit(mem, list, freep, i, nunits)
      ensures found <==> Fits(blocks, live, nunits)
    {
      hide Sorts, Partition, Coalesced, Fits;
      ghost var s :| 0 <= s < |list| && list[s] == freep;
      assert Linked(mem, list, s);
      prevp := freep;
      p := mem[prevp].ptr;
      i := if s + 1 == |list| then 0 else s + 1;
      assert Linked(mem, list, i);
      while mem[p].size < nunits && p != freep
        invariant 0 <= i < |list| && p == list[i] && p in mem && mem[p].ptr == At(list, i + 1)
        invariant prevp == list[if i == 0 then |list| - 1 else i - 1]
        invariant AllSmall(mem, list, s, i, nunits)
        decreases if i <= s then s - i else s - i + |list|
      {
        assert i != s;
        prevp := p;
        p := mem[p].ptr;
        i := if i + 1 == |list| then 0 else i + 1;
        assert Linked(mem, list, i);
      }
      found := mem[p].size >= nunits;
      if !found {
        DistinctPlaces(base, mem, list, i, s);
        NoneFits(base, top, mem, list, blocks, owner, live, nunits);
      } else {
        OneFits(base, top, mem, list, blocks, owner, live, nunits, i);
      }
      assert list[s] == freep;
    }

    /** malloc's hand-out of a fitting block: all of it, or its tail. */
    method Take(prevp: nat, block: nat, nunits: nat, ghost i: nat) returns (p: nat)
      requires Ready() && Hit(mem, list, prevp, block, i, nunits) && nunits > 0
      modifies this
      ensures Ready() && freep == prevp && top == old(top) && owner.Keys == old(owner).Keys
      ensures p !in old(live) && live == old(live) + {p} && p in blocks && blocks[p] == nunits
      ensures forall u :: u in Cells(p, nunits) ==> u in old(owner) && old(owner)[u] == block
      ensures block !in old(live) && Untouched(old(mem), old(owner), old(blocks), mem, owner, blocks, old(live))
    {
      hide Coalesced, Untouched, Loose, Without, Cut, Moved, Unlink, Carve;
      FitFacts(base, top, mem, list, blocks, owner, live, i);
      p := block;
      if mem[p].size == nunits {
        TakeExact(prevp, p, i);
      } else {
        p := TakeEnd(p, nunits, i);
      }
      freep := prevp;
    }

    method TakeExact(prevp: nat, p: nat, ghost i: nat)
      requires Ready() && 1 <= i < |list| && p == list[i] && prevp == list[i - 1] && p in mem
      modifies `mem, `list, `live
      ensures Loose(base, top, mem, list, blocks, owner, live) && Coalesced(mem, list) && prevp in list
      ensures live == old(live) + {p} && Untouched(old(mem), owner, blocks, mem, owner, blocks, old(live))
    {
      hide Coalesced, Untouched, Loose, Without;
      TakeWhole(base, top, mem, list, blocks, owner, live, i);
      WithoutKeeps(list, i);
      mem := mem[prevp := mem[prevp].(ptr := mem[p].ptr)];
      list := Without(list, i);
      live := live + {p};
    }

    method TakeEnd(block: nat, nunits: nat, ghost i: nat) returns (p: nat)
      requires Ready() && 1 <= i < |list| && block == list[i] && block in mem && 0 < nunits < mem[block].size
      modifies `mem, `blocks, `owner, `live
      ensures Loose(base, top, mem, list, blocks, owner, live) && Coalesced(mem, list)
      ensures p == block + old(mem)[block].size - nunits && p !in old(live) && live == old(live) + {p}
      ensures p in blocks && blocks[p] == nunits && owner.Keys == old(owner).Keys
      ensures Untouched(old(mem), old(owner), old(blocks), mem, owner, blocks, old(live))
    {
      hide Coalesced, Untouched, Loose, Cut, Moved, Carve;
      FitFacts(base, top, mem, list, blocks, owner, live, i);
      TakeTail(base, top, mem, list, blocks, owner, live, i, nunits);
      CarveIs(mem, blocks, owner, block, nunits);
      p := block;
      ghost var c := p + mem[p].size - nunits;
      blocks, owner, live := Cut(blocks, p, nunits), Moved(owner, p, c, c), live + {c};
      mem := mem[p := mem[p].(size := mem[p].size - nunits)];
      p := p + mem[p].size;
      mem := mem[p := mem[p].(size := nunits)];
    }

    /** sbrk's `n` bytes of new memory, zeroed by the kernel, with a header for `nu` units at its start. */
    method Sbrk(hp: nat, n: int, nu: nat)
      requires Ready() && hp >= top && n == nu * HEADER > 0
      modifies this
      ensures Ready() && freep == old(freep) && top == hp + nu && live == old(live) + {hp} && hp !in old(live)
      ensures blocks == old(blocks)[hp := nu] && owner == Claimed(old(owner), hp, nu)
      ensures Untouched(old(mem), old(owner), old(blocks), mem, owner, blocks, old(live))
    {
      hide Coalesced, Untouched, Loose, Claimed, Zeroed, Cells;
      Extend(base, top, mem, list, blocks, owner, live, hp, nu);
      mem := Zeroed(mem, hp, n / HEADER);
      mem := mem[hp := mem[hp].(size := nu)];
      blocks, owner, live, top := blocks[hp := nu], Claimed(owner, hp, nu), live + {hp}, hp + nu;
    }

    /** Asks sbrk for at least `MIN_UNITS` units and frees them into the list. */
    method Morecore(nu0: nat, brk: Brk, ghost nbytes: nat) returns (p: nat)
      requires Ready() && nu0 == Units(nbytes) && nbytes < 0x1_0000_0000
      requires brk.Break? ==> brk.at >= top && nbytes < 0x7fff_ffe1
      modifies this
      ensures Ready() && live == old(live)
      ensures p == if brk.NoMemory? then 0 else freep
      ensures brk.NoMemory? ==>
                mem == old(mem) && freep == old(freep) && list == old(list) && blocks == old(blocks)
                  && owner == old(owner) && top == old(top)
      ensures brk.Break? ==>
                owner.Keys == old(owner).Keys + Cells(brk.at, Most(nu0, MIN_UNITS)) && Fits(blocks, live, nu0)
      ensures Untouched(old(mem), old(owner), old(blocks), mem, owner, blocks, live)
    {
      hide Coalesced, Untouched, Loose, Coarser, Claimed, Fits;
      var nu := if nu0 < MIN_UNITS then MIN_UNITS else nu0;
      if brk.NoMemory? {
        Unchanged(base, top, mem, list, blocks, owner, live);
        return 0;
      }
      var hp := brk.at;
      SbrkArgumentExact(nbytes);
      Sbrk(hp, AsInt32(nu * HEADER), nu);
      ghost var m1, o1, b1, l1, t1 := mem, owner, blocks, list, top;
      Free(hp + 1);
      assert live == old(live);
      UntouchedTransitive(old(mem), old(owner), old(blocks), m1, o1, b1, mem, owner, blocks, live);
      FreedFits(base, t1, m1, l1, o1, b1, live + {hp}, top, mem, list, owner, blocks, live, hp, nu);
      FitsSmaller(blocks, live, nu, nu0);
      ClaimedKeys(old(owner), hp, nu, owner);
      p := freep;
    }

    /** Null exactly when nothing fits and sbrk fails; at most one sbrk, and none when a block fits.
        The new block's units were free or are new, and no live block's units change. */
    method Malloc(nbytes: nat, brk: Brk) returns (r: nat)
      requires Valid() && nbytes < 0x1_0000_0000 && (brk.Break? ==> brk.at >= top)
      requires brk.Break? && !Fits(blocks, live, Units(nbytes)) ==> nbytes < 0x7fff_ffe1
      modifies this
      ensures Ready()
      ensures r == 0 <==> !Fits(old(blocks), old(live), Units(nbytes)) && brk.NoMemory?
      ensures r == 0 ==> live == old(live) && owner == old(owner) && blocks == old(blocks)
      ensures r != 0 ==>
                r - 1 !in old(live) && live == old(live) + {r - 1} && r - 1 in blocks && blocks[r - 1] == Units(nbytes)
      ensures r != 0 ==> forall u :: u in Cells(r - 1, Units(nbytes)) ==>
                u in owner && (u in old(owner) ==> old(owner)[u] !in old(live))
      ensures owner.Keys == if Fits(old(blocks), old(live), Units(nbytes)) || brk.NoMemory? then old(owner).Keys
                            else old(owner).Keys + Cells(brk.at, Most(Units(nbytes), MIN_UNITS))
      ensures Untouched(old(mem), old(owner), old(blocks), mem, owner, blocks, old(live))
    {
      hide Coalesced, Untouched, Loose, Fits, Units, NextFit, Hit;
      var nunits := Units(nbytes);
      UnitsLeast(nbytes, nunits);
      if freep == 0 {
        Start();
      } else {
        Unchanged(base, top, mem, list, blocks, owner, live);
      }
      ghost var m0 := mem;
      var found, prevp, p, i := Locate(nunits, brk, nbytes);
      UntouchedTransitive(old(mem), old(owner), old(blocks), m0, old(owner), old(blocks), mem, owner, blocks, live);
      if !found {
        return 0;
      }
      ghost var m1, o1, b1 := mem, owner, blocks;
      p := Take(prevp, p, nunits, i);
      UntouchedTransitive(old(mem), old(owner), old(blocks), m1, o1, b1, mem, owner, blocks, old(live));
      WereFree(old(mem), old(owner), old(blocks), m1, o1, b1, old(live), p, nunits);
      r := p + 1;
    }

    /** malloc's loop up to the hit: once around, and at most once more after morecore. */
    method Locate(nunits: nat, brk: Brk, ghost nbytes: nat) returns (found: bool, prevp: nat, p: nat, ghost i: nat)
      requires Ready() && nunits == Units(nbytes) && nbytes < 0x1_0000_0000 && (brk.Break? ==> brk.at >= top)
      requires brk.Break? && !Fits(blocks, live, nunits) ==> nbytes < 0x7fff_ffe1
      modifies this
      ensures Ready() && live == old(live)
      ensures found <==> Fits(old(blocks), old(live), nunits) || brk.Break?
      ensures !found ==> owner == old(owner) && blocks == old(blocks)
      ensures found ==> Hit(mem, list, prevp, p, i, nunits)
      ensures found ==> NextFit(mem, list, freep, i, nunits)
      ensures owner.Keys == if Fits(old(blocks), old(live), nunits) || brk.NoMemory? then old(owner).Keys
                            else old(owner).Keys + Cells(brk.at, Most(nunits, MIN_UNITS))
      ensures Untouched(old(mem), old(owner), old(blocks), mem, owner, blocks, live)
    {
      hide Coalesced, Untouched, Loose, Fits, NextFit, Hit;
      found, prevp, p, i := Search(nunits);
      if found {
        Unchanged(base, top, mem, list, blocks, owner, live);
      } else {
        p := Morecore(nunits, brk, nbytes);
        if p == 0 {
          return;
        }
        found, prevp, p, i := Search(nunits);
      }
    }

    /** malloc's first call. */
    method Start()
      requires Unused()
      modifies `mem, `freep
      ensures Ready()
      ensures Untouched(old(mem), owner, blocks, mem, owner, blocks, live)
    {
      freep := base;
      mem := mem[base := Header(base, 0)];
      assert Linked(mem, list, 0);
    }

    /** The program may write anything into the payload of its blocks. */
    method UserWrite(u: nat, h: Header)
      requires Ready() && u in owner && owner[u] in live && u != owner[u]
      modifies `mem
      ensures Ready() && mem == old(mem)[u := h]
    {
      PayloadFree(base, top, mem, list, blocks, owner, live, u, h);
      mem := mem[u := h];
    }

    constructor (base0: nat, top0: nat)
      requires 0 < base0 < top0
      ensures Unused() && base == base0 && top == top0
    {
      base := base0;
      mem := map[base0 := Header(0, 0)];
      freep := 0;
      list, blocks, owner, live, top := [base0], map[], map[], {}, top0;
    }
  }

  /** The list and the headers do not depend on payload units. */
  lemma PayloadFree(base: nat, top: nat, mem: Memory, list: seq<nat>, blocks: map<nat, nat>, owner: map<nat, nat>,
                    live: set<nat>, u: nat, h: Header)
    requires Loose(base, top, mem, list, blocks, owner, live) && Coalesced(mem, list)
    requires u in owner && u != owner[u]
    ensures Loose(base, top, mem[u := h], list, blocks, owner, live) && Coalesced(mem[u := h], list)
  {
    var mem' := mem[u := h];
    forall b | b in blocks ensures b != u { OwnsItself(blocks, owner, b); }
    forall i | 0 <= i < |list| ensures Linked(mem', list, i) && Gap(mem', list, i) {
      assert Linked(mem, list, i) && Gap(mem, list, i);
    }
    forall i, j | 0 <= i < j < |list| ensures Below(mem', list[i], list[j]) {
      assert Below(mem, list[i], list[j]);
    }
    hide Partition;
  }

  lemma NoneFits(base: nat, top: nat, mem: Memory, list: seq<nat>, blocks: map<nat, nat>, owner: map<nat, nat>,
                 live: set<nat>, n: nat)
    requires Loose(base, top, mem, list, blocks, owner, live)
    requires forall k :: 0 <= k < |list| && list[k] in mem ==> mem[list[k]].size < n
    ensures !Fits(blocks, live, n)
  {
    forall b | b in blocks && b !in live ensures blocks[b] < n {
      var i :| 0 <= i < |list| && list[i] == b;
    }
  }

  lemma OneFits(base: nat, top: nat, mem: Memory, list: seq<nat>, blocks: map<nat, nat>, owner: map<nat, nat>,
                live: set<nat>, n: nat, i: nat)
    requires Loose(base, top, mem, list, blocks, owner, live)
    requires 1 <= i < |list| && list[i] in mem && mem[list[i]].size >= n
    ensures Fits(blocks, live, n)
  {
    assert list[i] in blocks;
  }

  lemma WereFree(m0: Memory, o0: map<nat, nat>, b0: map<nat, nat>, m1: Memory, o1: map<nat, nat>, b1: map<nat, nat>,
                 live: set<nat>, p: nat, n: nat)
    requires Untouched(m0, o0, b0, m1, o1, b1, live)
    requires forall u :: u in Cells(p, n) ==> u in o1 && o1[u] !in live
    ensures forall u :: u in Cells(p, n) && u in o0 ==> o0[u] !in live
  {
    forall u | u in Cells(p, n) && u in o0 ensures o0[u] !in live {
      assert Kept(m0, o0, m1, o1, live, u);
    }
  }

  lemma WithoutKeeps(list: seq<nat>, i: nat)
    requires 1 <= i < |list|
    ensures list[i - 1] in Without(list, i)
  {
    WithoutAt(list, i, i - 1);
  }

  lemma CarveIs(mem: Memory, blocks: map<nat, nat>, owner: map<nat, nat>, p: nat, n: nat)
    requires p in mem && 0 < n < mem[p].size && p + mem[p].size - n in mem && p in blocks && blocks[p] == mem[p].size
    ensures var c := p + mem[p].size - n;
            var shrunk := mem[p := mem[p].(size := mem[p].size - n)];
            && c in shrunk && shrunk[c := shrunk[c].(size := n)] == Carve(mem, p, n)
            && c in Cut(blocks, p, n) && Cut(blocks, p, n)[c] == n && Moved(owner, p, c, c).Keys == owner.Keys
  {
  }

  lemma FitsSmaller(blocks: map<nat, nat>, live: set<nat>, n: nat, m: nat)
    requires Fits(blocks, live, n) && m <= n
    ensures Fits(blocks, live, m)
  {
    var b :| b in blocks && b !in live && blocks[b] >= n;
    assert b in blocks;
  }

  lemma ClaimedKeys(owner: map<nat, nat>, at: nat, n: nat, owner': map<nat, nat>)
    requires Coarser(Claimed(owner, at, n), owner')
    ensures owner'.Keys == owner.Keys + Cells(at, n)
  {
  }

  function Most(a: nat, b: nat): nat {
    if a < b then b else a
  }

  lemma FitFacts(base: nat, top: nat, mem: Memory, list: seq<nat>, blocks: map<nat, nat>, owner: map<nat, nat>,
                 live: set<nat>, i: nat)
    requires Loose(base, top, mem, list, blocks, owner, live) && 1 <= i < |list|
    ensures base <= list[i - 1] && list[i] in blocks && list[i] in mem && mem[list[i]].size == blocks[list[i]]
    ensures list[i] !in live
    ensures forall u :: u in Cells(list[i], blocks[list[i]]) ==> u in owner && owner[u] == list[i]
  {
    SlotAboveBase(base, top, mem, list, blocks, owner, live, i - 1);
    OwnCells(blocks, owner, list[i]);
  }

  function Zeroed(mem: Memory, at: nat, n: nat): (m: Memory)
    ensures n > 0 ==> at in m && m[at] == Header(0, 0)
  {
    mem + map u | u in Cells(at, n) :: Header(0, 0)
  }

  function Grown(mem: Memory, at: nat, n: nat): Memory {
    Zeroed(mem, at, n)[at := Header(0, n)]
  }

  /** New memory from sbrk is one more live block. */
  lemma Extend(base: nat, top: nat, mem: Memory, list: seq<nat>, blocks: map<nat, nat>, owner: map<nat, nat>,
               live: set<nat>, at: nat, n: nat)
    requires Loose(base, top, mem, list, blocks, owner, live) && Coalesced(mem, list) && base < top <= at && n > 0
    ensures at !in live && at !in owner
    ensures Loose(base, at + n, Grown(mem, at, n), list, blocks[at := n], Claimed(owner, at, n), live + {at})
    ensures Coalesced(Grown(mem, at, n), list)
    ensures Untouched(mem, owner, blocks, Grown(mem, at, n), Claimed(owner, at, n), blocks[at := n], live)
  {
    Grow(blocks, owner, at, n);
    forall b | b in blocks ensures b < at { OwnsItself(blocks, owner, b); }
    hide Ring, Partition, Sorts, Untouched, Grown, Claimed;
    ListBelow(base, top, mem, list, blocks, owner, live, at);
    ListGrown(base, mem, list, at, n);
    BlocksGrown(base, top, mem, list, blocks, owner, live, at, n);
  }

  lemma ListBelow(base: nat, top: nat, mem: Memory, list: seq<nat>, blocks: map<nat, nat>, owner: map<nat, nat>,
                  live: set<nat>, at: nat)
    requires Loose(base, top, mem, list, blocks, owner, live) && base < top <= at
    ensures forall i :: 0 <= i < |list| ==> list[i] < at
    ensures forall b :: b in blocks ==> b < at
  {
    forall b | b in blocks ensures b < at { OwnsItself(blocks, owner, b); }
    hide Partition;
  }

  lemma BlocksGrown(base: nat, top: nat, mem: Memory, list: seq<nat>, blocks: map<nat, nat>, owner: map<nat, nat>,
                    live: set<nat>, at: nat, n: nat)
    requires Sorts(base, mem, list, blocks, live) && base < top <= at && n > 0
    requires forall i :: 0 <= i < |list| ==> list[i] < at
    requires forall b :: b in blocks ==> b < at
    requires forall u :: u in owner ==> base < u < top && u in mem
    ensures Sorts(base, Grown(mem, at, n), list, blocks[at := n], live + {at})
    ensures Untouched(mem, owner, blocks, Grown(mem, at, n), Claimed(owner, at, n), blocks[at := n], live)
    ensures forall u :: u in Claimed(owner, at, n) ==> base < u < at + n && u in Grown(mem, at, n)
  {
  }

  lemma ListGrown(base: nat, mem: Memory, list: seq<nat>, at: nat, n: nat)
    requires Ring(base, mem, list) && Coalesced(mem, list) && base < at
    requires forall i :: 0 <= i < |list| ==> list[i] < at
    ensures Ring(base, Grown(mem, at, n), list) && Coalesced(Grown(mem, at, n), list)
  {
    var mem' := Grown(mem, at, n);
    forall i | 0 <= i < |list| ensures Linked(mem', list, i) && Gap(mem', list, i) {
      assert Linked(mem, list, i) && Gap(mem, list, i);
    }
    forall i, j | 0 <= i < j < |list| ensures Below(mem', list[i], list[j]) {
      assert Below(mem, list[i], list[j]);
    }
  }

  /** A freed block ends up inside one free block. */
  lemma FreedFits(base: nat, top: nat, mem: Memory, list: seq<nat>, owner: map<nat, nat>, blocks: map<nat, nat>,
                  live: set<nat>,
                  top': nat, mem': Memory, list': seq<nat>, owner': map<nat, nat>, blocks': map<nat, nat>,
                    live': set<nat>, at: nat, n: nat)
    requires Loose(base, top, mem, list, blocks, owner, live) && Loose(base, top', mem', list', blocks', owner', live')
    requires at in blocks && blocks[at] == n && at !in live'
    requires Untouched(mem, owner, blocks, mem', owner', blocks', live') && Coarser(owner, owner')
    ensures Fits(blocks', live', n)
  {
    var last := at + n - 1;
    assert Fills(blocks, owner, at);
    assert owner[at] == at && owner[last] == at;
    assert at in owner' && last in owner' && owner'[at] == owner'[last];
    assert Kept(mem, owner, mem', owner', live', at);
    assert Within(blocks', owner', at) && Within(blocks', owner', last);
    assert owner'[at] in blocks';
  }

  lemma Unchanged(base: nat, top: nat, mem: Memory, list: seq<nat>, blocks: map<nat, nat>, owner: map<nat, nat>,
                  live: set<nat>)
    requires Loose(base, top, mem, list, blocks, owner, live)
    ensures Untouched(mem, owner, blocks, mem, owner, blocks, live)
  {
  }

  lemma DistinctPlaces(base: nat, mem: Memory, list: seq<nat>, i: nat, j: nat)
    requires Ring(base, mem, list) && i < |list| && j < |list| && list[i] == list[j]
    ensures i == j
  {
    assert i < j ==> Below(mem, list[i], list[j]);
    assert j < i ==> Below(mem, list[j], list[i]);
  }
}
