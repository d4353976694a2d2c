/** The page allocator of kalloc.c and the user address spaces of vm.c on top of it. Every page of
    physical memory is free, a table page, a user page of one address space, or in some caller's hand. */
module VirtualMemory {
  import opened PageTable
  import opened AddressSpace
  import opened PageCount

  /** How a call that installs mappings ends. */
  datatype Outcome = Done | NoMemory | Panic

  class Kernel {
    const lo: nat
    const hi: nat
    var freelist: seq<nat>
    var tables: Tables
    var data: map<nat, Page>
    ghost var role: Roles
    ghost var holder: map<nat, Place>
    ghost var hand: set<nat>

    ghost predicate Sound()
      reads this
    {
      0 < lo <= hi && Account(lo, hi, freelist, role, holder, hand) && forall p :: lo <= p < hi ==> p in data
    }

    ghost predicate Valid()
      reads this
    {
      Sound() && Tree(tables, role, map[]) && AllHeld(tables, role, holder)
    }

    /** The first free page, filled with junk; 0 when there is none. */
    method Kalloc() returns (p: nat)
      requires Sound()
      modifies `freelist, `data, `hand
      ensures Sound()
      ensures p == 0 <==> old(freelist) == []
      ensures p == 0 ==> freelist == old(freelist) && data == old(data) && hand == old(hand)
      ensures p != 0 ==>
                p !in holder && p !in role && old(freelist) == [p] + freelist && data == old(data)[p := Filled(5)]
                  && hand == old(hand) + {p} && p !in old(hand)
    {
      hide Account;
      if freelist == [] {
        return 0;
      }
      PopFree(lo, hi, freelist, role, holder, hand);
      p := freelist[0];
      freelist := freelist[1..];
      data := data[p := Filled(5)];
      hand := hand + {p};
    }

    /** Gives back a page nobody else has; a page outside the allocator's memory is a panic. */
    method Kfree(p: nat) returns (panic: bool)
      requires Sound() && (lo <= p < hi ==> p in hand)
      modifies `freelist, `data, `hand
      ensures Sound() && (panic <==> !(lo <= p < hi)) && (old(p in hand) ==> !panic)
      ensures panic ==> freelist == old(freelist) && data == old(data) && hand == old(hand)
      ensures !panic ==>
                freelist == [p] + old(freelist) && data == old(data)[p := Filled(1)] && hand == old(hand) - {p}
    {
      hide Account;
      InHand(lo, hi, freelist, role, holder, hand);
      if p < lo || p >= hi {
        return true;
      }
      PushFree(lo, hi, freelist, role, holder, hand, p);
      data := data[p := Filled(1)];
      freelist := [p] + freelist;
      hand := hand - {p};
      return false;
    }

    /** kinit: every whole page is freed, highest address last. */
    constructor (lo0: nat, hi0: nat)
      requires 0 < lo0 <= hi0
      ensures Valid() && lo == lo0 && hi == hi0 && hand == {} && role == map[] && holder == map[]
      ensures forall p :: p in freelist <==> lo <= p < hi
    {
      lo, hi := lo0, hi0;
      freelist, tables, role, holder := [], map[], map[], map[];
      data := map p | p in Range(lo0, hi0) :: Filled(0);
      hand := Range(lo0, hi0);
      new;
      var p := lo;
      while p < hi
        invariant lo <= p <= hi && Sound() && hand == Range(p, hi)
        invariant tables == map[] && role == map[] && holder == map[]
      {
        var _ := Kfree(p);
        p := p + 1;
      }
    }

    /** walk: the level-0 table page for an address, with missing tables made when `alloc`. */
    method Walk(root: nat, vpn: nat, alloc: bool) returns (found: bool, l: nat)
      requires Valid() && IsRoot(role, root)
      modifies `freelist, `tables, `data, `role, `hand
      ensures Valid() && hand == old(hand) && SameMaps(old(tables), old(role), tables, role)
      ensures NewUnder(old(role), role, root)
      ensures Kept(old(data), data, holder.Keys + hand)
      ensures found ==>
                vpn < MAX_VPN && l in role && role[l].level == 0 && role[l].root == root
                  && role[l].prefix == Shift(vpn, 1)
      ensures !found && alloc ==> vpn >= MAX_VPN || freelist == []
      ensures !alloc ==> freelist == old(freelist) && tables == old(tables) && data == old(data) && role == old(role)
      ensures !found ==> Mapped(tables, root, vpn) == Invalid
      ensures found <==>
                vpn < MAX_VPN && Lacking(old(role), root, vpn, vpn + 1) <= if alloc then |old(freelist)| else 0
      ensures alloc && found ==> Spent(old(role), |old(freelist)|, role, |freelist|, root, vpn, vpn + 1, 0)
    {
      hide Account, AllHeld, SameMaps, Tree, Kept, Descended, Spots, Spent, Lacking;
      l, found := root, false;
      KeptSame(data, holder.Keys + hand);
      SameMapsReflexive(tables, role);
      if vpn >= MAX_VPN {
        return;
      }
      NoTopBits(vpn);
      RootFacts(tables, role, root);
      var level := 2;
      ghost var hung := false;   // whether a table has been made
      DescendStart(Spots(role, root), |freelist|, vpn);
      while level > 0
        invariant level <= 2 && Valid() && hand == old(hand) && SameMaps(old(tables), old(role), tables, role)
        invariant NewUnder(old(role), role, root) && IsRoot(role, root)
        invariant Kept(old(data), data, holder.Keys + hand)
        invariant l in role && role[l].level == level && role[l].root == root && role[l].prefix == Shift(vpn, level + 1)
        invariant !alloc ==>
                    freelist == old(freelist) && tables == old(tables) && data == old(data) && role == old(role)
        invariant if hung then alloc && Mapped(tables, root, vpn) == Invalid
                  else Lookup(tables, root, 2, vpn) == Lookup(tables, l, level, vpn)
        invariant Descended(Spots(old(role), root), |old(freelist)|, Spots(role, root), |freelist|, vpn, level)
      {
        ChildFacts(tables, role, l, vpn);
        EntryIffSpot(tables, role, l, vpn);
        ghost var f1, spots1 := |freelist|, Spots(role, root);
        var k := Px(level, vpn);
        var e := tables[l][k];
        if e.Valid? {
          l := e.ppn;
        } else {
          if !alloc {
            SpotLacking(role, root, vpn, level);
            return;
          }
          ghost var t1, r1, d1 := tables, role, data;
          var page := NewTable(l, k);
          KeptTransitive(old(data), d1, data, holder.Keys + hand);
          if page == 0 {
            DescendStuck(Spots(old(role), root), |old(freelist)|, spots1, f1, vpn, level);
            PathCost(old(role), root, vpn);
            return;
          }
          SpotAdded(r1, l, k, page);
          SameAt(t1, r1, tables, role, root, vpn);
          hung := true;
          SameMapsTransitive(old(tables), old(role), t1, r1, tables, role);
          l := page;
        }
        DescendStep(Spots(old(role), root), |old(freelist)|, spots1, f1, Spots(role, root), |freelist|, vpn, level);
        level := level - 1;
      }
      DescendDone(old(role), |old(freelist)|, role, |freelist|, root, vpn);
      SpentCost(old(role), |old(freelist)|, role, |freelist|, root, vpn, vpn + 1, 0);
      found := true;
    }

    /** One turn of mappages' loop. */
    method MapOne(root: nat, vpn: nat, ppn: nat, perm: Perm) returns (out: Outcome)
      requires Valid() && IsRoot(role, root) && perm.Leaf()
      modifies `freelist, `tables, `data, `role, `hand
      ensures Valid() && hand == old(hand) && Kept(old(data), data, holder.Keys + hand)
      ensures SameElsewhere(old(tables), old(role), tables, role, root, vpn, if out.Done? then vpn + 1 else vpn)
      ensures out.Panic? <==> Mapped(old(tables), root, vpn).Valid?
      ensures out.Done? ==> vpn < MAX_VPN && Mapped(tables, root, vpn) == Pte.Valid(ppn, perm)
      ensures out.NoMemory? ==> vpn >= MAX_VPN || freelist == []
      ensures out.NoMemory? <==> vpn >= MAX_VPN || |old(freelist)| < Lacking(old(role), root, vpn, vpn + 1)
      ensures out.Done? ==> Spent(old(role), |old(freelist)|, role, |freelist|, root, vpn, vpn + 1, 0)
    {
      hide Account, AllHeld, SameMaps, SameElsewhere, Tree, SetEntry, Spent, Lacking;
      var found, l := Walk(root, vpn, true);
      Everywhere(old(tables), old(role), tables, role, root, vpn);
      SameAt(old(tables), old(role), tables, role, root, vpn);
      if !found {
        return NoMemory;
      }
      ghost var t1 := tables;
      var e := Pte.Valid(ppn, perm);
      WriteEntry(tables, role, l, vpn, e);
      if tables[l][Px(0, vpn)].Valid? {
        return Panic;
      }
      NobodyThere(tables, role, holder, root, vpn);
      tables := SetEntry(tables, l, Px(0, vpn), e);
      ElsewhereHeld(t1, role, tables, role, holder, root, vpn, vpn + 1);
      Widen(old(tables), old(role), t1, role, root, vpn, vpn, vpn, vpn + 1);
      Compose(old(tables), old(role), t1, role, tables, role, root, vpn, vpn + 1);
      out := Done;
    }

    /** mappages over the pages a byte range touches. It stops at the first page that finds no table or is
        mapped already; the `n` pages before it were free and stay mapped. */
    method Mappages(root: nat, va: nat, size: nat, pa: nat, perm: Perm) returns (out: Outcome, ghost n: nat)
      requires Valid() && IsRoot(role, root) && perm.Leaf()
      modifies `freelist, `tables, `data, `role, `hand
      ensures Valid() && hand == old(hand) && Kept(old(data), data, holder.Keys + hand)
      ensures size == 0 ==> out.Panic? && n == 0
      ensures var a, end := va / PGSIZE, (va + size - 1) / PGSIZE + 1;
              && Run(tables, root, a, a + n, pa / PGSIZE, perm) && AllFree(old(tables), root, a, a + n)
              && SameElsewhere(old(tables), old(role), tables, role, root, a, a + n)
              && (size > 0 ==>
                    && a + n <= end
                    && (out.Done? <==> a + n == end)
                    && (out.Panic? <==> a + n < end && Mapped(old(tables), root, a + n).Valid?)
                    && (out.NoMemory? ==> end > MAX_VPN || freelist == [])
                    && (out.NoMemory? ==> end > MAX_VPN || |old(freelist)| < Lacking(old(role), root, a, end))
                    && (out.Done? ==>
                          end <= MAX_VPN && Spent(old(role), |old(freelist)|, role, |freelist|, root, a, end, 0)))
    {
      hide Account, AllHeld, SameMaps, SameElsewhere, Tree, AllFree, Run, Mapped, Kept, IsRoot, Spent, Lacking;
      var first := va / PGSIZE;
      var a, ppn := first, pa / PGSIZE;
      n := 0;
      RunStart(tables, role, root, first, ppn, perm, data, holder.Keys + hand);
      if size == 0 {
        return Panic, n;
      }
      var last := (va + size - 1) / PGSIZE;
      SpentStart(role, |freelist|, root, first);
      while true
        invariant first <= a == first + n <= last && ppn == pa / PGSIZE + n
        invariant Valid() && IsRoot(role, root) && hand == old(hand) && Kept(old(data), data, holder.Keys + hand)
        invariant Run(tables, root, first, a, pa / PGSIZE, perm) && AllFree(old(tables), root, first, a)
        invariant SameElsewhere(old(tables), old(role), tables, role, root, first, a)
        invariant Spent(old(role), |old(freelist)|, role, |freelist|, root, first, a, 0)
        decreases last - a
      {
        ghost var t1, r1, d1, f1 := tables, role, data, |freelist|;
        NextFree(old(tables), old(role), tables, role, root, first, a);
        out := MapOne(root, a, ppn, perm);
        KeptTransitive(old(data), d1, data, holder.Keys + hand);
        if !out.Done? {
          StillRun(t1, r1, tables, role, root, first, a, pa / PGSIZE, perm);
          Widen(t1, r1, tables, role, root, a, a, first, a);
          Compose(old(tables), old(role), t1, r1, tables, role, root, first, a);
          if out.NoMemory? && a < MAX_VPN {
            SpentFails(old(role), |old(freelist)|, r1, f1, root, first, a, last + 1, 0, 0);
          }
          return;
        }
        SpentNext(old(role), |old(freelist)|, r1, f1, role, |freelist|, root, first, a, 0, 0);
        RunNext(t1, r1, tables, role, root, first, a, pa / PGSIZE, perm);
        Widen(t1, r1, tables, role, root, a, a + 1, first, a + 1);
        Widen(old(tables), old(role), t1, r1, root, first, a, first, a + 1);
        Compose(old(tables), old(role), t1, r1, tables, role, root, first, a + 1);
        n := n + 1;
        if a == last {
          return;
        }
        a, ppn := a + 1, ppn + 1;
      }
    }

    /** One turn of uvmunmap's loop: none of its three panics is reached. */
    method UnmapOne(root: nat, vpn: nat, doFree: bool)
      requires Valid() && IsRoot(role, root) && Removable(tables, holder, root, vpn, doFree)
      modifies `freelist, `tables, `data, `holder, `hand, `role
      ensures Valid() && hand == old(hand) && role == old(role) && holder == Released(old(holder), root, vpn, vpn + 1)
      ensures Mapped(tables, root, vpn) == Invalid && SameElsewhere(old(tables), role, tables, role, root, vpn, vpn + 1)
      ensures Kept(old(data), data, holder.Keys + hand)
    {
      hide Account, AllHeld, SameElsewhere, SameMaps, Tree, SetEntry, Released, Lacking, Spent;
      var found, l := Walk(root, vpn, false);
      assert found;
      WriteEntry(tables, role, l, vpn, Invalid);
      var e := tables[l][Px(0, vpn)];
      assert e.Valid? && e.perm != TABLE;
      ReleasedHeld(tables, role, SetEntry(tables, l, Px(0, vpn), Invalid), holder, root, vpn, vpn + 1);
      if doFree {
        ReleaseOne(tables, role, holder, root, vpn);
        TakeBack(lo, hi, freelist, role, holder, hand, e.ppn);
        holder, hand := holder - {e.ppn}, hand + {e.ppn};
        var _ := Kfree(e.ppn);
      } else {
        ReleaseNone(tables, role, holder, root, vpn);
      }
      tables := SetEntry(tables, l, Px(0, vpn), Invalid);
    }

    /** uvmunmap: exactly these pages leave the address space; with do_free they are free again. */
    method Uvmunmap(root: nat, vpn: nat, npages: nat, doFree: bool)
      requires Valid() && IsRoot(role, root) && AllRemovable(tables, holder, root, vpn, vpn + npages, doFree)
      modifies `freelist, `tables, `data, `holder, `hand, `role
      ensures Valid() && hand == old(hand) && role == old(role)
      ensures holder == Released(old(holder), root, vpn, vpn + npages)
      ensures AllFree(tables, root, vpn, vpn + npages)
      ensures SameElsewhere(old(tables), role, tables, role, root, vpn, vpn + npages)
      ensures Kept(old(data), data, holder.Keys + hand)
    {
      hide Account, AllHeld, SameElsewhere, Tree, Released, AllRemovable, AllFree, Removable, Kept, Mapped, IsRoot;
      var a := vpn;
      UnmapStart(tables, role, holder, root, vpn, data, holder.Keys + hand);
      while a < vpn + npages
        invariant vpn <= a <= vpn + npages && Valid() && IsRoot(role, root) && hand == old(hand) && role == old(role)
        invariant holder == Released(old(holder), root, vpn, a)
        invariant AllRemovable(tables, holder, root, a, vpn + npages, doFree) && AllFree(tables, root, vpn, a)
        invariant SameElsewhere(old(tables), role, tables, role, root, vpn, a)
        invariant Kept(old(data), data, holder.Keys + hand)
      {
        ghost var t1, h1, d1 := tables, holder, data;
        RemovableAt(tables, holder, root, a, vpn + npages, doFree);
        UnmapOne(root, a, doFree);
        ReleaseMore(old(holder), root, vpn, a);
        ReleasedFewer(h1, root, a, a + 1);
        KeptFewer(old(data), d1, h1.Keys + hand, holder.Keys + hand);
        KeptTransitive(old(data), d1, data, holder.Keys + hand);
        RemovableStill(t1, role, h1, tables, role, holder, root, a, vpn + npages, doFree);
        FreeNext(t1, role, tables, role, root, vpn, a);
        Widen(t1, role, tables, role, root, a, a + 1, vpn, a + 1);
        Widen(old(tables), role, t1, role, root, vpn, a, vpn, a + 1);
        Compose(old(tables), role, t1, role, tables, role, root, vpn, a + 1);
        a := a + 1;
      }
    }

    method Uvmcreate() returns (root: nat)
      requires Valid()
      modifies `freelist, `tables, `data, `role, `hand
      ensures Valid() && hand == old(hand) && (root == 0 <==> old(freelist) == [])
      ensures SameMaps(old(tables), old(role), tables, role) && Kept(old(data), data, holder.Keys + hand)
      ensures root == 0 ==> freelist == old(freelist) && role == old(role)
      ensures root != 0 ==>
                root !in old(role) && role == old(role)[root := Role(root, 2, 0, root, 0)] && IsRoot(role, root)
      ensures root != 0 ==> AllFree(tables, root, 0, MAX_VPN) && old(freelist) == [root] + freelist
    {
      hide Account, AllHeld, SameMaps, Tree, AllFree;
      SameMapsReflexive(tables, role);
      root := Kalloc();
      if root != 0 {
        NewSpace(tables, role, holder, root);
        GiveTable(lo, hi, freelist, role, holder, hand, root, Role(root, 2, 0, root, 0));
        tables := tables[root := EmptyTable()];
        role := role[root := Role(root, 2, 0, root, 0)];
        hand := hand - {root};
      }
    }

    /** A fresh page with these contents, in hand; 0 when there is none. */
    method NewPage(content: Page) returns (mem: nat)
      requires Valid()
      modifies `freelist, `data, `hand
      ensures Valid() && Kept(old(data), data, holder.Keys + old(hand))
      ensures mem == 0 ==> hand == old(hand) && freelist == old(freelist) == []
      ensures mem != 0 ==> old(freelist) == [mem] + freelist
      ensures mem != 0 ==> hand == old(hand) + {mem} && mem !in old(hand) && mem !in holder
      ensures mem != 0 ==> mem in data && data[mem] == content
    {
      hide Account, AllHeld, Tree, Kept;
      KeptSame(data, holder.Keys + hand);
      mem := Kalloc();
      if mem != 0 {
        data := data[mem := content];
        KeptBut(old(data), data, holder.Keys + old(hand), mem);
      }
    }

    /** A fresh page with these contents, mapped at one page number or given back. */
    method PlaceOne(root: nat, vpn: nat, content: Page, perm: Perm) returns (ok: bool)
      requires Valid() && IsRoot(role, root) && Mapped(tables, root, vpn) == Invalid && perm.Leaf()
      modifies `freelist, `tables, `data, `role, `holder, `hand
      ensures Valid() && hand == old(hand) && Kept(old(data), data, old(holder).Keys + hand)
      ensures !ok ==> holder == old(holder) && SameElsewhere(old(tables), old(role), tables, role, root, vpn, vpn)
      ensures ok ==> SameElsewhere(old(tables), old(role), tables, role, root, vpn, vpn + 1) && vpn < MAX_VPN
      ensures ok ==> Placed(tables, old(holder), holder, data, root, vpn, content, perm)
      ensures ok <==> vpn < MAX_VPN && 1 + Lacking(old(role), root, vpn, vpn + 1) <= |old(freelist)|
      ensures ok ==> Spent(old(role), |old(freelist)|, role, |freelist|, root, vpn, vpn + 1, 1)
    {
      hide Account, AllHeld, SameMaps, SameElsewhere, Tree, Mapped, Kept, IsRoot, Run, AllFree, Placed, Spent, Lacking;
      ghost var s0 := holder.Keys + hand;
      var mem := NewPage(content);
      if mem == 0 {
        UnmapStart(tables, role, holder, root, vpn, data, s0);
        return false;
      }
      OnePage(vpn);
      ghost var d1 := data;
      var out, n := Mappages(root, vpn * PGSIZE, PGSIZE, mem * PGSIZE, perm);
      KeptFewer(d1, data, holder.Keys + hand, s0);
      KeptTransitive(old(data), d1, data, s0);
      KeptAt(d1, data, holder.Keys + hand, mem);
      ok := out.Done?;
      if ok {
        SpentCost(old(role), |old(freelist)| - 1, role, |freelist|, root, vpn, vpn + 1, 0);
        OtherRoot(old(tables), old(role), tables, role, root, vpn, vpn + 1, root);
        Keep(root, vpn, content, perm, mem);
      } else {
        ghost var d2 := data;
        var _ := Kfree(mem);
        KeptBut(d2, data, s0, mem);
        KeptTransitive(old(data), d2, data, s0);
      }
    }

    /** The page in hand becomes the user page it is mapped as. */
    ghost method Keep(root: nat, vpn: nat, content: Page, perm: Perm, mem: nat)
      requires Valid() && mem in hand && mem in data && data[mem] == content && vpn < MAX_VPN && perm.Leaf()
      requires IsRoot(role, root) && Run(tables, root, vpn, vpn + 1, mem, perm)
      modifies `holder, `hand
      ensures Valid() && hand == old(hand) - {mem}
      ensures Placed(tables, old(holder), holder, data, root, vpn, content, perm)
    {
      hide Account, AllHeld, Tree, IsRoot, Run;
      HandFacts(lo, hi, freelist, role, holder, hand, mem);
      RunAt(tables, root, vpn, mem, perm);
      HoldOne(lo, hi, freelist, tables, role, holder, hand, root, vpn, mem);
      holder, hand := holder[mem := Place(root, vpn)], hand - {mem};
    }

    /** uvmdealloc: the pages between the two sizes, rounded up, are given up. */
    method Uvmdealloc(root: nat, oldsz: nat, newsz: nat) returns (sz: nat)
      requires Valid() && IsRoot(role, root) && AllUser(tables, holder, root, Up(newsz), Up(oldsz))
      modifies `freelist, `tables, `data, `holder, `hand, `role
      ensures Valid() && hand == old(hand) && role == old(role)
      ensures sz == if newsz >= oldsz then oldsz else newsz
      ensures holder == Released(old(holder), root, Up(newsz), Up(oldsz))
      ensures AllFree(tables, root, Up(newsz), Up(oldsz))
      ensures SameElsewhere(old(tables), role, tables, role, root, Up(newsz), Up(oldsz))
      ensures Kept(old(data), data, holder.Keys + hand)
    {
      hide Account, AllHeld, SameElsewhere, Tree, Mapped, Kept, IsRoot, AllFree, AllUser, Released;
      NothingBetween(tables, role, holder, data, root, Up(newsz), Up(oldsz), holder.Keys + hand);
      if newsz >= oldsz {
        return oldsz;
      }
      if Up(newsz) < Up(oldsz) {
        UserRemovable(tables, holder, root, Up(newsz), Up(oldsz));
        Uvmunmap(root, Up(newsz), Up(oldsz) - Up(newsz), true);
      }
      return newsz;
    }

    /** uvmalloc: all new pages, or no change of any mapping and every data page given back. */
    method Uvmalloc(root: nat, oldsz: nat, newsz: nat, perm: Perm) returns (ok: bool, sz: nat)
      requires Valid() && IsRoot(role, root) && perm.Leaf() && AllFree(tables, root, Up(oldsz), Up(newsz))
      modifies `freelist, `tables, `data, `role, `holder, `hand
      ensures Valid() && hand == old(hand) && Kept(old(data), data, old(holder).Keys + hand)
      ensures sz == if newsz < oldsz then oldsz else if ok then newsz else 0
      ensures newsz < oldsz ==> ok && tables == old(tables) && role == old(role) && holder == old(holder)
      ensures !ok ==>
                holder == old(holder) && SameMaps(old(tables), old(role), tables, role)
                  && NewUnder(old(role), role, root)
      ensures ok && newsz >= oldsz ==>
                var n := Up(newsz) - Up(oldsz);
                && Loaded(old(holder), tables, holder, data, root, Up(oldsz), Up(newsz), Repeat(Filled(0), n),
                          Repeat(perm, n))
                && SameElsewhere(old(tables), old(role), tables, role, root, Up(oldsz), Up(newsz))
                && |freelist| == |old(freelist)| - Need(old(role), root, Up(oldsz), Up(newsz))
      ensures ok <==> || newsz < oldsz || Up(newsz) == Up(oldsz)
                      || (Up(newsz) <= MAX_VPN && Need(old(role), root, Up(oldsz), Up(newsz)) <= |old(freelist)|)
    {
      hide Account, AllHeld, SameElsewhere, SameMaps, Tree, Mapped, Kept, IsRoot, AllFree, Loaded, Placed, Filled,
           Progress, Up, Spent, Lacking;
      ok, sz := true, oldsz;
      UnmapStart(tables, role, holder, root, 0, data, holder.Keys + hand);
      if newsz < oldsz {
        return;
      }
      UpMono(oldsz, newsz);
      var first := Up(oldsz);
      ghost var end := Up(newsz);
      ghost var contents, perms := Repeat(Filled(0), end - first), Repeat(perm, end - first);
      ProgressStart(tables, role, holder, data, hand, root, first, end, contents, perms);
      SpentStart(role, |freelist|, root, first);
      var a := first;
      while a * PGSIZE < newsz
        invariant Valid() && hand == old(hand) && first <= a <= end
        invariant Progress(old(tables), old(role), old(holder), old(data), tables, role, holder, data, hand, root,
                           first, a, end, contents, perms)
        invariant Spent(old(role), |old(freelist)|, role, |freelist|, root, first, a, a - first)
        invariant ok && (a > first ==> a <= MAX_VPN)
        decreases end - a
      {
        UpBound(a, newsz);
        ghost var t1, r1, h1, d1, f1 := tables, role, holder, data, |freelist|;
        ProgressAt(old(tables), old(role), old(holder), old(data), tables, role, holder, data, hand, root, first, a,
                   end, contents, perms);
        ok := PlaceOne(root, a, Filled(0), perm);
        if !ok {
          ProgressSame(old(tables), old(role), old(holder), old(data), t1, r1, holder, d1, tables, role, data, hand,
                       root, first, a, end, contents, perms);
          ghost var t2, r2, h2, d2 := tables, role, holder, data;
          ProgressUser(old(tables), old(role), old(holder), old(data), tables, role, holder, data, hand, root, first,
                       a, end, contents, perms);
          UpExact(first);
          UpExact(a);
          var _ := Uvmdealloc(root, a * PGSIZE, first * PGSIZE);
          ProgressUndone(old(tables), old(role), old(holder), old(data), t2, r2, h2, d2, tables, holder, data, hand,
                         root, first, a, end, contents, perms);
          if a < MAX_VPN {
            SpentFails(old(role), |old(freelist)|, r1, f1, root, first, a, end, a - first, 1);
          }
          sz := 0;
          return;
        }
        SpentNext(old(role), |old(freelist)|, r1, f1, role, |freelist|, root, first, a, a - first, 1);
        ProgressNext(old(tables), old(role), old(holder), old(data), t1, r1, h1, d1, tables, role, holder, data, hand,
                     root, first, a, end, contents, perms);
        a := a + 1;
      }
      UpBound(a, newsz);
      ProgressDone(old(tables), old(role), old(holder), old(data), tables, role, holder, data, hand, root, first, end,
                   contents, perms);
      SpentCost(old(role), |old(freelist)|, role, |freelist|, root, first, end, end - first);
      sz := newsz;
    }

    /** freewalk: the table pages at and under `p` are free again, and its panic is not reached. */
    method Freewalk(p: nat, ghost loose: map<nat, nat>)
      requires Sound() && Cut(tables, role, loose, p)
      modifies `freelist, `tables, `data, `role, `hand
      ensures Sound() && hand == old(hand) && Kept(old(data), data, holder.Keys + hand)
      ensures role == Pruned(old(role), p) && Tree(tables, role, loose - {p})
      ensures forall q :: q in role ==> q in old(tables) && q in tables && tables[q] == old(tables)[q]
      decreases role[p].level
    {
      hide Account, Tree, Cut, Walked, Kept, Pruned;
      ghost var t0, r0, d0, s0 := tables, role, data, holder.Keys + hand;
      CutFacts(tables, role, loose, p);
      WalkStart(tables, role, loose, p);
      KeptSame(data, s0);
      var i := 0;
      while i < ENTRIES
        invariant 0 <= i <= ENTRIES && Sound() && hand == old(hand) && Kept(d0, data, s0)
        invariant Walked(t0, r0, loose, p, i, tables, role)
      {
        WalkedFacts(t0, r0, loose, p, i, tables, role);
        var e := tables[p][i];
        if e.Valid? && !e.perm.Leaf() {
          ChildEntry(t0, r0, loose, p, i, tables, role);
          ChildCut(t0, r0, loose, p, i, tables, role, e.ppn);
          ghost var t1, r1, d1 := tables, role, data;
          Freewalk(e.ppn, loose[p := i + 1][e.ppn := 0]);
          KeptTransitive(d0, d1, data, s0);
          ChildDone(t0, r0, loose, p, i, t1, r1, e.ppn, tables, role);
          tables := SetEntry(tables, p, i, Invalid);
        } else if e.Valid? {
          ChildEntry(t0, r0, loose, p, i, tables, role);
          assert false;
        } else {
          StepEmpty(t0, r0, loose, p, i, tables, role);
        }
        i := i + 1;
      }
      WalkDone(t0, r0, loose, p, tables, role);
      TableBack(lo, hi, freelist, role, holder, hand, p);
      ghost var d2 := data;
      role, hand := role - {p}, hand + {p};
      var _ := Kfree(p);
      KeptBut(d2, data, s0, p);
      KeptTransitive(d0, d2, data, s0);
    }

    /** uvmfree: of this address space nothing is left, and no other is touched. */
    method Uvmfree(root: nat, sz: nat)
      requires Valid() && IsRoot(role, root)
      requires AllUser(tables, holder, root, 0, Up(sz)) && AllFree(tables, root, Up(sz), MAX_VPN)
      modifies `freelist, `tables, `data, `role, `holder, `hand
      ensures Valid() && hand == old(hand) && holder == Released(old(holder), root, 0, Up(sz))
      ensures role == Others(old(role), root)
      ensures forall r, v: nat :: IsRoot(role, r) ==> Mapped(tables, r, v) == Mapped(old(tables), r, v)
      ensures Kept(old(data), data, holder.Keys + hand)
    {
      hide Account, AllHeld, SameElsewhere, Tree, Mapped, Kept, IsRoot, AllFree, AllUser, Released, Cut, Others, Pruned;
      UnmapStart(tables, role, holder, root, 0, data, holder.Keys + hand);
      if sz > 0 {
        UserRemovable(tables, holder, root, 0, Up(sz));
        Uvmunmap(root, 0, Up(sz), true);
      }
      ghost var t1, r1, d1 := tables, role, data;
      NothingMapped(old(tables), tables, role, root, Up(sz));
      ReadyToWalk(tables, role, root);
      Freewalk(root, map[root := 0]);
      KeptTransitive(old(data), d1, data, holder.Keys + hand);
      SpaceGone(old(tables), t1, r1, tables, role, holder, root, Up(sz));
    }

    /** uvmcopy: the child's pages are copies of the parent's, or nothing is mapped and no page is kept. */
    method Uvmcopy(parent: nat, child: nat, sz: nat) returns (ok: bool)
      requires Valid() && IsRoot(role, parent) && IsRoot(role, child) && parent != child
      requires AllUser(tables, holder, parent, 0, Up(sz)) && AllFree(tables, child, 0, Up(sz))
      modifies `freelist, `tables, `data, `role, `holder, `hand
      ensures Valid() && hand == old(hand) && Kept(old(data), data, old(holder).Keys + hand)
      ensures !ok ==>
                holder == old(holder) && SameMaps(old(tables), old(role), tables, role)
                  && NewUnder(old(role), role, child)
      ensures ok ==>
                && Loaded(old(holder), tables, holder, data, child, 0, Up(sz),
                          Contents(old(tables), old(data), parent, Up(sz)), Perms(old(tables), parent, Up(sz)))
                && SameElsewhere(old(tables), old(role), tables, role, child, 0, Up(sz))
                && |freelist| == |old(freelist)| - Need(old(role), child, 0, Up(sz))
      ensures ok <==> Need(old(role), child, 0, Up(sz)) <= |old(freelist)|
    {
      hide Account, AllHeld, SameElsewhere, SameMaps, Tree, Mapped, Kept, IsRoot, AllFree, AllUser, Loaded, Placed,
           Progress, Up, Contents, Perms, Spent, Lacking;
      ghost var end := Up(sz);
      ghost var contents, perms := Contents(tables, data, parent, end), Perms(tables, parent, end);
      HeldHaveData(lo, hi, freelist, role, holder, hand, data);
      ProgressStart(tables, role, holder, data, hand, child, 0, end, contents, perms);
      SpentStart(role, |freelist|, child, 0);
      var a := 0;
      while a * PGSIZE < sz
        invariant Valid() && hand == old(hand) && 0 <= a <= end && IsRoot(role, parent)
        invariant Progress(old(tables), old(role), old(holder), old(data), tables, role, holder, data, hand, child, 0,
                           a, end, contents, perms)
        invariant Spent(old(role), |old(freelist)|, role, |freelist|, child, 0, a, a)
        decreases end - a
      {
        UpBound(a, sz);
        ghost var t1, r1, h1, d1, f1 := tables, role, holder, data, |freelist|;
        ProgressAt(old(tables), old(role), old(holder), old(data), tables, role, holder, data, hand, child, 0, a, end,
                   contents, perms);
        CopySource(old(tables), old(role), old(holder), old(data), tables, role, holder, data, hand, parent, child, a,
                   end, contents, perms);
        var found, l := Walk(parent, a, false);
        assert found;
        WriteEntry(tables, role, l, a, Invalid);
        var e := tables[l][Px(0, a)];
        ok := PlaceOne(child, a, data[e.ppn], e.perm);
        if !ok {
          ProgressSame(old(tables), old(role), old(holder), old(data), t1, r1, holder, d1, tables, role, data, hand,
                       child, 0, a, end, contents, perms);
          ghost var t2, r2, h2, d2 := tables, role, holder, data;
          ProgressUser(old(tables), old(role), old(holder), old(data), tables, role, holder, data, hand, child, 0, a,
                       end, contents, perms);
          UserRemovable(tables, holder, child, 0, a);
          Uvmunmap(child, 0, a, true);
          ProgressUndone(old(tables), old(role), old(holder), old(data), t2, r2, h2, d2, tables, holder, data, hand,
                         child, 0, a, end, contents, perms);
          SpentFails(old(role), |old(freelist)|, r1, f1, child, 0, a, end, a, 1);
          return;
        }
        SpentNext(old(role), |old(freelist)|, r1, f1, role, |freelist|, child, 0, a, a, 1);
        ProgressNext(old(tables), old(role), old(holder), old(data), t1, r1, h1, d1, tables, role, holder, data, hand,
                     child, 0, a, end, contents, perms);
        OtherRoot(t1, r1, tables, role, child, a, a + 1, parent);
        a := a + 1;
      }
      UpBound(a, sz);
      ProgressDone(old(tables), old(role), old(holder), old(data), tables, role, holder, data, hand, child, 0, end,
                   contents, perms);
      SpentCost(old(role), |old(freelist)|, role, |freelist|, child, 0, end, end);
      ok := true;
    }

    /** Creating an address space, growing it and freeing it gives every page back, whether or not the
        growth succeeded. */
    method CreateGrowFree(sz: nat, perm: Perm) returns (ok: bool)
      requires Valid() && perm.Leaf()
      modifies `freelist, `tables, `data, `role, `holder, `hand
      ensures Valid() && hand == old(hand) && role == old(role) && holder == old(holder)
      ensures forall p :: p in freelist <==> p in old(freelist)
      ensures ok <==> var n := Up(sz);
                      n <= MAX_VPN && 1 + n + (n + 511) / 512 + (n + 262143) / 262144 <= |old(freelist)|
    {
      hide Account, AllHeld, SameElsewhere, SameMaps, Tree, Mapped, Kept, IsRoot, AllFree, AllUser, Loaded, Released,
           Up, Others, NewUnder, Need;
      RootsThere(tables, role);
      var root := Uvmcreate();
      if root == 0 {
        return false;
      }
      ghost var t1, r1, h1 := tables, role, holder;
      UpExact(0);
      BelowMax(tables, root, Up(sz));
      var sz1;
      NeedFromZero(old(role), Role(root, 2, 0, root, 0), root, Up(sz));
      ok, sz1 := Uvmalloc(root, 0, sz, perm);
      if ok {
        GrownSpace(t1, r1, h1, tables, role, holder, data, root, Up(sz), Repeat(Filled(0), Up(sz)),
                   Repeat(perm, Up(sz)));
        OthersBack(old(role), r1, role, root);
        Uvmfree(root, sz);
      } else {
        FailedSpace(t1, r1, tables, role, holder, root);
        OthersBack(old(role), r1, role, root);
        Uvmfree(root, 0);
      }
      SameFree(lo, hi, old(freelist), freelist, role, holder, hand);
    }

    /** A table page for an empty entry; 0 when there is no page. */
    method NewTable(p: nat, k: nat) returns (page: nat)
      requires Valid() && p in role && role[p].level > 0 && p in tables && k < |tables[p]| == ENTRIES
      requires tables[p][k] == Invalid && role[p].prefix * ENTRIES + k < Bound(role[p].level - 1)
      modifies `freelist, `tables, `data, `role, `hand
      ensures Valid() && hand == old(hand) && Kept(old(data), data, holder.Keys + hand)
      ensures SameMaps(old(tables), old(role), tables, role)
      ensures page == 0 ==> freelist == old(freelist) == [] && tables == old(tables) && role == old(role)
      ensures page != 0 ==> page !in old(role) && role == old(role)[page := NewRole(old(role), p, k)]
      ensures page != 0 ==> old(freelist) == [page] + freelist
    {
      hide Account, AllHeld, Tree, SameMaps, Kept;
      SameMapsReflexive(tables, role);
      KeptSame(data, holder.Keys + hand);
      page := Kalloc();
      if page != 0 {
        KeptBut(old(data), data, holder.Keys + old(hand), page);
        Hang(p, k, page);
      }
    }

    /** walk's new table: zeroed and pointed to. */
    method Hang(p: nat, k: nat, page: nat)
      requires Valid() && p in role && role[p].level > 0 && p in tables && k < |tables[p]| == ENTRIES
      requires tables[p][k] == Invalid && page in hand && role[p].prefix * ENTRIES + k < Bound(role[p].level - 1)
      modifies `tables, `role, `hand
      ensures Valid() && hand == old(hand) - {page} && page !in old(role)
      ensures role == old(role)[page := NewRole(old(role), p, k)]
      ensures SameMaps(old(tables), old(role), tables, role)
    {
      hide Account, AllHeld, Tree, SameMaps, WithTable, SetEntry;
      HandFacts(lo, hi, freelist, role, holder, hand, page);
      WithTableTree(tables, role, p, k, page);
      WithTableMaps(tables, role, p, k, page);
      SameMapsHeld(tables, role, WithTable(tables, p, k, page), role[page := NewRole(role, p, k)], holder);
      GiveTable(lo, hi, freelist, role, holder, hand, page, NewRole(role, p, k));
      EntryThenTable(tables, p, k, page);
      tables := tables[page := EmptyTable()];
      tables := SetEntry(tables, p, k, Pte.Valid(page, TABLE));
      role := role[page := NewRole(role, p, k)];
      hand := hand - {page};
    }
  }
}
