/** What user address spaces and the pages they hold look like to vm.c: who owns a page, which
    mappings an operation may change, and how far a loop over pages has come. */
module AddressSpace {
  import opened Seqs
  import opened PageTable

  const PGSIZE: nat := 4096

  type Page = seq<bv8>

  function Filled(b: bv8): Page {
    seq(PGSIZE, _ => b)
  }

  /** PGROUNDUP, in pages. */
  function Up(sz: nat): nat {
    (sz + PGSIZE - 1) / PGSIZE
  }

  /** The user page number that holds a physical page. */
  datatype Place = Place(root: nat, vpn: nat)

  /** Each page is accounted for exactly once. */
  ghost predicate Account(lo: nat, hi: nat, freelist: seq<nat>, role: Roles, holder: map<nat, Place>, hand: set<nat>) {
    && Distinct(freelist) && role.Keys !! holder.Keys !! hand
    && (forall p :: p in freelist ==> p !in role && p !in holder && p !in hand)
    && (forall p :: lo <= p < hi <==> p in freelist || p in role || p in holder || p in hand)
  }

  lemma PopFree(lo: nat, hi: nat, freelist: seq<nat>, role: Roles, holder: map<nat, Place>, hand: set<nat>)
    requires Account(lo, hi, freelist, role, holder, hand) && freelist != []
    ensures var p := freelist[0];
            && lo <= p < hi && p !in role && p !in holder && p !in hand && freelist == [p] + freelist[1..]
            && Account(lo, hi, freelist[1..], role, holder, hand + {p})
  {
    var p, rest := freelist[0], freelist[1..];
    assert freelist == [p] + rest;
    assert p in freelist && p !in rest;
    forall q ensures q in freelist <==> q == p || q in rest {}
  }

  lemma InHand(lo: nat, hi: nat, freelist: seq<nat>, role: Roles, holder: map<nat, Place>, hand: set<nat>)
    requires Account(lo, hi, freelist, role, holder, hand)
    ensures forall p :: p in hand ==> lo <= p < hi
  {
  }

  lemma PushFree(lo: nat, hi: nat, freelist: seq<nat>, role: Roles, holder: map<nat, Place>, hand: set<nat>, p: nat)
    requires Account(lo, hi, freelist, role, holder, hand) && p in hand
    ensures Account(lo, hi, [p] + freelist, role, holder, hand - {p})
  {
    forall q ensures q in [p] + freelist <==> q == p || q in freelist {}
  }

  lemma SameFree(lo: nat, hi: nat, f0: seq<nat>, f1: seq<nat>, role: Roles, holder: map<nat, Place>, hand: set<nat>)
    requires Account(lo, hi, f0, role, holder, hand) && Account(lo, hi, f1, role, holder, hand)
    ensures forall p :: p in f0 <==> p in f1
  {
    forall p ensures p in f0 <==> p in f1 {
      assert p in f0 || p in f1 ==> lo <= p < hi;
    }
  }

  ghost predicate IsRoot(role: Roles, root: nat) {
    root in role && role[root].level == 2
  }

  /** A user page is mapped where its holder says. */
  ghost predicate Held(tables: Tables, role: Roles, holder: map<nat, Place>, q: nat)
    requires q in holder
  {
    var h := holder[q];
    var e := Mapped(tables, h.root, h.vpn);
    IsRoot(role, h.root) && h.vpn < MAX_VPN && e.Valid? && e.ppn == q && e.perm.Leaf()
  }

  ghost predicate AllHeld(tables: Tables, role: Roles, holder: map<nat, Place>) {
    forall q :: q in holder ==> Held(tables, role, holder, q)
  }

  /** No mapping of any existing address space has changed, and no table page has moved. */
  ghost predicate SameMaps(tables: Tables, role: Roles, tables': Tables, role': Roles) {
    && (forall q :: q in role ==> q in role' && role'[q] == role[q])
    && (forall r, v: nat :: IsRoot(role, r) ==> Mapped(tables', r, v) == Mapped(tables, r, v))
  }

  lemma SameMapsHeld(tables: Tables, role: Roles, tables': Tables, role': Roles, holder: map<nat, Place>)
    requires AllHeld(tables, role, holder) && SameMaps(tables, role, tables', role')
    ensures AllHeld(tables', role', holder)
  {
    forall q | q in holder ensures Held(tables', role', holder, q) { assert Held(tables, role, holder, q); }
  }

  /** The contents of these pages are kept. */
  ghost predicate Kept(data: map<nat, Page>, data': map<nat, Page>, pages: set<nat>) {
    forall q :: q in pages && q in data ==> q in data' && data'[q] == data[q]
  }

  function Range(a: nat, b: nat): (s: set<nat>)
    requires a <= b
    ensures forall p :: p in s <==> a <= p < b
    decreases b - a
  {
    if a == b then {} else {a} + Range(a + 1, b)
  }

  /** New table pages belong to one address space. */
  ghost predicate NewUnder(role: Roles, role': Roles, root: nat) {
    forall q :: q in role' && q !in role ==> role'[q].root == root
  }

  /** No mapping has changed but those of pages `a` to `b` of one address space. */
  ghost predicate SameElsewhere(tables: Tables, role: Roles, tables': Tables, role': Roles, root: nat, a: nat, b: nat) {
    && NewUnder(role, role', root)
    && (forall q :: q in role ==> q in role' && role'[q] == role[q])
    && (forall r, v: nat :: IsRoot(role, r) && !(r == root && a <= v < b) ==>
        Mapped(tables', r, v) == Mapped(tables, r, v))
  }

  lemma Compose(t0: Tables, r0: Roles, t1: Tables, r1: Roles, t2: Tables, r2: Roles, root: nat, a: nat, b: nat)
    requires SameElsewhere(t0, r0, t1, r1, root, a, b) && SameElsewhere(t1, r1, t2, r2, root, a, b)
    ensures SameElsewhere(t0, r0, t2, r2, root, a, b)
  {
    forall r, v: nat | IsRoot(r0, r) && !(r == root && a <= v < b) ensures Mapped(t2, r, v) == Mapped(t0, r, v) {
      assert IsRoot(r1, r);
      assert Mapped(t1, r, v) == Mapped(t0, r, v);
    }
  }

  lemma Widen(t0: Tables, r0: Roles, t1: Tables, r1: Roles, root: nat, a: nat, b: nat, a': nat, b': nat)
    requires SameElsewhere(t0, r0, t1, r1, root, a, b) && a' <= a && b <= b'
    ensures SameElsewhere(t0, r0, t1, r1, root, a', b')
  {
    forall r, v: nat | IsRoot(r0, r) && !(r == root && a' <= v < b') ensures Mapped(t1, r, v) == Mapped(t0, r, v) {
      assert !(r == root && a <= v < b);
    }
  }

  lemma Everywhere(t0: Tables, r0: Roles, t1: Tables, r1: Roles, root: nat, a: nat)
    requires NewUnder(r0, r1, root)
    ensures SameMaps(t0, r0, t1, r1) <==> SameElsewhere(t0, r0, t1, r1, root, a, a)
  {
    if SameElsewhere(t0, r0, t1, r1, root, a, a) {
      forall r, v: nat | IsRoot(r0, r) ensures Mapped(t1, r, v) == Mapped(t0, r, v) {
        assert !(r == root && a <= v < a);
      }
    }
  }

  /** Pages stay held when none of them is where mappings changed. */
  lemma ElsewhereHeld(tables: Tables, role: Roles, tables': Tables, role': Roles, holder: map<nat, Place>, root: nat,
                      a: nat, b: nat)
    requires AllHeld(tables, role, holder) && SameElsewhere(tables, role, tables', role', root, a, b)
    requires forall q :: q in holder && holder[q].root == root ==> !(a <= holder[q].vpn < b)
    ensures AllHeld(tables', role', holder)
  {
    forall q | q in holder ensures Held(tables', role', holder, q) { assert Held(tables, role, holder, q); }
  }

  /** Writing the entry a walk found. */
  lemma WriteEntry(tables: Tables, role: Roles, l: nat, vpn: nat, e: Pte)
    requires Tree(tables, role, map[]) && l in role && role[l].level == 0 && role[l].prefix == Shift(vpn, 1)
    requires vpn < MAX_VPN
    ensures l in tables && |tables[l]| == ENTRIES && IsRoot(role, role[l].root)
    ensures tables[l][Px(0, vpn)] == Mapped(tables, role[l].root, vpn)
    ensures var tables' := SetEntry(tables, l, Px(0, vpn), e);
            && Tree(tables', role, map[]) && Mapped(tables', role[l].root, vpn) == e
            && SameElsewhere(tables, role, tables', role, role[l].root, vpn, vpn + 1)
  {
    var root := role[l].root;
    SameSizes(tables, role);
    SetLeafTree(tables, role, l, Px(0, vpn), e);
    LeafReached(tables, role, l, vpn);
    RootFacts(tables, role, root);
    NoTopBits(vpn);
    Resolve(tables, role, root, vpn);
    SetLeafMapped(tables, role, l, vpn, e, root, vpn);
    hide Tree;
    var tables' := SetEntry(tables, l, Px(0, vpn), e);
    forall r, v: nat | IsRoot(role, r) && !(r == root && vpn <= v < vpn + 1)
      ensures Mapped(tables', r, v) == Mapped(tables, r, v)
    {
      SetLeafMapped(tables, role, l, vpn, e, r, v);
    }
  }

  lemma SameAt(t0: Tables, r0: Roles, t1: Tables, r1: Roles, root: nat, v: nat)
    requires SameMaps(t0, r0, t1, r1) && IsRoot(r0, root)
    ensures Mapped(t1, root, v) == Mapped(t0, root, v) && IsRoot(r1, root)
  {
  }

  ghost predicate AllFree(tables: Tables, root: nat, a: nat, b: nat) {
    forall v: nat :: a <= v < b ==> Mapped(tables, root, v) == Invalid
  }

  /** Pages `a` to `b` are mapped to consecutive physical pages. */
  ghost predicate Run(tables: Tables, root: nat, a: nat, b: nat, ppn: nat, perm: Perm) {
    forall v: nat :: a <= v < b ==> Mapped(tables, root, v) == Valid(ppn + (v - a), perm)
  }

  lemma RunNext(t0: Tables, r0: Roles, t1: Tables, r1: Roles, root: nat, a: nat, b: nat, ppn: nat, perm: Perm)
    requires Run(t0, root, a, b, ppn, perm) && a <= b && IsRoot(r0, root)
    requires SameElsewhere(t0, r0, t1, r1, root, b, b + 1) && Mapped(t1, root, b) == Valid(ppn + (b - a), perm)
    ensures Run(t1, root, a, b + 1, ppn, perm) && IsRoot(r1, root)
  {
    forall v: nat | a <= v < b + 1 ensures Mapped(t1, root, v) == Valid(ppn + (v - a), perm) {
      assert v < b ==> Mapped(t1, root, v) == Mapped(t0, root, v);
    }
  }

  /** What `SameElsewhere` says of the next page, and of the pages before it. */
  lemma NextFree(t0: Tables, r0: Roles, t1: Tables, r1: Roles, root: nat, a: nat, b: nat)
    requires SameElsewhere(t0, r0, t1, r1, root, a, b) && IsRoot(r0, root) && AllFree(t0, root, a, b) && a <= b
    ensures Mapped(t1, root, b) == Mapped(t0, root, b)
    ensures Mapped(t0, root, b) == Invalid ==> AllFree(t0, root, a, b + 1)
  {
  }

  /** A mapping the process owns: a leaf whose page is held for it. */
  ghost predicate UserPage(tables: Tables, holder: map<nat, Place>, root: nat, v: nat) {
    var e := Mapped(tables, root, v);
    e.Valid? && e.perm.Leaf() && e.ppn in holder && holder[e.ppn] == Place(root, v)
  }

  /** What uvmunmap demands of a page: a leaf, held by the process if it is to be freed and by nobody if not. */
  ghost predicate Removable(tables: Tables, holder: map<nat, Place>, root: nat, v: nat, doFree: bool) {
    var e := Mapped(tables, root, v);
    e.Valid? && e.perm.Leaf() && if doFree then UserPage(tables, holder, root, v) else e.ppn !in holder
  }

  ghost predicate AllRemovable(tables: Tables, holder: map<nat, Place>, root: nat, a: nat, b: nat, doFree: bool) {
    forall v: nat :: a <= v < b ==> Removable(tables, holder, root, v, doFree)
  }

  ghost predicate AllUser(tables: Tables, holder: map<nat, Place>, root: nat, a: nat, b: nat) {
    forall v: nat :: a <= v < b ==> UserPage(tables, holder, root, v)
  }

  lemma UserRemovable(tables: Tables, holder: map<nat, Place>, root: nat, a: nat, b: nat)
    requires AllUser(tables, holder, root, a, b)
    ensures AllRemovable(tables, holder, root, a, b, true)
  {
    forall v: nat | a <= v < b ensures Removable(tables, holder, root, v, true) {
      assert UserPage(tables, holder, root, v);
    }
  }

  lemma ReleaseNone(tables: Tables, role: Roles, holder: map<nat, Place>, root: nat, v: nat)
    requires AllHeld(tables, role, holder) && Removable(tables, holder, root, v, false)
    ensures holder == Released(holder, root, v, v + 1)
  {
    forall q | q in holder ensures holder[q] != Place(root, v) { assert Held(tables, role, holder, q); }
  }

  /** The holders left when pages `a` to `b` of one address space are given up. */
  ghost function Released(holder: map<nat, Place>, root: nat, a: nat, b: nat): map<nat, Place> {
    map q | q in holder && !(holder[q].root == root && a <= holder[q].vpn < b) :: holder[q]
  }

  lemma ReleaseOne(tables: Tables, role: Roles, holder: map<nat, Place>, root: nat, v: nat)
    requires AllHeld(tables, role, holder) && UserPage(tables, holder, root, v)
    ensures holder - {Mapped(tables, root, v).ppn} == Released(holder, root, v, v + 1)
  {
    forall q | q in holder && holder[q] == Place(root, v) ensures q == Mapped(tables, root, v).ppn {
      assert Held(tables, role, holder, q);
    }
  }

  lemma ReleaseMore(holder: map<nat, Place>, root: nat, a: nat, v: nat)
    requires a <= v
    ensures Released(Released(holder, root, a, v), root, v, v + 1) == Released(holder, root, a, v + 1)
  {
  }

  lemma ReleasedHeld(tables: Tables, role: Roles, tables': Tables, holder: map<nat, Place>, root: nat, a: nat, b: nat)
    requires AllHeld(tables, role, holder) && SameElsewhere(tables, role, tables', role, root, a, b)
    ensures AllHeld(tables', role, Released(holder, root, a, b))
  {
    var holder' := Released(holder, root, a, b);
    forall q | q in holder' ensures Held(tables', role, holder', q) { assert Held(tables, role, holder, q); }
  }

  /** Freeing a user page moves it from its holder to the free list. */
  lemma TakeBack(lo: nat, hi: nat, freelist: seq<nat>, role: Roles, holder: map<nat, Place>, hand: set<nat>, q: nat)
    requires Account(lo, hi, freelist, role, holder, hand) && q in holder
    ensures q !in hand && Account(lo, hi, freelist, role, holder - {q}, hand + {q})
  {
  }

  lemma RemovableStill(t0: Tables, r0: Roles, h0: map<nat, Place>, t1: Tables, r1: Roles, h1: map<nat, Place>,
                       root: nat, v: nat, b: nat, doFree: bool)
    requires AllRemovable(t0, h0, root, v, b, doFree) && SameElsewhere(t0, r0, t1, r1, root, v, v + 1)
    requires IsRoot(r0, root)
    requires h1 == Released(h0, root, v, v + 1)
    ensures AllRemovable(t1, h1, root, v + 1, b, doFree) && IsRoot(r1, root)
  {
    forall x: nat | v + 1 <= x < b ensures Removable(t1, h1, root, x, doFree) {
      assert Removable(t0, h0, root, x, doFree);
      assert Mapped(t1, root, x) == Mapped(t0, root, x);
    }
  }

  lemma FreeNext(t0: Tables, r0: Roles, t1: Tables, r1: Roles, root: nat, a: nat, v: nat)
    requires AllFree(t0, root, a, v) && SameElsewhere(t0, r0, t1, r1, root, v, v + 1) && IsRoot(r0, root)
    requires Mapped(t1, root, v) == Invalid
    ensures AllFree(t1, root, a, v + 1)
  {
    forall x: nat | a <= x < v + 1 ensures Mapped(t1, root, x) == Invalid {
      assert x < v ==> Mapped(t1, root, x) == Mapped(t0, root, x);
    }
  }

  lemma KeptFewer(d0: map<nat, Page>, d1: map<nat, Page>, more: set<nat>, fewer: set<nat>)
    requires Kept(d0, d1, more) && fewer <= more
    ensures Kept(d0, d1, fewer)
  {
  }

  /** Page `vpn` now maps a page that was nobody's, with these contents and permissions. */
  ghost predicate Placed(tables: Tables, holder: map<nat, Place>, holder': map<nat, Place>, data: map<nat, Page>,
                         root: nat, vpn: nat, content: Page, perm: Perm) {
    var e := Mapped(tables, root, vpn);
    && e.Valid? && e.perm == perm && e.ppn !in holder && holder' == holder[e.ppn := Place(root, vpn)]
    && e.ppn in data && data[e.ppn] == content
  }

  lemma KeptBut(d0: map<nat, Page>, d1: map<nat, Page>, pages: set<nat>, p: nat)
    requires p !in pages && d1.Keys >= d0.Keys && forall q :: q in d0 && q != p ==> d1[q] == d0[q]
    ensures Kept(d0, d1, pages)
  {
  }

  lemma KeptAt(d0: map<nat, Page>, d1: map<nat, Page>, pages: set<nat>, p: nat)
    requires Kept(d0, d1, pages) && p in pages && p in d0
    ensures p in d1 && d1[p] == d0[p]
  {
  }

  lemma OnePage(vpn: nat)
    ensures vpn * PGSIZE / PGSIZE == vpn && (vpn * PGSIZE + PGSIZE - 1) / PGSIZE == vpn
  {
  }

  lemma RunAt(tables: Tables, root: nat, vpn: nat, ppn: nat, perm: Perm)
    requires Run(tables, root, vpn, vpn + 1, ppn, perm)
    ensures Mapped(tables, root, vpn) == Valid(ppn, perm)
  {
  }

  lemma HoldOne(lo: nat, hi: nat, freelist: seq<nat>, tables: Tables, role: Roles, holder: map<nat, Place>,
                hand: set<nat>, root: nat, vpn: nat, mem: nat)
    requires Account(lo, hi, freelist, role, holder, hand) && AllHeld(tables, role, holder) && mem in hand
    requires IsRoot(role, root) && vpn < MAX_VPN
    requires var e := Mapped(tables, root, vpn); e.Valid? && e.ppn == mem && e.perm.Leaf()
    ensures var holder' := holder[mem := Place(root, vpn)];
            Account(lo, hi, freelist, role, holder', hand - {mem}) && AllHeld(tables, role, holder')
  {
    var holder' := holder[mem := Place(root, vpn)];
    forall q | q in holder' ensures Held(tables, role, holder', q) {
      if q != mem { assert Held(tables, role, holder, q); }
    }
  }

  lemma NewSpace(tables: Tables, role: Roles, holder: map<nat, Place>, p: nat)
    requires Tree(tables, role, map[]) && AllHeld(tables, role, holder) && p !in role
    ensures var tables', role' := tables[p := EmptyTable()], role[p := Role(p, 2, 0, p, 0)];
            && Tree(tables', role', map[]) && AllHeld(tables', role', holder) && SameMaps(tables, role, tables', role')
            && AllFree(tables', p, 0, MAX_VPN)
  {
    var tables', role' := tables[p := EmptyTable()], role[p := Role(p, 2, 0, p, 0)];
    NewRootTree(tables, role, p);
    SameSizes(tables, role);
    forall r, v: nat | IsRoot(role, r) ensures Mapped(tables', r, v) == Mapped(tables, r, v) {
      LookupFrame(tables, tables', role, r, v);
    }
    SameMapsHeld(tables, role, tables', role', holder);
  }

  /** Pages `a` to `v` are new user pages with these contents and permissions, and nothing else is. */
  ghost predicate Loaded(holder0: map<nat, Place>, tables: Tables, holder: map<nat, Place>, data: map<nat, Page>,
                         root: nat, a: nat, v: nat, contents: seq<Page>, perms: seq<Perm>) {
    && Released(holder, root, a, v) == holder0
    && a <= v && v - a <= |contents| == |perms|
    && forall x: nat :: a <= x < v ==> LoadedAt(tables, holder, data, root, a, contents, perms, x)
  }

  ghost predicate LoadedAt(tables: Tables, holder: map<nat, Place>, data: map<nat, Page>, root: nat, a: nat,
                           contents: seq<Page>, perms: seq<Perm>, x: nat) {
    && UserPage(tables, holder, root, x) && 0 <= x - a < |contents| == |perms|
    && var e := Mapped(tables, root, x); e.perm == perms[x - a] && e.ppn in data && data[e.ppn] == contents[x - a]
  }

  lemma HoldNext(t1: Tables, r1: Roles, h1: map<nat, Place>, h2: map<nat, Place>, root: nat, a: nat, v: nat, q: nat)
    requires AllHeld(t1, r1, h1) && Mapped(t1, root, v) == Invalid && a <= v && q !in h1
    requires h2 == h1[q := Place(root, v)]
    ensures Released(h2, root, a, v + 1) == Released(h1, root, a, v)
  {
    NobodyThere(t1, r1, h1, root, v);
  }

  lemma LoadNext(h0: map<nat, Place>, t1: Tables, r1: Roles, h1: map<nat, Place>, d1: map<nat, Page>,
                 t2: Tables, r2: Roles, h2: map<nat, Place>, d2: map<nat, Page>,
                 root: nat, a: nat, v: nat, contents: seq<Page>, perms: seq<Perm>)
    requires Loaded(h0, t1, h1, d1, root, a, v, contents, perms) && v - a < |contents|
    requires AllHeld(t1, r1, h1) && IsRoot(r1, root) && Mapped(t1, root, v) == Invalid
    requires SameElsewhere(t1, r1, t2, r2, root, v, v + 1) && Kept(d1, d2, h1.Keys) && perms[v - a].Leaf()
    requires Placed(t2, h1, h2, d2, root, v, contents[v - a], perms[v - a])
    ensures Loaded(h0, t2, h2, d2, root, a, v + 1, contents, perms)
  {
    hide Released, AllHeld;
    HoldNext(t1, r1, h1, h2, root, a, v, Mapped(t2, root, v).ppn);
    forall x: nat | a <= x < v + 1 ensures LoadedAt(t2, h2, d2, root, a, contents, perms, x) {
      if x < v {
        assert LoadedAt(t1, h1, d1, root, a, contents, perms, x);
        assert Mapped(t2, root, x) == Mapped(t1, root, x);
      }
    }
  }

  lemma LoadedUser(h0: map<nat, Place>, tables: Tables, holder: map<nat, Place>, data: map<nat, Page>,
                   root: nat, a: nat, v: nat, contents: seq<Page>, perms: seq<Perm>)
    requires Loaded(h0, tables, holder, data, root, a, v, contents, perms)
    ensures AllUser(tables, holder, root, a, v)
  {
    forall x: nat | a <= x < v ensures UserPage(tables, holder, root, x) {
      assert LoadedAt(tables, holder, data, root, a, contents, perms, x);
    }
  }

  /** A loop that loads pages from `first` on has reached page `a`. */
  ghost predicate Progress(t0: Tables, r0: Roles, h0: map<nat, Place>, d0: map<nat, Page>,
                           t: Tables, r: Roles, h: map<nat, Place>, d: map<nat, Page>, hand: set<nat>,
                           root: nat, first: nat, a: nat, end: nat, contents: seq<Page>, perms: seq<Perm>) {
    && IsRoot(r0, root) && IsRoot(r, root) && Kept(d0, d, h0.Keys + hand) && h0.Keys <= h.Keys && first <= a <= end
    && SameElsewhere(t0, r0, t, r, root, first, a) && AllFree(t, root, a, end)
    && Loaded(h0, t, h, d, root, first, a, contents, perms)
  }

  lemma ProgressStart(t: Tables, r: Roles, h: map<nat, Place>, d: map<nat, Page>, hand: set<nat>,
                      root: nat, first: nat, end: nat, contents: seq<Page>, perms: seq<Perm>)
    requires IsRoot(r, root) && first <= end && AllFree(t, root, first, end) && |contents| == |perms|
    ensures Progress(t, r, h, d, t, r, h, d, hand, root, first, first, end, contents, perms)
  {
    LoadStart(t, r, h, d, root, first, contents, perms, h.Keys + hand);
  }

  lemma ProgressNext(t0: Tables, r0: Roles, h0: map<nat, Place>, d0: map<nat, Page>,
                     t1: Tables, r1: Roles, h1: map<nat, Place>, d1: map<nat, Page>,
                     t2: Tables, r2: Roles, h2: map<nat, Place>, d2: map<nat, Page>, hand: set<nat>,
                     root: nat, first: nat, a: nat, end: nat, contents: seq<Page>, perms: seq<Perm>)
    requires Progress(t0, r0, h0, d0, t1, r1, h1, d1, hand, root, first, a, end, contents, perms) && a < end
    requires a - first < |contents| == |perms| && perms[a - first].Leaf() && AllHeld(t1, r1, h1)
    requires SameElsewhere(t1, r1, t2, r2, root, a, a + 1) && Kept(d1, d2, h1.Keys + hand)
    requires Placed(t2, h1, h2, d2, root, a, contents[a - first], perms[a - first])
    ensures Progress(t0, r0, h0, d0, t2, r2, h2, d2, hand, root, first, a + 1, end, contents, perms)
  {
    hide Loaded, Kept, SameElsewhere, IsRoot, AllHeld, Mapped;
    FreeAt(t1, root, a, end);
    KeptFewer(d1, d2, h1.Keys + hand, h0.Keys + hand);
    KeptFewer(d1, d2, h1.Keys + hand, h1.Keys);
    KeptTransitive(d0, d1, d2, h0.Keys + hand);
    LoadNext(h0, t1, r1, h1, d1, t2, r2, h2, d2, root, first, a, contents, perms);
    OtherRoot(t1, r1, t2, r2, root, a, a + 1, root);
    FreePart(t1, root, a, end, a + 1, end);
    FreeStill(t1, r1, t2, r2, root, a, a + 1, end);
    Widen(t1, r1, t2, r2, root, a, a + 1, first, a + 1);
    Widen(t0, r0, t1, r1, root, first, a, first, a + 1);
    Compose(t0, r0, t1, r1, t2, r2, root, first, a + 1);
  }

  lemma ProgressSame(t0: Tables, r0: Roles, h0: map<nat, Place>, d0: map<nat, Page>,
                     t1: Tables, r1: Roles, h: map<nat, Place>, d1: map<nat, Page>,
                     t2: Tables, r2: Roles, d2: map<nat, Page>, hand: set<nat>,
                     root: nat, first: nat, a: nat, end: nat, contents: seq<Page>, perms: seq<Perm>)
    requires Progress(t0, r0, h0, d0, t1, r1, h, d1, hand, root, first, a, end, contents, perms)
    requires SameElsewhere(t1, r1, t2, r2, root, a, a) && Kept(d1, d2, h.Keys + hand)
    ensures Progress(t0, r0, h0, d0, t2, r2, h, d2, hand, root, first, a, end, contents, perms)
  {
    hide Loaded, Kept, SameElsewhere, IsRoot, Mapped;
    KeptFewer(d1, d2, h.Keys + hand, h0.Keys + hand);
    KeptFewer(d1, d2, h.Keys + hand, h.Keys);
    KeptTransitive(d0, d1, d2, h0.Keys + hand);
    LoadedKept(h0, t1, r1, h, d1, t2, r2, d2, root, first, a, contents, perms);
    OtherRoot(t1, r1, t2, r2, root, a, a, root);
    FreeStill(t1, r1, t2, r2, root, a, a, end);
    Widen(t1, r1, t2, r2, root, a, a, first, a);
    Compose(t0, r0, t1, r1, t2, r2, root, first, a);
  }

  /** Unmapping what such a loop has loaded undoes it. */
  lemma ProgressUndone(t0: Tables, r0: Roles, h0: map<nat, Place>, d0: map<nat, Page>,
                       t1: Tables, r1: Roles, h1: map<nat, Place>, d1: map<nat, Page>,
                       t2: Tables, h2: map<nat, Place>, d2: map<nat, Page>, hand: set<nat>,
                       root: nat, first: nat, a: nat, end: nat, contents: seq<Page>, perms: seq<Perm>)
    requires Progress(t0, r0, h0, d0, t1, r1, h1, d1, hand, root, first, a, end, contents, perms)
    requires AllFree(t0, root, first, end)
    requires SameElsewhere(t1, r1, t2, r1, root, first, a) && AllFree(t2, root, first, a)
    requires h2 == Released(h1, root, first, a) && Kept(d1, d2, h2.Keys + hand)
    ensures h2 == h0 && SameMaps(t0, r0, t2, r1) && Kept(d0, d2, h0.Keys + hand) && NewUnder(r0, r1, root)
  {
    hide Kept, SameElsewhere, SameMaps, IsRoot, Mapped;
    KeptTransitive(d0, d1, d2, h0.Keys + hand);
    Compose(t0, r0, t1, r1, t2, r1, root, first, a);
    FreePart(t0, root, first, end, first, a);
    Restored(t0, r0, t2, r1, root, first, a);
  }

  lemma ProgressAt(t0: Tables, r0: Roles, h0: map<nat, Place>, d0: map<nat, Page>,
                   t: Tables, r: Roles, h: map<nat, Place>, d: map<nat, Page>, hand: set<nat>,
                   root: nat, first: nat, a: nat, end: nat, contents: seq<Page>, perms: seq<Perm>)
    requires Progress(t0, r0, h0, d0, t, r, h, d, hand, root, first, a, end, contents, perms) && a < end
    ensures IsRoot(r, root) && Mapped(t, root, a) == Invalid
  {
    FreeAt(t, root, a, end);
  }

  lemma ProgressUser(t0: Tables, r0: Roles, h0: map<nat, Place>, d0: map<nat, Page>,
                     t: Tables, r: Roles, h: map<nat, Place>, d: map<nat, Page>, hand: set<nat>,
                     root: nat, first: nat, a: nat, end: nat, contents: seq<Page>, perms: seq<Perm>)
    requires Progress(t0, r0, h0, d0, t, r, h, d, hand, root, first, a, end, contents, perms)
    ensures IsRoot(r, root) && AllUser(t, h, root, first, a)
  {
    LoadedUser(h0, t, h, d, root, first, a, contents, perms);
  }

  lemma ProgressDone(t0: Tables, r0: Roles, h0: map<nat, Place>, d0: map<nat, Page>,
                     t: Tables, r: Roles, h: map<nat, Place>, d: map<nat, Page>, hand: set<nat>,
                     root: nat, first: nat, end: nat, contents: seq<Page>, perms: seq<Perm>)
    requires Progress(t0, r0, h0, d0, t, r, h, d, hand, root, first, end, end, contents, perms)
    ensures Loaded(h0, t, h, d, root, first, end, contents, perms) && SameElsewhere(t0, r0, t, r, root, first, end)
    ensures Kept(d0, d, h0.Keys + hand) && IsRoot(r, root)
  {
  }

  lemma LoadStart(tables: Tables, role: Roles, holder: map<nat, Place>, data: map<nat, Page>, root: nat, a: nat,
                  contents: seq<Page>, perms: seq<Perm>, pages: set<nat>)
    requires |contents| == |perms|
    ensures Loaded(holder, tables, holder, data, root, a, a, contents, perms)
    ensures SameElsewhere(tables, role, tables, role, root, a, a) && Kept(data, data, pages)
  {
  }

  lemma LoadedKept(h0: map<nat, Place>, t1: Tables, r1: Roles, h: map<nat, Place>, d1: map<nat, Page>, t2: Tables,
                   r2: Roles, d2: map<nat, Page>,
                   root: nat, a: nat, v: nat, contents: seq<Page>, perms: seq<Perm>)
    requires Loaded(h0, t1, h, d1, root, a, v, contents, perms) && SameElsewhere(t1, r1, t2, r2, root, v, v)
    requires IsRoot(r1, root)
    requires Kept(d1, d2, h.Keys)
    ensures Loaded(h0, t2, h, d2, root, a, v, contents, perms)
  {
    forall x: nat | a <= x < v ensures LoadedAt(t2, h, d2, root, a, contents, perms, x) {
      assert LoadedAt(t1, h, d1, root, a, contents, perms, x) && !(v <= x < v);
      assert Mapped(t2, root, x) == Mapped(t1, root, x);
    }
  }

  /** Giving back what was mapped where nothing was mapped before restores every mapping. */
  lemma Restored(t0: Tables, r0: Roles, t1: Tables, r1: Roles, root: nat, a: nat, b: nat)
    requires SameElsewhere(t0, r0, t1, r1, root, a, b) && AllFree(t0, root, a, b) && AllFree(t1, root, a, b)
    ensures SameMaps(t0, r0, t1, r1) && NewUnder(r0, r1, root)
  {
    forall r, v: nat | IsRoot(r0, r) ensures Mapped(t1, r, v) == Mapped(t0, r, v) {
      if r == root && a <= v < b { assert Mapped(t0, root, v) == Invalid && Mapped(t1, root, v) == Invalid; }
    }
  }

  lemma FreeStill(t0: Tables, r0: Roles, t1: Tables, r1: Roles, root: nat, a: nat, v: nat, b: nat)
    requires SameElsewhere(t0, r0, t1, r1, root, a, v) && AllFree(t0, root, v, b) && IsRoot(r0, root)
    ensures AllFree(t1, root, v, b)
  {
    forall x: nat | v <= x < b ensures Mapped(t1, root, x) == Invalid {
      assert Mapped(t1, root, x) == Mapped(t0, root, x);
    }
  }

  lemma FreePart(tables: Tables, root: nat, a: nat, b: nat, a': nat, b': nat)
    requires AllFree(tables, root, a, b) && a <= a' && b' <= b
    ensures AllFree(tables, root, a', b')
  {
  }

  lemma CutFacts(tables: Tables, role: Roles, loose: map<nat, nat>, p: nat)
    requires Cut(tables, role, loose, p)
    ensures p in role && p in tables && |tables[p]| == ENTRIES
  {
    Slots(tables, role, loose);
  }

  lemma WalkedFacts(tables0: Tables, role0: Roles, loose: map<nat, nat>, p: nat, i: nat, tables: Tables, role: Roles)
    requires Walked(tables0, role0, loose, p, i, tables, role)
    ensures p in tables && |tables[p]| == ENTRIES
  {
  }

  lemma KeptSame(data: map<nat, Page>, pages: set<nat>)
    ensures Kept(data, data, pages)
  {
  }

  lemma TableBack(lo: nat, hi: nat, freelist: seq<nat>, role: Roles, holder: map<nat, Place>, hand: set<nat>, p: nat)
    requires Account(lo, hi, freelist, role, holder, hand) && p in role
    ensures p !in hand && p !in holder && Account(lo, hi, freelist, role - {p}, holder, hand + {p})
  {
  }

  /** The table pages of all other address spaces. */
  ghost function Others(role: Roles, root: nat): Roles {
    map q | q in role && role[q].root != root :: role[q]
  }

  lemma NothingMapped(t0: Tables, t1: Tables, role: Roles, root: nat, n: nat)
    requires SameElsewhere(t0, role, t1, role, root, 0, n) && AllFree(t1, root, 0, n) && AllFree(t0, root, n, MAX_VPN)
    requires IsRoot(role, root)
    ensures AllFree(t1, root, 0, MAX_VPN)
  {
    forall v: nat | v < MAX_VPN ensures Mapped(t1, root, v) == Invalid {
      assert v >= n ==> Mapped(t1, root, v) == Mapped(t0, root, v);
    }
  }

  lemma ReadyToWalk(tables: Tables, role: Roles, root: nat)
    requires Tree(tables, role, map[]) && IsRoot(role, root) && AllFree(tables, root, 0, MAX_VPN)
    ensures Cut(tables, role, map[root := 0], root)
  {
    forall q | q in role ensures Node(tables, role, map[root := 0], q) { assert Node(tables, role, map[], q); }
    forall q, k | InTree(role, root, q) && role[q].level == 0 && q in tables && 0 <= k < |tables[q]|
      ensures tables[q][k] == Invalid
    {
      InTreeIff(tables, role, root, q);
      LeafEntry(tables, role, root, q, k);
    }
  }

  /** The pages under a root are those of its address space. */
  lemma {:induction false} InTreeIff(tables: Tables, role: Roles, root: nat, q: nat)
    requires Tree(tables, role, map[]) && IsRoot(role, root) && q in role
    ensures InTree(role, root, q) <==> role[q].root == root
    decreases if role[q].level <= 2 then 2 - role[q].level else 0
  {
    assert Node(tables, role, map[], q);
    RootFacts(tables, role, root);
    if role[q].level < 2 {
      InTreeIff(tables, role, root, role[q].parent);
      assert Node(tables, role, map[], role[q].parent);
      assert Below(role, root, ENTRIES, q) <==> InTree(role, root, role[q].parent);
    }
  }

  lemma LeafBound(tables: Tables, role: Roles, l: nat)
    requires Tree(tables, role, map[]) && l in role && role[l].level == 0
    ensures role[l].prefix < Bound(0)
  {
    assert Node(tables, role, map[], l);
  }

  lemma Digits(prefix: nat, k: nat)
    requires k < ENTRIES
    ensures Shift(prefix * ENTRIES + k, 1) == prefix && Px(0, prefix * ENTRIES + k) == k
  {
    var vpn := prefix * ENTRIES + k;
    assert vpn / ENTRIES == prefix && vpn % ENTRIES == k;
    assert Shift(vpn, 0) == vpn;
  }

  lemma LeafEntry(tables: Tables, role: Roles, root: nat, l: nat, k: nat)
    requires Tree(tables, role, map[]) && l in role && role[l].level == 0 && role[l].root == root && l in tables
    requires k < |tables[l]| == ENTRIES
    ensures role[l].prefix * ENTRIES + k < MAX_VPN && tables[l][k] == Mapped(tables, root, role[l].prefix * ENTRIES + k)
  {
    hide Tree, Lookup, LeafPage;
    LeafBound(tables, role, l);
    var vpn := role[l].prefix * ENTRIES + k;
    Digits(role[l].prefix, k);
    LeafReached(tables, role, l, vpn);
    NoTopBits(vpn);
    RootFacts(tables, role, root);
    Resolve(tables, role, root, vpn);
  }

  lemma SpaceGone(t0: Tables, t1: Tables, r1: Roles, t2: Tables, r2: Roles, holder: map<nat, Place>, root: nat, n: nat)
    requires Tree(t1, r1, map[]) && AllHeld(t1, r1, holder) && IsRoot(r1, root) && AllFree(t1, root, 0, MAX_VPN)
    requires SameElsewhere(t0, r1, t1, r1, root, 0, n)
    requires r2 == Pruned(r1, root) && Tree(t2, r2, map[root := 0] - {root})
    requires forall q :: q in r2 ==> q in t1 && q in t2 && t2[q] == t1[q]
    ensures r2 == Others(r1, root) && Tree(t2, r2, map[]) && AllHeld(t2, r2, holder)
    ensures forall r, v: nat :: IsRoot(r2, r) ==> Mapped(t2, r, v) == Mapped(t0, r, v)
  {
    hide Node, Lookup, Held;
    assert map[root := 0] - {root} == map[];
    forall q | q in r1 ensures q in r2 <==> r1[q].root != root { InTreeIff(t1, r1, root, q); }
    assert r2 == Others(r1, root);
    forall r, v: nat | IsRoot(r2, r) ensures Mapped(t2, r, v) == Mapped(t0, r, v) {
      OtherSpace(t1, r1, t2, r2, root, r, v);
    }
    forall q | q in holder ensures Held(t2, r2, holder, q) {
      OtherHeld(t1, r1, t2, r2, holder, root, q);
    }
  }

  lemma OtherSpace(t1: Tables, r1: Roles, t2: Tables, r2: Roles, root: nat, r: nat, v: nat)
    requires Tree(t1, r1, map[]) && r2 == Others(r1, root) && IsRoot(r2, r)
    requires forall q :: q in r2 ==> q in t1 && q in t2 && t2[q] == t1[q]
    ensures Mapped(t2, r, v) == Mapped(t1, r, v) && r != root && IsRoot(r1, r)
  {
    RootFacts(t1, r1, r);
    LookupFrame(t1, t2, r1, r, v);
  }

  lemma OtherHeld(t1: Tables, r1: Roles, t2: Tables, r2: Roles, holder: map<nat, Place>, root: nat, q: nat)
    requires Tree(t1, r1, map[]) && AllHeld(t1, r1, holder) && AllFree(t1, root, 0, MAX_VPN) && r2 == Others(r1, root)
    requires q in holder
    requires forall q :: q in r2 ==> q in t1 && q in t2 && t2[q] == t1[q]
    ensures Held(t2, r2, holder, q)
  {
    assert Held(t1, r1, holder, q);
    var h := holder[q];
    RootFacts(t1, r1, h.root);
    OtherSpace(t1, r1, t2, r2, root, h.root, h.vpn);
  }

  /** The contents and permissions of a process's first `n` pages. */
  ghost function Contents(tables: Tables, data: map<nat, Page>, root: nat, n: nat): (s: seq<Page>)
    ensures |s| == n
  {
    if n == 0 then [] else
      var e := Mapped(tables, root, n - 1);
      Contents(tables, data, root, n - 1) + [if e.Valid? && e.ppn in data then data[e.ppn] else []]
  }

  ghost function Perms(tables: Tables, root: nat, n: nat): (s: seq<Perm>)
    ensures |s| == n
  {
    if n == 0 then [] else
      var e := Mapped(tables, root, n - 1);
      Perms(tables, root, n - 1) + [if e.Valid? then e.perm else TABLE]
  }

  lemma ContentsAt(tables: Tables, data: map<nat, Page>, root: nat, n: nat, v: nat)
    requires v < n
    ensures var e := Mapped(tables, root, v);
            && Contents(tables, data, root, n)[v] == (if e.Valid? && e.ppn in data then data[e.ppn] else [])
            && Perms(tables, root, n)[v] == (if e.Valid? then e.perm else TABLE)
  {
    if v < n - 1 { ContentsAt(tables, data, root, n - 1, v); }
  }

  lemma OtherRoot(t0: Tables, r0: Roles, t1: Tables, r1: Roles, root: nat, a: nat, b: nat, other: nat)
    requires SameElsewhere(t0, r0, t1, r1, root, a, b) && IsRoot(r0, other)
    ensures IsRoot(r1, other)
  {
  }

  lemma CopySource(t0: Tables, r0: Roles, h0: map<nat, Place>, d0: map<nat, Page>,
                   t: Tables, r: Roles, h: map<nat, Place>, d: map<nat, Page>, hand: set<nat>,
                   parent: nat, child: nat, a: nat, end: nat, contents: seq<Page>, perms: seq<Perm>)
    requires Progress(t0, r0, h0, d0, t, r, h, d, hand, child, 0, a, end, contents, perms) && a < end
    requires IsRoot(r0, parent) && parent != child && AllUser(t0, h0, parent, 0, end) && h0.Keys <= d0.Keys
    ensures var e := Mapped(t, parent, a);
            && e.Valid? && e.perm.Leaf() && e.ppn in d
            && Contents(t0, d0, parent, end)[a] == d[e.ppn] && Perms(t0, parent, end)[a] == e.perm
  {
    hide Loaded, AllFree, Mapped, Contents, Perms;
    assert UserPage(t0, h0, parent, a);
    ContentsAt(t0, d0, parent, end, a);
    assert Mapped(t, parent, a) == Mapped(t0, parent, a);
    var q := Mapped(t0, parent, a).ppn;
    assert q in h0.Keys + hand && q in d0;
  }

  lemma HeldHaveData(lo: nat, hi: nat, freelist: seq<nat>, role: Roles, holder: map<nat, Place>, hand: set<nat>,
                     data: map<nat, Page>)
    requires Account(lo, hi, freelist, role, holder, hand) && forall p :: lo <= p < hi ==> p in data
    ensures holder.Keys <= data.Keys
  {
  }

  lemma BelowMax(tables: Tables, root: nat, n: nat)
    requires AllFree(tables, root, 0, MAX_VPN)
    ensures AllFree(tables, root, 0, n)
  {
    forall v: nat | v < n ensures Mapped(tables, root, v) == Invalid {}
  }

  lemma GrownSpace(t1: Tables, r1: Roles, h1: map<nat, Place>, t: Tables, r: Roles, h: map<nat, Place>,
                   d: map<nat, Page>,
                   root: nat, n: nat, contents: seq<Page>, perms: seq<Perm>)
    requires Loaded(h1, t, h, d, root, 0, n, contents, perms) && SameElsewhere(t1, r1, t, r, root, 0, n)
    requires AllFree(t1, root, 0, MAX_VPN) && IsRoot(r1, root)
    ensures AllUser(t, h, root, 0, n) && AllFree(t, root, n, MAX_VPN) && IsRoot(r, root)
    ensures Released(h, root, 0, n) == h1
    ensures NewUnder(r1, r, root) && forall q :: q in r1 ==> q in r && r[q] == r1[q]
  {
    LoadedUser(h1, t, h, d, root, 0, n, contents, perms);
    FreePart(t1, root, 0, MAX_VPN, n, MAX_VPN);
    FreeStill(t1, r1, t, r, root, 0, n, MAX_VPN);
  }

  lemma FailedSpace(t1: Tables, r1: Roles, t: Tables, r: Roles, h: map<nat, Place>, root: nat)
    requires SameMaps(t1, r1, t, r) && AllFree(t1, root, 0, MAX_VPN) && IsRoot(r1, root)
    ensures AllUser(t, h, root, 0, 0) && AllFree(t, root, 0, MAX_VPN) && IsRoot(r, root) && Released(h, root, 0, 0) == h
    ensures forall q :: q in r1 ==> q in r && r[q] == r1[q]
  {
    forall v: nat | v < MAX_VPN ensures Mapped(t, root, v) == Invalid {
      assert Mapped(t, root, v) == Mapped(t1, root, v);
    }
  }

  lemma RootsThere(tables: Tables, role: Roles)
    requires Tree(tables, role, map[])
    ensures forall q :: q in role ==> role[q].root in role
  {
    forall q | q in role ensures role[q].root in role {
      assert Node(tables, role, map[], q);
      if role[q].level < 2 {
        assert Node(tables, role, map[], role[q].parent);
        if role[role[q].parent].level < 2 { assert Node(tables, role, map[], role[role[q].parent].parent); }
      }
    }
  }

  lemma OthersBack(r0: Roles, r1: Roles, r2: Roles, root: nat)
    requires root !in r0 && (forall q :: q in r0 ==> r0[q].root in r0) && r1 == r0[root := Role(root, 2, 0, root, 0)]
    requires NewUnder(r1, r2, root) && forall q :: q in r1 ==> q in r2 && r2[q] == r1[q]
    ensures Others(r2, root) == r0
  {
  }

  lemma SameMapsReflexive(tables: Tables, role: Roles)
    ensures SameMaps(tables, role, tables, role)
  {
  }

  lemma SameMapsTransitive(t0: Tables, r0: Roles, t1: Tables, r1: Roles, t2: Tables, r2: Roles)
    requires SameMaps(t0, r0, t1, r1) && SameMaps(t1, r1, t2, r2)
    ensures SameMaps(t0, r0, t2, r2)
  {
    forall r, v: nat | IsRoot(r0, r) ensures Mapped(t2, r, v) == Mapped(t0, r, v) {
      assert IsRoot(r1, r);
      assert Mapped(t1, r, v) == Mapped(t0, r, v);
    }
  }

  lemma HandFacts(lo: nat, hi: nat, freelist: seq<nat>, role: Roles, holder: map<nat, Place>, hand: set<nat>, page: nat)
    requires Account(lo, hi, freelist, role, holder, hand) && page in hand
    ensures lo <= page < hi && page !in freelist && page !in role && page !in holder
  {
  }

  lemma GiveTable(lo: nat, hi: nat, freelist: seq<nat>, role: Roles, holder: map<nat, Place>, hand: set<nat>,
                  page: nat, r: Role)
    requires Account(lo, hi, freelist, role, holder, hand) && page in hand
    ensures Account(lo, hi, freelist, role[page := r], holder, hand - {page})
  {
  }

  lemma EntryThenTable(tables: Tables, p: nat, k: nat, page: nat)
    requires p in tables && k < |tables[p]| && page != p
    ensures var t := tables[page := EmptyTable()];
            p in t && k < |t[p]| && SetEntry(t, p, k, Valid(page, TABLE)) == WithTable(tables, p, k, page)
  {
  }

  lemma NobodyThere(tables: Tables, role: Roles, holder: map<nat, Place>, root: nat, vpn: nat)
    requires AllHeld(tables, role, holder) && Mapped(tables, root, vpn) == Invalid
    ensures forall q :: q in holder && holder[q].root == root ==> !(vpn <= holder[q].vpn < vpn + 1)
  {
    forall q | q in holder && holder[q].root == root ensures holder[q].vpn != vpn {
      assert Held(tables, role, holder, q);
    }
  }

  lemma RunStart(tables: Tables, role: Roles, root: nat, a: nat, ppn: nat, perm: Perm, data: map<nat, Page>,
                 pages: set<nat>)
    ensures Run(tables, root, a, a, ppn, perm) && AllFree(tables, root, a, a)
    ensures SameElsewhere(tables, role, tables, role, root, a, a) && Kept(data, data, pages)
  {
  }

  lemma FreeAt(tables: Tables, root: nat, a: nat, b: nat)
    requires AllFree(tables, root, a, b) && a < b
    ensures Mapped(tables, root, a) == Invalid
  {
  }

  lemma StillRun(t0: Tables, r0: Roles, t1: Tables, r1: Roles, root: nat, a: nat, b: nat, ppn: nat, perm: Perm)
    requires Run(t0, root, a, b, ppn, perm) && IsRoot(r0, root)
    requires SameElsewhere(t0, r0, t1, r1, root, b, b)
    ensures Run(t1, root, a, b, ppn, perm) && IsRoot(r1, root)
  {
    forall v: nat ensures Mapped(t1, root, v) == Mapped(t0, root, v) { assert !(b <= v < b); }
  }

  lemma KeptTransitive(d0: map<nat, Page>, d1: map<nat, Page>, d2: map<nat, Page>, pages: set<nat>)
    requires Kept(d0, d1, pages) && Kept(d1, d2, pages)
    ensures Kept(d0, d2, pages)
  {
  }

  lemma UnmapStart(tables: Tables, role: Roles, holder: map<nat, Place>, root: nat, a: nat, data: map<nat, Page>,
                   pages: set<nat>)
    ensures holder == Released(holder, root, a, a) && AllFree(tables, root, a, a)
    ensures SameElsewhere(tables, role, tables, role, root, a, a) && Kept(data, data, pages)
  {
  }

  lemma RemovableAt(tables: Tables, holder: map<nat, Place>, root: nat, a: nat, b: nat, doFree: bool)
    requires AllRemovable(tables, holder, root, a, b, doFree) && a < b
    ensures Removable(tables, holder, root, a, doFree)
  {
  }

  lemma ReleasedFewer(holder: map<nat, Place>, root: nat, a: nat, b: nat)
    ensures Released(holder, root, a, b).Keys <= holder.Keys
  {
  }

  function Repeat<T>(x: T, n: int): (s: seq<T>)
    ensures |s| == (if n < 0 then 0 else n) && forall i :: 0 <= i < |s| ==> s[i] == x
  {
    if n <= 0 then [] else seq(n, _ => x)
  }

  lemma UpMono(a: nat, b: nat)
    requires a <= b
    ensures Up(a) <= Up(b)
  {
  }

  lemma UpBound(a: nat, sz: nat)
    ensures a * PGSIZE < sz <==> a < Up(sz)
  {
  }

  lemma UpExact(a: nat)
    ensures Up(a * PGSIZE) == a
  {
  }

  lemma NothingBetween(tables: Tables, role: Roles, holder: map<nat, Place>, data: map<nat, Page>, root: nat, a: nat,
                       b: nat, pages: set<nat>)
    ensures SameElsewhere(tables, role, tables, role, root, a, b) && Kept(data, data, pages)
    ensures a >= b ==> holder == Released(holder, root, a, b) && AllFree(tables, root, a, b)
  {
  }

  lemma RootFacts(tables: Tables, role: Roles, root: nat)
    requires Tree(tables, role, map[]) && IsRoot(role, root)
    ensures role[root].root == root && role[root].prefix == 0
  {
    assert Node(tables, role, map[], root);
  }

  lemma ChildFacts(tables: Tables, role: Roles, p: nat, vpn: nat)
    requires Tree(tables, role, map[]) && p in role && role[p].level > 0
    requires role[p].prefix == Shift(vpn, role[p].level + 1)
    ensures p in tables && |tables[p]| == ENTRIES
    ensures var e := tables[p][Px(role[p].level, vpn)];
            && (e.Valid? ==> e.ppn in role && role[e.ppn].level == role[p].level - 1 && role[e.ppn].root == role[p].root
                             && role[e.ppn].prefix == Shift(vpn, role[p].level))
            && role[p].prefix * ENTRIES + Px(role[p].level, vpn) == Shift(vpn, role[p].level)
  {
    assert Node(tables, role, map[], p);
    if tables[p][Px(role[p].level, vpn)].Valid? {
      assert Child(tables, role, p, Px(role[p].level, vpn));
    }
  }

  lemma WithTableMaps(tables: Tables, role: Roles, p: nat, k: nat, page: nat)
    requires Tree(tables, role, map[]) && p in role && role[p].level > 0 && p in tables && k < |tables[p]| == ENTRIES
    requires page !in role && tables[p][k] == Invalid
    ensures SameMaps(tables, role, WithTable(tables, p, k, page), role[page := NewRole(role, p, k)])
  {
    hide Tree, Lookup, WithTable;
    forall r, v: nat | IsRoot(role, r) ensures Mapped(WithTable(tables, p, k, page), r, v) == Mapped(tables, r, v) {
      WithTableLookup(tables, role, p, k, page, r, v);
    }
  }
}
