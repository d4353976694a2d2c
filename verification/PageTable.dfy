/** Sv39 page tables as trees of table pages, and the mapping each tree stands for. Virtual and
    physical addresses appear as page numbers. */
module PageTable {

  /** A permission word: the R, W, X and U bits, and the bits no code here looks at one by one. */
  datatype Perm = Perm(r: bool, w: bool, x: bool, u: bool, other: nat) {
    predicate Leaf() { r || w || x }
  }

  /** A page-table entry: PTE_V clear, or a page and its flags. */
  datatype Pte = Invalid | Valid(ppn: nat, perm: Perm)

  /** The flags of an entry that points to a lower table: PTE_V alone. */
  const TABLE: Perm := Perm(false, false, false, false, 0)

  const ENTRIES: nat := 512

  /** MAXVA in pages. */
  const MAX_VPN: nat := 0x400_0000

  type Tables = map<nat, seq<Pte>>

  /** Where a table page hangs: its tree, its level, the part of the address that leads to it, and the
      entry that points to it. */
  datatype Role = Role(root: nat, level: nat, prefix: nat, parent: nat, slot: nat)

  type Roles = map<nat, Role>

  /** The page number shifted right by `level` times nine bits. */
  function Shift(vpn: nat, level: nat): nat {
    if level == 0 then vpn else Shift(vpn, level - 1) / ENTRIES
  }

  function Px(level: nat, vpn: nat): (i: nat)
    ensures i < ENTRIES
  {
    Shift(vpn, level) % ENTRIES
  }

  /** How many table pages of a level an address space below MAXVA can have. */
  function Bound(level: nat): nat {
    if level == 0 then 0x2_0000 else if level == 1 then 0x100 else 1
  }

  function EmptyTable(): (t: seq<Pte>)
    ensures |t| == ENTRIES && forall k :: 0 <= k < ENTRIES ==> t[k] == Invalid
  {
    seq(ENTRIES, _ => Invalid)
  }

  /** The mapping: what the hardware finds for a page number. */
  ghost function Lookup(tables: Tables, p: nat, level: nat, vpn: nat): Pte
    decreases level
  {
    if p !in tables || |tables[p]| != ENTRIES then Invalid
    else
      var e := tables[p][Px(level, vpn)];
      if level == 0 then e else if e.Valid? then Lookup(tables, e.ppn, level - 1, vpn) else Invalid
  }

  ghost function Mapped(tables: Tables, root: nat, vpn: nat): Pte {
    if vpn < MAX_VPN then Lookup(tables, root, 2, vpn) else Invalid
  }

  /** Page `p` is where its role says; `loose` pages are being taken apart, up to the given entry. */
  ghost predicate Node(tables: Tables, role: Roles, loose: map<nat, nat>, p: nat)
    requires p in role
  {
    && p in tables && |tables[p]| == ENTRIES && role[p].level <= 2 && role[p].slot < ENTRIES
    && role[p].prefix < Bound(role[p].level)
    && (p !in loose ==> Hangs(tables, role, p))
    && (role[p].level > 0 ==>
          forall k :: 0 <= k < ENTRIES && tables[p][k].Valid? && (p in loose ==> loose[p] <= k) ==>
            Child(tables, role, p, k))
  }

  ghost predicate Hangs(tables: Tables, role: Roles, p: nat)
    requires p in role
  {
    var r := role[p];
    if r.level == 2 then r.root == p && r.prefix == 0
    else
      && r.parent in role && r.parent in tables && r.slot < ENTRIES == |tables[r.parent]|
      && tables[r.parent][r.slot] == Valid(p, TABLE)
      && role[r.parent].level == r.level + 1 && role[r.parent].root == r.root
      && r.prefix == role[r.parent].prefix * ENTRIES + r.slot
  }

  ghost predicate Child(tables: Tables, role: Roles, p: nat, k: nat)
    requires p in role && p in tables && k < |tables[p]| && tables[p][k].Valid? && role[p].level > 0
  {
    var e := tables[p][k];
    && e.perm == TABLE && e.ppn in role
    && role[e.ppn] == Role(role[p].root, role[p].level - 1, role[p].prefix * ENTRIES + k, p, k)
  }

  ghost predicate Tree(tables: Tables, role: Roles, loose: map<nat, nat>) {
    forall p :: p in role ==> Node(tables, role, loose, p)
  }

  datatype Option = None | Some(page: nat)

  /** The level-0 table page for a page number. */
  ghost function LeafPage(tables: Tables, p: nat, level: nat, vpn: nat): Option
    decreases level
  {
    if p !in tables || |tables[p]| != ENTRIES then None
    else if level == 0 then Some(p)
    else
      var e := tables[p][Px(level, vpn)];
      if e.Valid? then LeafPage(tables, e.ppn, level - 1, vpn) else None
  }

  /** The table a walk reaches is the one whose role names the address. */
  lemma {:induction false} Resolve(tables: Tables, role: Roles, p: nat, vpn: nat)
    requires Tree(tables, role, map[]) && p in role && role[p].prefix == Shift(vpn, role[p].level + 1)
    ensures var leaf := LeafPage(tables, p, role[p].level, vpn);
            && (leaf.None? ==> Lookup(tables, p, role[p].level, vpn) == Invalid)
            && (leaf.Some? ==>
                  var l := leaf.page;
                  && l in role && l in tables && |tables[l]| == ENTRIES
                  && role[l].level == 0 && role[l].root == role[p].root && role[l].prefix == Shift(vpn, 1)
                  && Lookup(tables, p, role[p].level, vpn) == tables[l][Px(0, vpn)])
    decreases role[p].level
  {
    assert Node(tables, role, map[], p);
    var level := role[p].level;
    if level > 0 {
      var e := tables[p][Px(level, vpn)];
      if e.Valid? {
        assert Child(tables, role, p, Px(level, vpn));
        Resolve(tables, role, e.ppn, vpn);
      }
    }
  }

  /** Walks depend only on the tables of their own tree, above level 0 for where they lead. */
  lemma {:induction false} LeafPageFrame(tables: Tables, tables': Tables, role: Roles, p: nat, vpn: nat)
    requires Tree(tables, role, map[]) && p in role
    requires forall q :: q in role ==> q in tables' && |tables'[q]| == ENTRIES
    requires forall q :: q in role && role[q].root == role[p].root && role[q].level > 0 ==>
               q in tables && tables'[q] == tables[q]
    ensures LeafPage(tables', p, role[p].level, vpn) == LeafPage(tables, p, role[p].level, vpn)
    decreases role[p].level
  {
    assert Node(tables, role, map[], p);
    var level := role[p].level;
    if level > 0 {
      var e := tables[p][Px(level, vpn)];
      if e.Valid? {
        assert Child(tables, role, p, Px(level, vpn));
        LeafPageFrame(tables, tables', role, e.ppn, vpn);
      }
    }
  }

  /** A walk reads only the tables of its own tree. */
  lemma {:induction false} LookupFrame(tables: Tables, tables': Tables, role: Roles, p: nat, vpn: nat)
    requires Tree(tables, role, map[]) && p in role
    requires forall q :: q in role && role[q].root == role[p].root ==>
               q in tables && q in tables' && tables'[q] == tables[q]
    ensures Lookup(tables', p, role[p].level, vpn) == Lookup(tables, p, role[p].level, vpn)
    decreases role[p].level
  {
    assert Node(tables, role, map[], p);
    var level := role[p].level;
    if level > 0 {
      var e := tables[p][Px(level, vpn)];
      if e.Valid? {
        assert Child(tables, role, p, Px(level, vpn));
        LookupFrame(tables, tables', role, e.ppn, vpn);
      }
    }
  }

  /** An entry of a level-0 table is the mapping of exactly one page of one address space. */
  lemma LeafReached(tables: Tables, role: Roles, l: nat, vpn: nat)
    requires Tree(tables, role, map[]) && l in role && role[l].level == 0 && role[l].prefix == Shift(vpn, 1)
    ensures var r := role[l].root;
            r in role && role[r].level == 2 && LeafPage(tables, r, 2, vpn) == Some(l)
  {
    assert Node(tables, role, map[], l);
    var m := role[l].parent;
    assert Node(tables, role, map[], m);
    var r := role[m].parent;
    assert Node(tables, role, map[], r);
    assert Shift(vpn, 2) == role[m].prefix && Shift(vpn, 3) == 0;
    assert Px(2, vpn) == role[m].slot && Px(1, vpn) == role[l].slot;
    assert LeafPage(tables, m, 1, vpn) == LeafPage(tables, l, 0, vpn);
  }

  lemma NoTopBits(vpn: nat)
    requires vpn < MAX_VPN
    ensures Shift(vpn, 3) == 0 && Shift(vpn, 1) < Bound(0) && Shift(vpn, 2) < Bound(1)
  {
    assert Shift(vpn, 1) == vpn / ENTRIES;
    assert Shift(vpn, 2) == Shift(vpn, 1) / ENTRIES;
    assert Shift(vpn, 3) == Shift(vpn, 2) / ENTRIES;
  }

  function SetEntry(tables: Tables, p: nat, k: nat, e: Pte): Tables
    requires p in tables && k < |tables[p]|
  {
    tables[p := tables[p][k := e]]
  }

  /** Writing a level-0 entry keeps the trees. */
  lemma SetLeafTree(tables: Tables, role: Roles, l: nat, k: nat, e: Pte)
    requires Tree(tables, role, map[]) && l in role && role[l].level == 0 && l in tables && k < |tables[l]|
    ensures Tree(SetEntry(tables, l, k, e), role, map[])
  {
    var tables' := SetEntry(tables, l, k, e);
    forall p | p in role ensures Node(tables', role, map[], p) {
      assert Node(tables, role, map[], p);
      forall k | 0 <= k < ENTRIES && tables'[p][k].Valid? && role[p].level > 0 ensures Child(tables', role, p, k) {
        assert Child(tables, role, p, k);
      }
      if role[p].level < 2 {
        assert Node(tables, role, map[], role[p].parent);
      }
    }
  }

  /** Writing a level-0 entry changes one mapping of one address space, and no other anywhere. */
  lemma SetLeafMapped(tables: Tables, role: Roles, l: nat, vpn: nat, e: Pte, root: nat, v: nat)
    requires Tree(tables, role, map[]) && l in role && role[l].level == 0 && role[l].prefix == Shift(vpn, 1)
    requires vpn < MAX_VPN
    requires root in role && role[root].level == 2 && l in tables && |tables[l]| == ENTRIES
    ensures Mapped(SetEntry(tables, l, Px(0, vpn), e), root, v) ==
            if root == role[l].root && v == vpn then e else Mapped(tables, root, v)
  {
    hide Tree, Lookup, LeafPage, Node;
    var tables' := SetEntry(tables, l, Px(0, vpn), e);
    if v < MAX_VPN {
      SetLeafTree(tables, role, l, Px(0, vpn), e);
      NodeAt(tables, role, root);
      NoTopBits(v);
      Resolve(tables, role, root, v);
      Resolve(tables', role, root, v);
      SameSizes(tables, role);
      LeafPageFrame(tables, tables', role, root, v);
      LeafReached(tables, role, l, vpn);
      assert Shift(v, 1) == v / ENTRIES && Shift(vpn, 1) == vpn / ENTRIES;
    }
  }

  lemma SameSizes(tables: Tables, role: Roles)
    requires Tree(tables, role, map[])
    ensures forall q :: q in role ==> q in tables && |tables[q]| == ENTRIES
  {
    forall q | q in role ensures q in tables && |tables[q]| == ENTRIES { assert Node(tables, role, map[], q); }
  }

  function WithTable(tables: Tables, p: nat, k: nat, page: nat): Tables
    requires p in tables && k < |tables[p]|
  {
    SetEntry(tables, p, k, Valid(page, TABLE))[page := EmptyTable()]
  }

  function NewRole(role: Roles, p: nat, k: nat): Role
    requires p in role && role[p].level > 0
  {
    Role(role[p].root, role[p].level - 1, role[p].prefix * ENTRIES + k, p, k)
  }

  /** Hanging an empty table into a free entry keeps the trees. */
  lemma WithTableTree(tables: Tables, role: Roles, p: nat, k: nat, page: nat)
    requires Tree(tables, role, map[]) && p in role && role[p].level > 0 && p in tables && k < |tables[p]| == ENTRIES
    requires page !in role && tables[p][k] == Invalid && role[p].prefix * ENTRIES + k < Bound(role[p].level - 1)
    ensures Tree(WithTable(tables, p, k, page), role[page := NewRole(role, p, k)], map[])
  {
    var tables', role' := WithTable(tables, p, k, page), role[page := NewRole(role, p, k)];
    hide Node, WithTable;
    forall q | q in role' ensures Node(tables', role', map[], q) {
      WithTableNode(tables, role, p, k, page, q);
    }
  }

  lemma WithTableNode(tables: Tables, role: Roles, p: nat, k: nat, page: nat, q: nat)
    requires Tree(tables, role, map[]) && p in role && role[p].level > 0 && p in tables && k < |tables[p]| == ENTRIES
    requires page !in role && tables[p][k] == Invalid && role[p].prefix * ENTRIES + k < Bound(role[p].level - 1)
    requires q in role || q == page
    ensures Node(WithTable(tables, p, k, page), role[page := NewRole(role, p, k)], map[], q)
  {
    hide Bound, Tree;
    var tables': Tables, role' := WithTable(tables, p, k, page), role[page := NewRole(role, p, k)];
    NodeAt(tables, role, p);
    if q != page {
      NodeAt(tables, role, q);
      forall i | 0 <= i < ENTRIES && tables'[q][i].Valid? && role[q].level > 0 ensures Child(tables', role', q, i) {
        if q != p || i != k { assert Child(tables, role, q, i); }
      }
      assert Hangs(tables', role', q) by {
        if role[q].level < 2 { NodeAt(tables, role, role[q].parent); }
      }
    }
  }

  lemma NodeAt(tables: Tables, role: Roles, p: nat)
    requires Tree(tables, role, map[]) && p in role
    ensures Node(tables, role, map[], p) && Hangs(tables, role, p)
  {
  }

  /** ... and changes no mapping. */
  lemma {:induction false} WithTableLookup(tables: Tables, role: Roles, p: nat, k: nat, page: nat, q: nat, vpn: nat)
    requires Tree(tables, role, map[]) && p in role && role[p].level > 0 && p in tables && k < |tables[p]| == ENTRIES
    requires page !in role && tables[p][k] == Invalid && q in role
    ensures Lookup(WithTable(tables, p, k, page), q, role[q].level, vpn) == Lookup(tables, q, role[q].level, vpn)
    decreases role[q].level
  {
    var tables' := WithTable(tables, p, k, page);
    assert Node(tables, role, map[], q);
    var level := role[q].level;
    if level > 0 {
      var i := Px(level, vpn);
      if q == p && i == k {
        assert tables'[page] == EmptyTable();
        assert Lookup(tables', page, level - 1, vpn) == Invalid;
      } else if tables[q][i].Valid? {
        assert Child(tables, role, q, i);
        WithTableLookup(tables, role, p, k, page, tables[q][i].ppn, vpn);
      }
    }
  }

  /** A new, empty address space. */
  lemma NewRootTree(tables: Tables, role: Roles, p: nat)
    requires Tree(tables, role, map[]) && p !in role
    ensures Tree(tables[p := EmptyTable()], role[p := Role(p, 2, 0, p, 0)], map[])
  {
    var tables', role' := tables[p := EmptyTable()], role[p := Role(p, 2, 0, p, 0)];
    forall q | q in role' ensures Node(tables', role', map[], q) {
      if q != p {
        assert Node(tables, role, map[], q);
        forall i | 0 <= i < ENTRIES && tables'[q][i].Valid? && role[q].level > 0 ensures Child(tables', role', q, i) {
          assert Child(tables, role, q, i);
        }
      }
    }
  }

  /** `q` is below entry `i` of `p`: a proper descendant through an earlier entry. */
  ghost predicate Below(role: Roles, p: nat, i: nat, q: nat)
    decreases if q in role && role[q].level <= 2 then 2 - role[q].level else 0
  {
    && p in role && q in role && role[q].level < role[p].level <= 2
    && role[q].parent in role && role[role[q].parent].level == role[q].level + 1
    && if role[q].parent == p then role[q].slot < i else Below(role, p, i, role[q].parent)
  }

  /** The table pages at and under `p`. */
  ghost predicate InTree(role: Roles, p: nat, q: nat) {
    p in role && (q == p || Below(role, p, ENTRIES, q))
  }

  /** The roles left when everything before entry `i` of `p` is gone. */
  ghost function Before(role: Roles, p: nat, i: nat): Roles {
    map q | q in role && !Below(role, p, i, q) :: role[q]
  }

  ghost function Pruned(role: Roles, p: nat): Roles {
    map q | q in role && !InTree(role, p, q) :: role[q]
  }

  /** Descendants through one more entry are those before it and the tree at the entry. */
  lemma {:induction false} BelowNext(role: Roles, p: nat, i: nat, c: nat, q: nat)
    requires forall d :: d in role ==> role[d].slot < ENTRIES
    requires p in role && c in role && role[p].level <= 2 && role[c].level + 1 == role[p].level && role[c].parent == p
    requires role[c].slot == i
    requires forall d ::
               d in role && role[d].parent == p && role[d].slot == i && role[d].level + 1 == role[p].level ==> d == c
    ensures Below(role, p, i + 1, q) <==> Below(role, p, i, q) || InTree(role, c, q)
    ensures !(Below(role, p, i, q) && InTree(role, c, q))
    decreases if q in role && role[q].level <= 2 then 2 - role[q].level else 0
  {
    if q in role && role[q].level < role[p].level && role[q].parent in role
      && role[role[q].parent].level == role[q].level + 1 && role[q].parent != p {
      BelowNext(role, p, i, c, role[q].parent);
    }
  }

  lemma {:induction false} BelowSame(role: Roles, p: nat, i: nat, q: nat)
    requires forall d :: d in role && role[d].parent == p && p in role && role[d].level + 1 == role[p].level ==>
               role[d].slot != i
    ensures Below(role, p, i + 1, q) <==> Below(role, p, i, q)
    decreases if q in role && role[q].level <= 2 then 2 - role[q].level else 0
  {
    if Below(role, p, i + 1, q) || Below(role, p, i, q) {
      if role[q].parent != p {
        BelowSame(role, p, i, role[q].parent);
      }
    }
  }

  /** Taking away what is before entry `i` of `p` leaves the tree at entry `i` whole. */
  lemma {:induction false} RestrictTree(role: Roles, p: nat, i: nat, c: nat, q: nat)
    requires forall d :: d in role ==> role[d].slot < ENTRIES
    requires p in role && c in role && role[p].level <= 2 && role[c].level + 1 == role[p].level && role[c].parent == p
    requires role[c].slot == i
    ensures InTree(Before(role, p, i), c, q) <==> InTree(role, c, q)
    ensures InTree(role, c, q) ==> !Below(role, p, i, q)
    decreases if q in role && role[q].level <= 2 then 2 - role[q].level else 0
  {
    if q != c && q in role && role[q].level < role[c].level && role[q].parent in role
      && role[role[q].parent].level == role[q].level + 1 {
      RestrictTree(role, p, i, c, role[q].parent);
    }
  }

  lemma NextRoles(role: Roles, p: nat, i: nat, c: nat)
    requires forall d :: d in role ==> role[d].slot < ENTRIES
    requires p in role && c in role && role[p].level <= 2 && role[c].level + 1 == role[p].level && role[c].parent == p
    requires role[c].slot == i
    requires forall d ::
               d in role && role[d].parent == p && role[d].slot == i && role[d].level + 1 == role[p].level ==> d == c
    ensures Pruned(Before(role, p, i), c) == Before(role, p, i + 1)
  {
    forall q ensures q in Pruned(Before(role, p, i), c) <==> q in Before(role, p, i + 1) {
      BelowNext(role, p, i, c, q);
      RestrictTree(role, p, i, c, q);
    }
  }

  /** Pages under dismantling promise less. */
  lemma LoosenTree(tables: Tables, role: Roles, loose: map<nat, nat>, p: nat, i: nat, c: nat)
    requires Tree(tables, role, loose) && p in loose && loose[p] <= i && c !in loose
    ensures Tree(tables, role, loose[p := i + 1][c := 0])
  {
    var loose' := loose[p := i + 1][c := 0];
    forall q | q in role ensures Node(tables, role, loose', q) {
      assert Node(tables, role, loose, q);
      forall k | 0 <= k < ENTRIES && tables[q][k].Valid? && (q in loose' ==> loose'[q] <= k) && role[q].level > 0
        ensures Child(tables, role, q, k)
      {
      }
    }
  }

  /** Clearing an entry that nothing hangs from any more. */
  lemma ClearTree(tables: Tables, role: Roles, loose: map<nat, nat>, p: nat, i: nat)
    requires Tree(tables, role, loose) && p in role && p in loose && loose[p] == i + 1 && p in tables && i < |tables[p]|
    requires forall d :: d in role && role[d].parent == p && d !in loose && role[d].level < 2 ==> role[d].slot != i
    ensures Tree(SetEntry(tables, p, i, Invalid), role, loose)
  {
    var tables' := SetEntry(tables, p, i, Invalid);
    forall q | q in role ensures Node(tables', role, loose, q) {
      assert Node(tables, role, loose, q);
      forall k | 0 <= k < ENTRIES && tables'[q][k].Valid? && (q in loose ==> loose[q] <= k) && role[q].level > 0
        ensures Child(tables', role, q, k)
      {
        assert Child(tables, role, q, k);
      }
    }
  }

  /** Dropping a page that nothing hangs from and nothing intact points to. */
  lemma DropTree(tables: Tables, role: Roles, loose: map<nat, nat>, p: nat, tables': Tables)
    requires Tree(tables, role, loose) && p in role && p in loose && loose[p] == ENTRIES
    requires forall d :: d in role && d !in loose && role[d].level < 2 ==> role[d].parent != p
    requires role[p].level < 2 ==> role[p].parent in loose && loose[role[p].parent] > role[p].slot
    requires forall q :: q in role && q != p ==> q in tables && q in tables' && tables'[q] == tables[q]
    ensures Tree(tables', role - {p}, loose - {p})
  {
    var role', loose' := role - {p}, loose - {p};
    forall q | q in role' ensures Node(tables', role', loose', q) {
      assert Node(tables, role, loose, q);
      forall k | 0 <= k < ENTRIES && tables'[q][k].Valid? && (q in loose' ==> loose'[q] <= k) && role[q].level > 0
        ensures Child(tables', role', q, k)
      {
        assert Child(tables, role, q, k);
      }
    }
  }

  /** No leaf mappings are left at or under `p`. */
  ghost predicate Bare(tables: Tables, role: Roles, p: nat) {
    forall q, k :: InTree(role, p, q) && role[q].level == 0 && q in tables && 0 <= k < |tables[q]| ==>
      tables[q][k] == Invalid
  }

  /** What freewalk starts from: a tree cut loose at `p`, without leaves. */
  ghost predicate Cut(tables: Tables, role: Roles, loose: map<nat, nat>, p: nat) {
    && Tree(tables, role, loose) && p in role && p in loose && loose[p] == 0 && Bare(tables, role, p)
    && (forall q :: q in loose && q != p ==> !InTree(role, p, q))
    && (role[p].level < 2 ==> role[p].parent in loose && loose[role[p].parent] > role[p].slot)
  }

  /** freewalk at `p` has dealt with the entries before `i`. */
  ghost predicate Walked(tables0: Tables, role0: Roles, loose: map<nat, nat>, p: nat, i: nat, tables: Tables,
                         role: Roles) {
    && role == Before(role0, p, i) && Tree(tables, role, loose[p := i]) && i <= ENTRIES
    && (forall q :: q in role && q != p ==> q in tables0 && q in tables && tables[q] == tables0[q])
    && p in tables0 && p in tables && |tables0[p]| == |tables[p]| == ENTRIES
    && (forall k :: i <= k < ENTRIES ==> tables[p][k] == tables0[p][k])
  }

  lemma KidIsEntry(tables: Tables, role: Roles, loose: map<nat, nat>, p: nat, d: nat)
    requires Cut(tables, role, loose, p) && d in role && role[d].parent == p && role[d].level + 1 == role[p].level
    ensures InTree(role, p, d) && d !in loose && p in tables && role[d].slot < |tables[p]|
    ensures tables[p][role[d].slot] == Valid(d, TABLE)
  {
    assert Node(tables, role, loose, p) && Node(tables, role, loose, d);
    assert Below(role, p, ENTRIES, d);
  }

  lemma Slots(tables: Tables, role: Roles, loose: map<nat, nat>)
    requires Tree(tables, role, loose)
    ensures forall d :: d in role ==>
              role[d].slot < ENTRIES && role[d].level <= 2 && d in tables && |tables[d]| == ENTRIES
  {
    forall d | d in role ensures role[d].slot < ENTRIES && role[d].level <= 2 && d in tables && |tables[d]| == ENTRIES {
      assert Node(tables, role, loose, d);
    }
  }

  lemma WalkStart(tables: Tables, role: Roles, loose: map<nat, nat>, p: nat)
    requires Cut(tables, role, loose, p)
    ensures Walked(tables, role, loose, p, 0, tables, role)
  {
    Slots(tables, role, loose);
    forall q ensures !Below(role, p, 0, q) { NoneBelow(role, p, q); }
    assert loose[p := 0] == loose;
    assert Before(role, p, 0) == role;
  }

  lemma {:induction false} NoneBelow(role: Roles, p: nat, q: nat)
    ensures !Below(role, p, 0, q)
    decreases if q in role && role[q].level <= 2 then 2 - role[q].level else 0
  {
    if Below(role, p, 0, q) { NoneBelow(role, p, role[q].parent); }
  }

  lemma StepEmpty(tables0: Tables, role0: Roles, loose: map<nat, nat>, p: nat, i: nat, tables: Tables, role: Roles)
    requires Cut(tables0, role0, loose, p) && Walked(tables0, role0, loose, p, i, tables, role)
    requires i < ENTRIES && tables[p][i] == Invalid
    ensures Walked(tables0, role0, loose, p, i + 1, tables, role)
  {
    NoKid(tables0, role0, loose, p, i, tables, role);
    hide Cut, Tree, Below;
    LoosenOne(tables, role, loose[p := i], p, i);
    assert loose[p := i][p := i + 1] == loose[p := i + 1];
  }

  /** An empty entry has no tables under it. */
  lemma NoKid(tables0: Tables, role0: Roles, loose: map<nat, nat>, p: nat, i: nat, tables: Tables, role: Roles)
    requires Cut(tables0, role0, loose, p) && Walked(tables0, role0, loose, p, i, tables, role)
    requires i < ENTRIES && tables[p][i] == Invalid
    ensures Before(role0, p, i + 1) == Before(role0, p, i)
  {
    hide Tree;
    forall d | d in role0 && role0[d].parent == p && role0[d].level + 1 == role0[p].level ensures role0[d].slot != i {
      KidIsEntry(tables0, role0, loose, p, d);
    }
    forall q ensures Below(role0, p, i + 1, q) <==> Below(role0, p, i, q) { BelowSame(role0, p, i, q); }
  }

  lemma LoosenOne(tables: Tables, role: Roles, loose: map<nat, nat>, p: nat, i: nat)
    requires Tree(tables, role, loose) && p in loose && loose[p] <= i
    ensures Tree(tables, role, loose[p := i + 1])
  {
    var loose' := loose[p := i + 1];
    forall q | q in role ensures Node(tables, role, loose', q) { assert Node(tables, role, loose, q); }
  }

  lemma BareRoot(tables: Tables, role: Roles, loose: map<nat, nat>, p: nat, i: nat)
    requires Cut(tables, role, loose, p) && p in tables && i < |tables[p]|
    ensures role[p].level == 0 ==> tables[p][i] == Invalid
  {
    assert InTree(role, p, p);
  }

  /** A valid entry met by freewalk is a table, which can be walked in turn. */
  lemma ChildEntry(tables0: Tables, role0: Roles, loose: map<nat, nat>, p: nat, i: nat, tables: Tables, role: Roles)
    requires Cut(tables0, role0, loose, p) && Walked(tables0, role0, loose, p, i, tables, role) && i < ENTRIES
    requires tables[p][i].Valid?
    ensures var c := tables[p][i].ppn;
            && tables[p][i].perm == TABLE && c in role && role0[p].level <= 2 && p in role && role[p] == role0[p]
            && c in role0 && role[c] == role0[c] && role[c].level + 1 == role0[p].level && role[c].parent == p
               && role[c].slot == i
            && c !in loose && c != p
  {
    Slots(tables0, role0, loose);
    BareRoot(tables0, role0, loose, p, i);
    assert Node(tables, role, loose[p := i], p);
    assert Child(tables, role, p, i);
    KidIsEntry(tables0, role0, loose, p, tables[p][i].ppn);
  }

  lemma ChildCut(tables0: Tables, role0: Roles, loose: map<nat, nat>, p: nat, i: nat, tables: Tables, role: Roles,
                 c: nat)
    requires Cut(tables0, role0, loose, p) && Walked(tables0, role0, loose, p, i, tables, role) && i < ENTRIES
    requires c in role && p in role && c in role0 && role[c] == role0[c] && role[p] == role0[p] && role0[p].level <= 2
    requires role[c].level + 1 == role0[p].level && role[c].parent == p && role[c].slot == i && c !in loose && c != p
    ensures Cut(tables, role, loose[p := i + 1][c := 0], c)
  {
    var loose' := loose[p := i + 1][c := 0];
    LoosenTree(tables, role, loose[p := i], p, i, c);
    assert loose[p := i][p := i + 1][c := 0] == loose';
    Slots(tables0, role0, loose);
    forall q ensures InTree(role, c, q) ==> InTree(role0, p, q) && q in role && q != p {
      UnderChild(tables0, role0, loose, p, i, c, q);
    }
    forall q, k | InTree(role, c, q) && role[q].level == 0 && q in tables && 0 <= k < |tables[q]|
      ensures tables[q][k] == Invalid
    {
      assert InTree(role0, p, q) && tables[q] == tables0[q];
    }
  }

  lemma UnderChild(tables0: Tables, role0: Roles, loose: map<nat, nat>, p: nat, i: nat, c: nat, q: nat)
    requires Cut(tables0, role0, loose, p) && c in role0 && role0[p].level <= 2 && i < ENTRIES
    requires role0[c].level + 1 == role0[p].level && role0[c].parent == p && role0[c].slot == i
    ensures InTree(Before(role0, p, i), c, q) ==> InTree(role0, p, q) && q in Before(role0, p, i) && q != p
  {
    Slots(tables0, role0, loose);
    forall d | d in role0 && role0[d].parent == p && role0[d].slot == i && role0[d].level + 1 == role0[p].level
      ensures d == c
    {
      KidIsEntry(tables0, role0, loose, p, d);
      KidIsEntry(tables0, role0, loose, p, c);
    }
    RestrictTree(role0, p, i, c, q);
    BelowNext(role0, p, i, c, q);
    if Below(role0, p, i + 1, q) { BelowMore(role0, p, i + 1, ENTRIES, q); }
  }

  lemma {:induction false} BelowMore(role: Roles, p: nat, i: nat, j: nat, q: nat)
    requires Below(role, p, i, q) && i <= j
    ensures Below(role, p, j, q)
    decreases if q in role && role[q].level <= 2 then 2 - role[q].level else 0
  {
    if role[q].parent != p { BelowMore(role, p, i, j, role[q].parent); }
  }

  lemma ChildDone(tables0: Tables, role0: Roles, loose: map<nat, nat>, p: nat, i: nat, tables: Tables, role: Roles,
                  c: nat, tables': Tables, role': Roles)
    requires Cut(tables0, role0, loose, p) && Walked(tables0, role0, loose, p, i, tables, role) && i < ENTRIES
    requires c in role && p in role && c in role0 && role[c] == role0[c] && role[p] == role0[p] && role0[p].level <= 2
    requires role[c].level + 1 == role0[p].level && role[c].parent == p && role[c].slot == i && c !in loose && c != p
    requires role' == Pruned(role, c) && Tree(tables', role', loose[p := i + 1][c := 0] - {c})
    requires forall q :: q in role' ==> q in tables && q in tables' && tables'[q] == tables[q]
    ensures p in tables' && i < |tables'[p]|
    ensures Walked(tables0, role0, loose, p, i + 1, SetEntry(tables', p, i, Invalid), role')
  {
    Slots(tables0, role0, loose);
    forall d | d in role0 && role0[d].parent == p && role0[d].slot == i && role0[d].level + 1 == role0[p].level
      ensures d == c
    {
      KidIsEntry(tables0, role0, loose, p, d);
      KidIsEntry(tables0, role0, loose, p, c);
    }
    NextRoles(role0, p, i, c);
    assert loose[p := i + 1][c := 0] - {c} == loose[p := i + 1];
    KidsGone(tables', role', loose[p := i + 1], role0, p, i, c);
    ClearTree(tables', role', loose[p := i + 1], p, i);
  }

  lemma KidsGone(tables: Tables, role: Roles, loose: map<nat, nat>, role0: Roles, p: nat, i: nat, c: nat)
    requires Tree(tables, role, loose) && role == Before(role0, p, i + 1) && p in role
    requires c !in role
    requires forall d ::
               d in role0 && role0[d].parent == p && role0[d].slot == i && role0[d].level + 1 == role0[p].level ==>
                 d == c
    ensures forall d :: d in role && role[d].parent == p && d !in loose && role[d].level < 2 ==> role[d].slot != i
  {
    forall d | d in role && role[d].parent == p && d !in loose && role[d].level < 2 ensures role[d].slot != i {
      assert Node(tables, role, loose, d);
    }
  }

  /** With all entries dealt with, only `p` itself is left of its tree. */
  lemma WalkDone(tables0: Tables, role0: Roles, loose: map<nat, nat>, p: nat, tables: Tables, role: Roles)
    requires Cut(tables0, role0, loose, p) && Walked(tables0, role0, loose, p, ENTRIES, tables, role)
    ensures p in role && role - {p} == Pruned(role0, p) && Tree(tables, role - {p}, loose - {p})
    ensures forall q :: q in role - {p} ==> q in tables0 && q in tables && tables[q] == tables0[q]
  {
    Slots(tables0, role0, loose);
    assert !Below(role0, p, ENTRIES, p);
    hide Tree;
    NothingHangs(tables0, role0, loose, p, tables, role);
    DropTree(tables, role, loose[p := ENTRIES], p, tables);
    assert loose[p := ENTRIES] - {p} == loose - {p};
  }

  /** Once the whole table has been walked, nothing hangs under it any more. */
  lemma NothingHangs(tables0: Tables, role0: Roles, loose: map<nat, nat>, p: nat, tables: Tables, role: Roles)
    requires Cut(tables0, role0, loose, p) && Walked(tables0, role0, loose, p, ENTRIES, tables, role)
    ensures forall d :: d in role && d !in loose[p := ENTRIES] && role[d].level < 2 ==> role[d].parent != p
  {
    Slots(tables0, role0, loose);
    forall d | d in role && d !in loose[p := ENTRIES] && role[d].level < 2 ensures role[d].parent != p {
      assert Node(tables, role, loose[p := ENTRIES], d);
    }
  }
}
