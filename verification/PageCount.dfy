/** How many pages a range of user pages costs: the pages themselves and the table pages that are not there yet. */
module PageCount {
  import opened Arith
  import opened PageTable

  /** The place of a table page below the root of its address space. */
  datatype Spot = Spot(level: nat, prefix: nat)

  ghost function Spots(role: Roles, root: nat): set<Spot> {
    set q | q in role && role[q].root == root && role[q].level < 2 :: Spot(role[q].level, role[q].prefix)
  }

  /** The tables below the root that a walk to a page goes through, from the top down to `level`. */
  function Path(vpn: nat, level: nat): set<Spot> {
    (if level <= 1 then {Spot(1, Shift(vpn, 2))} else {}) + (if level == 0 then {Spot(0, Shift(vpn, 1))} else {})
  }

  function Routes(a: nat, b: nat): set<Spot>
    decreases b - a
  {
    if a >= b then {} else Routes(a, b - 1) + Path(b - 1, 0)
  }

  /** Table pages missing for pages `a` to `b`. */
  ghost function Lacking(role: Roles, root: nat, a: nat, b: nat): nat {
    |Routes(a, b) - Spots(role, root)|
  }

  /** What filling pages `a` to `b` takes in all. */
  ghost function Need(role: Roles, root: nat, a: nat, b: nat): nat {
    (if a <= b then b - a else 0) + Lacking(role, root, a, b)
  }

  // ---------------------------------------------------------------- counting

  lemma {:induction false} Smaller(a: set<Spot>, b: set<Spot>)
    requires a <= b
    ensures |a| <= |b|
  {
    if a != {} {
      var x :| x in a;
      Smaller(a - {x}, b - {x});
    }
  }

  /** What a second set adds to what is missing. */
  lemma CountBoth(r: set<Spot>, p: set<Spot>, s: set<Spot>)
    ensures |(r + p) - s| == |r - s| + |p - (s + r)|
  {
    var x, y := r - s, p - (s + r);
    assert (r + p) - s == x + y && x !! y;
  }

  lemma CountOne(r: set<Spot>, sp: Spot, s: set<Spot>)
    ensures |(r + {sp}) - s| == |r - s| + if sp in s || sp in r then 0 else 1
  {
    CountBoth(r, {sp}, s);
    assert {sp} - (s + r) == if sp in s || sp in r then {} else {sp};
  }

  // ---------------------------------------------------------------- one walk

  /** A table's place in its address space is its own. */
  lemma UniqueTable(tables: Tables, role: Roles, p: nat, q: nat)
    requires Tree(tables, role, map[]) && p in role && q in role
    requires role[p].root == role[q].root && role[p].level == role[q].level > 0 && role[p].prefix == role[q].prefix
    ensures p == q
  {
    NodeAt(tables, role, p);
    NodeAt(tables, role, q);
    if role[p].level == 1 {
      NodeAt(tables, role, role[p].parent);
      NodeAt(tables, role, role[q].parent);
    }
  }

  /** An entry on the way to a page is in use exactly when the next table is there. */
  lemma EntryIffSpot(tables: Tables, role: Roles, p: nat, vpn: nat)
    requires Tree(tables, role, map[]) && p in role && role[p].level > 0
    requires role[p].prefix == Shift(vpn, role[p].level + 1)
    ensures p in tables && |tables[p]| == ENTRIES
    ensures tables[p][Px(role[p].level, vpn)].Valid? <==>
              Spot(role[p].level - 1, Shift(vpn, role[p].level)) in Spots(role, role[p].root)
  {
    hide Tree;
    NodeAt(tables, role, p);
    var level, k := role[p].level, Px(role[p].level, vpn);
    var sp := Spot(level - 1, Shift(vpn, level));
    if tables[p][k].Valid? {
      assert Child(tables, role, p, k);
      var q := tables[p][k].ppn;
      assert q in role && role[q].root == role[p].root && Spot(role[q].level, role[q].prefix) == sp;
    }
    if sp in Spots(role, role[p].root) {
      var q :| q in role && role[q].root == role[p].root && Spot(role[q].level, role[q].prefix) == sp;
      SpotHangs(tables, role, p, q, vpn);
    }
  }

  lemma SpotHangs(tables: Tables, role: Roles, p: nat, q: nat, vpn: nat)
    requires Tree(tables, role, map[]) && p in role && q in role && 0 < role[p].level
    requires role[p].prefix == Shift(vpn, role[p].level + 1) && role[q].root == role[p].root
    requires role[q].level == role[p].level - 1 && role[q].prefix == Shift(vpn, role[p].level)
    ensures p in tables && |tables[p]| == ENTRIES && tables[p][Px(role[p].level, vpn)].Valid?
  {
    hide Tree;
    NodeAt(tables, role, p);
    NodeAt(tables, role, q);
    UniqueTable(tables, role, p, role[q].parent);
  }

  lemma SpotAdded(role: Roles, p: nat, k: nat, page: nat)
    requires p in role && 0 < role[p].level <= 2 && page !in role
    ensures var r := NewRole(role, p, k);
            Spots(role[page := r], r.root) == Spots(role, r.root) + {Spot(r.level, r.prefix)}
  {
    var r := NewRole(role, p, k);
    var role' := role[page := r];
    forall sp ensures sp in Spots(role', r.root) <==> sp in Spots(role, r.root) + {Spot(r.level, r.prefix)} {
      if sp in Spots(role, r.root) {
        var q :| q in role && role[q].root == r.root && role[q].level < 2 && Spot(role[q].level, role[q].prefix) == sp;
        assert q in role' && role'[q] == role[q];
      }
      if sp == Spot(r.level, r.prefix) {
        assert page in role' && role'[page] == r;
      }
    }
  }

  /** A walk has come down to `level`, with `free0` free pages before and `free1` now. */
  ghost predicate Descended(spots0: set<Spot>, free0: nat, spots1: set<Spot>, free1: nat, vpn: nat, level: nat) {
    spots1 == spots0 + Path(vpn, level) && free1 + |Path(vpn, level) - spots0| == free0
  }

  lemma DescendStart(spots: set<Spot>, free: nat, vpn: nat)
    ensures Descended(spots, free, spots, free, vpn, 2)
  {
    assert Path(vpn, 2) == {};
  }

  lemma PathStep(vpn: nat, level: nat)
    requires 0 < level <= 2
    ensures var sp := Spot(level - 1, Shift(vpn, level));
            Path(vpn, level - 1) == Path(vpn, level) + {sp} && sp !in Path(vpn, level) && sp in Path(vpn, 0)
    ensures Path(vpn, level) <= Path(vpn, 0)
  {
    hide Shift;
  }

  /** One level down, along an entry in use or with a new table. */
  lemma DescendStep(spots0: set<Spot>, free0: nat, spots1: set<Spot>, free1: nat, spots2: set<Spot>, free2: nat,
                    vpn: nat, level: nat)
    requires Descended(spots0, free0, spots1, free1, vpn, level) && 0 < level <= 2
    requires var sp := Spot(level - 1, Shift(vpn, level));
             if sp in spots1 then spots2 == spots1 && free2 == free1
             else spots2 == spots1 + {sp} && free2 + 1 == free1
    ensures Descended(spots0, free0, spots2, free2, vpn, level - 1)
  {
    hide Shift, Path;
    PathStep(vpn, level);
    CountOne(Path(vpn, level), Spot(level - 1, Shift(vpn, level)), spots0);
  }

  /** With a table missing and no page free the whole path costs more than there was. */
  lemma DescendStuck(spots0: set<Spot>, free0: nat, spots1: set<Spot>, free1: nat, vpn: nat, level: nat)
    requires Descended(spots0, free0, spots1, free1, vpn, level) && 0 < level <= 2
    requires Spot(level - 1, Shift(vpn, level)) !in spots1 && free1 == 0
    ensures free0 < |Path(vpn, 0) - spots0|
  {
    hide Shift, Path;
    PathStep(vpn, level);
    var sp := Spot(level - 1, Shift(vpn, level));
    CountOne(Path(vpn, level), sp, spots0);
    Smaller((Path(vpn, level) + {sp}) - spots0, Path(vpn, 0) - spots0);
  }

  // ---------------------------------------------------------------- a range of pages

  /** Pages `a` to `b` have been provided with tables, and with `own` pages besides. */
  ghost predicate Spent(role0: Roles, free0: nat, role1: Roles, free1: nat, root: nat, a: nat, b: nat, own: nat) {
    Spots(role1, root) == Spots(role0, root) + Routes(a, b) && free1 + own + Lacking(role0, root, a, b) == free0
  }

  lemma SpentStart(role: Roles, free: nat, root: nat, a: nat)
    ensures Spent(role, free, role, free, root, a, a, 0)
  {
  }

  lemma OneRoute(vpn: nat)
    ensures Routes(vpn, vpn + 1) == Path(vpn, 0)
  {
    assert Routes(vpn, vpn) == {};
  }

  lemma DescendDone(role0: Roles, free0: nat, role1: Roles, free1: nat, root: nat, vpn: nat)
    requires Descended(Spots(role0, root), free0, Spots(role1, root), free1, vpn, 0)
    ensures Spent(role0, free0, role1, free1, root, vpn, vpn + 1, 0)
  {
    OneRoute(vpn);
  }

  lemma PathCost(role: Roles, root: nat, vpn: nat)
    ensures Lacking(role, root, vpn, vpn + 1) == |Path(vpn, 0) - Spots(role, root)|
  {
    OneRoute(vpn);
  }

  lemma SpotLacking(role: Roles, root: nat, vpn: nat, level: nat)
    requires 0 < level <= 2 && Spot(level - 1, Shift(vpn, level)) !in Spots(role, root)
    ensures Lacking(role, root, vpn, vpn + 1) > 0
  {
    hide Shift, Path, Spots, Lacking;
    PathStep(vpn, level);
    PathCost(role, root, vpn);
    assert Spot(level - 1, Shift(vpn, level)) in Path(vpn, 0) - Spots(role, root);
  }

  lemma SpentCost(role0: Roles, free0: nat, role1: Roles, free1: nat, root: nat, a: nat, b: nat, own: nat)
    requires Spent(role0, free0, role1, free1, root, a, b, own)
    ensures free1 == free0 - own - Lacking(role0, root, a, b)
    ensures Spent(role0, free0 + 1, role1, free1, root, a, b, own + 1)
  {
  }

  lemma RoutesNext(a: nat, b: nat)
    requires a <= b
    ensures Routes(a, b + 1) == Routes(a, b) + Path(b, 0)
  {
    hide Path;
  }

  lemma SpentNext(role0: Roles, free0: nat, role1: Roles, free1: nat, role2: Roles, free2: nat, root: nat,
                  a: nat, b: nat, own: nat, more: nat)
    requires a <= b && Spent(role0, free0, role1, free1, root, a, b, own)
    requires Spent(role1, free1, role2, free2, root, b, b + 1, more)
    ensures Spent(role0, free0, role2, free2, root, a, b + 1, own + more)
  {
    hide Spots, Path, Routes;
    OneRoute(b);
    RoutesNext(a, b);
    CountBoth(Routes(a, b), Path(b, 0), Spots(role0, root));
  }

  /** What is too much for one page is too much for a range that goes on past it. */
  lemma SpentFails(role0: Roles, free0: nat, role1: Roles, free1: nat, root: nat, a: nat, b: nat, c: nat, own: nat,
                   more: nat)
    requires a <= b < c && Spent(role0, free0, role1, free1, root, a, b, own)
    requires free1 < more + Lacking(role1, root, b, b + 1)
    ensures free0 < own + more + Lacking(role0, root, a, c)
  {
    hide Spots, Path, Routes;
    OneRoute(b);
    var s0 := Spots(role0, root);
    CountBoth(Routes(a, b), Path(b, 0), s0);
    RoutesNext(a, b);
    RoutesMono(a, b + 1, c);
    Smaller(Routes(a, b + 1) - s0, Routes(a, c) - s0);
  }

  lemma {:induction false} RoutesMono(a: nat, b: nat, c: nat)
    requires b <= c
    ensures Routes(a, b) <= Routes(a, c)
    decreases c - b
  {
    if b < c {
      RoutesMono(a, b, c - 1);
    }
  }

  /** Never more than two tables for each page. */
  lemma {:induction false} NeedBound(role: Roles, root: nat, a: nat, b: nat)
    requires a <= b
    ensures Need(role, root, a, b) <= 3 * (b - a)
    decreases b - a
  {
    hide Lacking;
    LackingStep(role, root, a, b);
    if a < b {
      NeedBound(role, root, a, b - 1);
    }
  }

  lemma LackingStep(role: Roles, root: nat, a: nat, b: nat)
    requires a <= b
    ensures if a == b then Lacking(role, root, a, b) == 0
            else Lacking(role, root, a, b) <= Lacking(role, root, a, b - 1) + 2
  {
    hide Spots, Path;
    if a < b {
      RoutesNext(a, b - 1);
      hide Routes;
      var s, r, p := Spots(role, root), Routes(a, b - 1), Path(b - 1, 0);
      CountBoth(r, p, s);
      Smaller(p - (s + r), p);
      PathSize(b - 1);
      assert |(r + p) - s| <= |r - s| + 2;
    }
  }

  lemma PathSize(vpn: nat)
    ensures |Path(vpn, 0)| == 2
  {
    hide Shift;
  }

  lemma {:induction false} RoutesFromZero(n: nat, sp: Spot)
    ensures sp in Routes(0, n) <==>
              (sp.level == 0 && sp.prefix * 512 < n) || (sp.level == 1 && sp.prefix * 262144 < n)
  {
    if n > 0 {
      RoutesFromZero(n - 1, sp);
      ShiftsAre(n - 1);
      hide Shift;
    }
  }

  /** An empty address space grown to `n` pages takes a table for every 512 of them and another for every 512 of
      those, rounded up. */
  lemma {:induction false} TablesFromZero(n: nat)
    ensures |Routes(0, n)| == (n + 511) / 512 + (n + 262143) / 262144
  {
    if n > 0 {
      var v := n - 1;
      TablesFromZero(v);
      PathAdds(v);
      RoundedUp(v);
      assert Routes(0, n) == Routes(0, v) + Path(v, 0);
      hide Routes, Path;
    }
  }

  /** The tables that page `v` is the first to need. */
  lemma PathAdds(v: nat)
    ensures |Routes(0, v) + Path(v, 0)|
         == |Routes(0, v)| + (if v % 512 == 0 then 1 else 0) + (if v % 262144 == 0 then 1 else 0)
  {
    hide Shift, Routes;
    var s0, s1 := Spot(0, Shift(v, 1)), Spot(1, Shift(v, 2));
    assert Path(v, 0) == {s1, s0};
    hide Path;
    RoutesFromZero(v, s0);
    RoutesFromZero(v, s1);
    ShiftsAre(v);
    WholeParts(v);
    AddTwo(Routes(0, v), s0, s1);
  }

  lemma AddTwo(r: set<Spot>, x: Spot, y: Spot)
    requires x != y
    ensures |r + {y, x}| == |r| + (if x in r then 0 else 1) + (if y in r then 0 else 1)
  {
    assert r + {y, x} == r + {x} + {y};
    assert x in r ==> r + {x} == r;
    assert y in r ==> r + {x} + {y} == r + {x};
  }

  lemma WholeParts(v: nat)
    ensures v / 512 * 512 < v <==> v % 512 != 0
    ensures v / 262144 * 262144 < v <==> v % 262144 != 0
  {
  }

  lemma RoundedUp(v: nat)
    ensures (v + 1 + 511) / 512 == (v + 511) / 512 + if v % 512 == 0 then 1 else 0
    ensures (v + 1 + 262143) / 262144 == (v + 262143) / 262144 + if v % 262144 == 0 then 1 else 0
  {
    OneMore(v, 512);
    OneMore(v, 262144);
  }

  lemma OneMore(v: nat, m: nat)
    requires m > 0
    ensures (v + m) / m == (v + m - 1) / m + if v % m == 0 then 1 else 0
  {
    var q, r := v / m, v % m;
    DivModSplit(v, m);
    MulStep(q, m);
    DivModUnique(v + m, q + 1, r, m);
    if r == 0 {
      DivModUnique(v + m - 1, q, m - 1, m);
    } else {
      DivModUnique(v + m - 1, q + 1, r - 1, m);
    }
  }

  /** The pages for a new address space of `n` pages, its root table not counted. */
  lemma NeedFromZero(role: Roles, r: Role, root: nat, n: nat)
    requires r.level == 2 && root !in role && forall q :: q in role ==> role[q].root != root
    ensures Need(role[root := r], root, 0, n) == n + (n + 511) / 512 + (n + 262143) / 262144
  {
    TablesFromZero(n);
    assert Spots(role[root := r], root) == {};
    assert Routes(0, n) - {} == Routes(0, n);
  }

  lemma ShiftsAre(v: nat)
    ensures Shift(v, 1) == v / 512 && Shift(v, 2) == v / 262144
  {
    assert Shift(v, 1) == v / 512;
    assert Shift(v, 2) == Shift(v, 1) / 512;
  }
}
