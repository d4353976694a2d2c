/** The logging layer as it runs: the in-memory header, the loops that copy blocks, and the calls that
    reserve and fill log space. Its disk writes are proved to be those of RedoLog, its critical sections
    those of LogSpace. */
module LogDevice {
  import opened Params
  import opened Seqs
  import opened RedoLog
  import S = LogSpace
  import V = BlockView

  function Contents(lh: seq<nat>, m: map<nat, WordBlock>): (data: seq<WordBlock>)
    requires forall i :: 0 <= i < |lh| ==> lh[i] in m
    ensures |data| == |lh| && forall i :: 0 <= i < |lh| ==> data[i] == m[lh[i]]
  {
    seq(|lh|, i requires 0 <= i < |lh| => m[lh[i]])
  }

  function Firsts(lh: seq<nat>, k: nat): (r: set<nat>)
    requires k <= |lh|
    ensures forall b :: b in r <==> b in lh[..k]
  {
    if k == 0 then {} else Firsts(lh, k - 1) + {lh[k - 1]}
  }

  lemma FirstsStep(lh: seq<nat>, k: nat)
    requires k < |lh|
    ensures Firsts(lh, k + 1) == Firsts(lh, k) + {lh[k]}
  {
  }

  lemma StartInstall(d: Disk, ws: seq<Write>, lh: seq<nat>, m: map<nat, WordBlock>)
    requires forall i :: 0 <= i < |ws| ==> ws[i].addr < |d|
    ensures Apply(d, ws[..0]) == d && m - Firsts(lh, 0) == m && ws[..0] == []
  {
  }

  /** One more block is copied home; the log is still as it was. */
  lemma InstallStep(l: Area, d: Disk, lh: seq<nat>, data: seq<WordBlock>, k: nat)
    requires ValidTxn(l, d, lh) && |data| == |lh| && k < |lh|
    ensures var ws := InstallWrites(lh, data);
            && Apply(d, ws[..k + 1]) == Apply(d, ws[..k])[lh[k] := data[k]]
            && ws[..k + 1] == ws[..k] + [Write(lh[k], data[k])]
            && forall a :: InLog(l, a) ==> Apply(d, ws[..k])[a] == d[a]
  {
    hide Apply;
    var ws := InstallWrites(lh, data);
    ApplySnoc(d, ws, k);
    assert ws[..k] == InstallWrites(lh[..k], data[..k]);
    assert Updated(d, lh[..k], data[..k]) == Apply(d, ws[..k]);
    UpdatedAt(d, lh[..k], data[..k]);
  }

  /** The blocks of some log_writes in the order in which the header first met them. */
  function Noted(ws: seq<Write>): (lh: seq<nat>)
    ensures Distinct(lh) && |lh| <= |ws|
    ensures forall a :: a in lh <==> exists i :: 0 <= i < |ws| && ws[i].addr == a
  {
    if ws == [] then []
    else
      var n := |ws| - 1;
      var lh := Noted(ws[..n]);
      assert forall i :: 0 <= i < n ==> ws[..n][i] == ws[i];
      if ws[n].addr in lh then lh else lh + [ws[n].addr]
  }

  lemma {:induction false} NotedGrows(ws: seq<Write>, i: nat)
    requires i <= |ws|
    ensures Noted(ws[..i]) <= Noted(ws)
    decreases |ws| - i
  {
    hide Noted;
    if i == |ws| {
      assert ws[..i] == ws;
    } else {
      NotedGrows(ws, i + 1);
      NotedStep(ws, i);
    }
  }

  lemma NotedStep(ws: seq<Write>, i: nat)
    requires i < |ws|
    ensures var lh := Noted(ws[..i]);
            Noted(ws[..i + 1]) == if ws[i].addr in lh then lh else lh + [ws[i].addr]
  {
    assert ws[..i + 1][..i] == ws[..i];
  }

  /** The data of a transaction is what disk `t` holds at its blocks. */
  ghost predicate Matches(lh: seq<nat>, data: seq<WordBlock>, t: Disk) {
    |data| == |lh| && forall i :: 0 <= i < |lh| ==> lh[i] < |t| && data[i] == t[lh[i]]
  }

  /** None of the log_writes finds the log full. */
  predicate Roomy(size: int, ws: seq<Write>) {
    forall i :: 0 <= i < |ws| ==> |Noted(ws[..i])| < size - 1
  }

  class Log {
    const area: Area
    const block: array<nat>       // log.lh.block
    var n: nat                    // log.lh.n
    var outstanding: int
    var committing: bool
    var disk: Disk
    var pinned: map<nat, WordBlock>   // buffers that hold logged, not yet installed contents

    ghost var trace: seq<Write>   // every block write so far
    ghost var ops: seq<nat>       // per outstanding operation, the blocks it added

    ghost predicate Valid()
      reads this, block
    {
      && block.Length == LOGSIZE && n <= LOGSIZE && Fits(area, disk)
      && outstanding == |ops|
      && (forall b :: b in pinned ==> !InLog(area, b))
    }

    ghost function Header(): (lh: seq<nat>)
      requires Valid()
      reads this, block
    {
      block[..n]
    }

    ghost function Space(): S.State
      requires Valid()
      reads this, block
    {
      S.State(Header(), ops, committing)
    }

    /** The transaction gathered so far can be committed: its blocks are distinct, outside the log, and pinned. */
    ghost predicate Committable()
      reads this, block
    {
      && Valid() && ValidTxn(area, disk, Header())
      && forall i :: 0 <= i < n ==> block[i] in pinned
    }

    /** The pinned contents of the logged blocks. */
    ghost function Cached(): (data: seq<WordBlock>)
      requires Committable()
      reads this, block
      ensures |data| == n && forall i :: 0 <= i < n ==> data[i] == pinned[block[i]]
    {
      Contents(Header(), pinned)
    }

    constructor (a: Area, image: Disk)
      requires Fits(a, image)
      ensures Valid() && area == a && disk == image && n == 0 && pinned == map[] && trace == []
      ensures Space() == S.INIT
    {
      area, disk, n, outstanding, committing := a, image, 0, 0, false;
      pinned, trace, ops := map[], [], [];
      block := new nat[LOGSIZE];
    }

    /** The disk and the pinned buffers, as the buffer cache provides them. */
    function Now(): V.View<WordBlock>
      reads this
    {
      V.View(disk, pinned)
    }

    /** The contents a reader sees: a pinned buffer if there is one, else the disk block. */
    function Bread(b: nat): WordBlock
      requires b < |disk|
      reads this
    {
      V.Seen(Now(), b)
    }

    method Bwrite(addr: nat, data: WordBlock)
      requires Valid() && addr < |disk|
      modifies this`disk, this`trace
      ensures Valid() && disk == old(disk)[addr := data] && trace == old(trace) + [Write(addr, data)]
      ensures Now() == V.Written(old(Now()), addr, data)
    {
      disk := disk[addr := data];
      trace := trace + [Write(addr, data)];
    }

    method WriteLog()
      requires Committable()
      modifies this`disk, this`trace
      ensures Committable() && Cached() == old(Cached())
      ensures disk == Apply(old(disk), LogWrites(area, Cached()))
      ensures trace == old(trace) + LogWrites(area, Cached())
    {
      hide Apply, HeaderBlock;
      ghost var data := Cached();
      ghost var ws := LogWrites(area, data);
      ApplyNone(disk, ws[..0]);
      for tail := 0 to n
        invariant Valid() && |disk| == |old(disk)|
        invariant disk == Apply(old(disk), ws[..tail])
        invariant trace == old(trace) + ws[..tail]
      {
        var from := Bread(block[tail]);
        assert from == data[tail];
        ApplySnoc(old(disk), ws, tail);
        Bwrite(area.start + tail + 1, from);
      }
      assert ws[..n] == ws;
      assert Cached() == data;
    }

    method WriteHead()
      requires Valid()
      modifies this`disk, this`trace
      ensures Valid() && disk == old(disk)[area.start := HeaderBlock(old(disk)[area.start], Header())]
      ensures trace == old(trace) + [Write(area.start, HeaderBlock(old(disk)[area.start], Header()))]
    {
      ghost var was := disk[area.start];
      var buf: seq<int> := disk[area.start];
      buf := buf[0 := n];
      for i := 0 to n
        invariant |buf| == WORDS && buf[0] == n
        invariant buf[1..1 + i] == block[..i] && buf[1 + i..] == was[1 + i..]
      {
        buf := buf[1 + i := block[i]];
      }
      assert buf == [n] + buf[1..1 + n] + buf[1 + n..];
      assert buf == HeaderBlock(was, Header());
      Bwrite(area.start, buf);
    }

    /** One block goes home; after a commit its buffer is unpinned. */
    method Install(k: nat, lbuf: WordBlock, recovering: bool)
      requires Valid() && k < |disk|
      modifies this`disk, this`trace, this`pinned
      ensures Valid() && trace == old(trace) + [Write(k, lbuf)]
      ensures Now() == if recovering then V.Written(old(Now()), k, lbuf) else V.Installed(old(Now()), k, lbuf)
    {
      Bwrite(k, lbuf);
      if !recovering {
        pinned := pinned - {k};
      }
    }

    /** Copies the log blocks to their home locations; after a commit this also unpins the buffers. */
    method InstallTrans(recovering: bool)
      requires Valid() && ValidTxn(area, disk, Header())
      requires recovering ==> pinned == map[]
      modifies this`disk, this`trace, this`pinned
      ensures Valid()
      ensures var data := old(disk)[area.start + 1..area.start + 1 + n];
              && disk == Apply(old(disk), InstallWrites(Header(), data))
              && trace == old(trace) + InstallWrites(Header(), data)
      ensures pinned == if recovering then old(pinned) else old(pinned) - Firsts(Header(), n)
    {
      hide HeaderBlock, Apply, Firsts, Updated;
      ghost var d0, lh, data := disk, Header(), disk[area.start + 1..area.start + 1 + n];
      ghost var ws := InstallWrites(lh, data);
      StartInstall(d0, ws, lh, pinned);
      for tail := 0 to n
        invariant Valid() && Header() == lh
        invariant disk == Apply(d0, ws[..tail]) && trace == old(trace) + ws[..tail]
        invariant pinned == if recovering then old(pinned) else old(pinned) - Firsts(lh, tail)
      {
        InstallStep(area, d0, lh, data, tail);
        FirstsStep(lh, tail);
        Install(block[tail], disk[area.start + tail + 1], recovering);
      }
      assert ws[..n] == ws;
    }

    /** Makes exactly the commit's writes, so a crash in it is one of RedoLog's crash points. */
    method Commit()
      requires Committable()
      modifies this`disk, this`trace, this`pinned, this`n
      ensures Valid() && n == 0
      ensures Addressed(old(disk), CommitWrites(area, old(disk), old(Header()), old(Cached())))
      ensures disk == Apply(old(disk), CommitWrites(area, old(disk), old(Header()), old(Cached())))
      ensures trace == old(trace) + CommitWrites(area, old(disk), old(Header()), old(Cached()))
      ensures pinned == old(pinned) - Firsts(old(Header()), old(n))
    {
      hide HeaderBlock, Apply, CommitWrites, Firsts;
      CommitAddressed(area, disk, Header(), Cached());
      if n > 0 {
        CommitJoin(area, disk, Header(), Cached());
        WriteTransaction();
        InstallAndErase();
      } else {
        EmptyCommit(area, disk, Header(), Cached(), pinned);
      }
    }

    /** Up to and including the write that commits. */
    method WriteTransaction()
      requires Committable()
      modifies this`disk, this`trace
      ensures Valid() && ValidTxn(area, disk, Header())
      ensures var h := HeaderBlock(old(disk)[area.start], Header());
              && disk == Apply(old(disk), LogWrites(area, old(Cached())))[area.start := h]
              && trace == old(trace) + LogWrites(area, old(Cached())) + [Write(area.start, h)]
              && disk[area.start] == h
              && disk[area.start + 1..area.start + 1 + n] == old(Cached())
    {
      ghost var d0, data := disk, Cached();
      LogPhase(area, d0, data, n);
      assert LogWrites(area, data)[..n] == LogWrites(area, data);
      WriteLog();
      WriteHead();
      assert disk[area.start + 1..area.start + 1 + n] == data;
    }

    /** From the first home write to the emptied header. */
    method InstallAndErase()
      requires Valid() && ValidTxn(area, disk, Header())
      modifies this`disk, this`trace, this`pinned, this`n
      ensures Valid() && n == 0
      ensures var lh, data := old(Header()), old(disk)[area.start + 1..area.start + 1 + old(n)];
              var last := Write(area.start, HeaderBlock(old(disk)[area.start], []));
              && disk == Apply(old(disk), InstallWrites(lh, data))[area.start := last.block]
              && trace == old(trace) + InstallWrites(lh, data) + [last]
      ensures pinned == old(pinned) - Firsts(old(Header()), old(n))
    {
      hide HeaderBlock, Apply, Firsts;
      ghost var lh, data := Header(), disk[area.start + 1..area.start + 1 + n];
      InstallTrans(false);
      InstallLeavesLog(area, old(disk), lh, data);
      n := 0;
      WriteHead();
      assert Header() == [];
    }

    method ReadHead()
      requires Valid() && ValidHeader(area, disk)
      modifies this`n, block
      ensures Valid() && Header() == Targets(area, disk)
    {
      var lh := disk[area.start];
      n := lh[0];
      for i := 0 to n
        invariant Valid() && n == Count(area, disk)
        invariant forall k :: 0 <= k < i ==> block[k] == Target(area, disk, k)
      {
        assert lh[1 + i] == Target(area, disk, i);
        block[i] := lh[1 + i];
      }
    }

    /** Makes exactly the recovery's writes. */
    method RecoverFromLog()
      requires Valid() && ValidHeader(area, disk) && pinned == map[]
      modifies this`n, this`disk, this`trace, this`pinned, block
      ensures Valid() && n == 0 && pinned == map[]
      ensures disk == Apply(old(disk), RecoveryWrites(area, old(disk)))
      ensures trace == old(trace) + RecoveryWrites(area, old(disk))
    {
      hide HeaderBlock, Apply, ValidTxn, ValidHeader, RecoveryWrites, Targets, Logged;
      ghost var d := disk;
      ReadHead();
      RecoveryJoin(area, d);
      InstallTrans(true);
      n := 0;
      WriteHead();
      assert Header() == [];
    }

    // -------------------------------------------------------------- reservations

    /** One pass of the wait loop: admitted, or asleep until the next wakeup. */
    method BeginOp() returns (admitted: bool)
      requires Valid() && outstanding >= 0
      modifies this`outstanding, this`ops
      ensures Valid()
      ensures S.Step(area.size, old(Space()), S.Begin) == if admitted then S.Next(Space()) else S.Blocked
      ensures !admitted ==> Space() == old(Space())
    {
      if committing {
        return false;
      } else if n + (outstanding + 1) * MAXOPBLOCKS > LOGSIZE {
        return false;
      }
      outstanding := outstanding + 1;
      ops := ops + [0];
      return true;
    }

    /** Records a changed buffer: pins it and adds its number to the header unless it is there already. */
    method LogWrite(b: nat, data: WordBlock, ghost op: nat) returns (panic: bool)
      requires Valid() && b < |disk| && !InLog(area, b) && (outstanding >= 1 ==> op < |ops|)
      modifies this`n, this`pinned, this`ops, block
      ensures Valid()
      ensures S.Step(area.size, old(Space()), S.Log(op, b)) == if panic then S.Panic else S.Next(Space())
      ensures Now() == if panic then old(Now()) else V.Logged(old(Now()), b, data)
      ensures old(Committable()) ==> Committable()
      ensures old(S.Inv(Space()) && S.Allowed(Space(), S.Log(op, b))) ==> S.Inv(Space())
      ensures !panic ==> b in Header() && Bread(b) == data
      ensures forall c: nat :: c != b && c < |disk| ==> Bread(c) == old(Bread(c))
    {
      hide S.Inv, S.Allowed, Fits;
      LogKeepsInv(area.size, Space(), op, b);
      if n >= LOGSIZE || n >= area.size - 1 {
        return true;
      }
      if outstanding < 1 {
        return true;
      }
      var added := Note(b);
      if added {
        ops := ops[op := ops[op] + 1];
      }
      pinned := pinned[b := data];
      return false;
    }

    /** Log absorption: a block is listed once. */
    method Note(b: nat) returns (added: bool)
      requires Valid() && n < LOGSIZE
      modifies this`n, block
      ensures Valid() && (added <==> b !in old(Header()))
      ensures Header() == if added then old(Header()) + [b] else old(Header())
    {
      hide Fits, InLog;
      var i := 0;
      while i < n && block[i] != b
        invariant 0 <= i <= n
        invariant b !in block[..i]
      {
        i := i + 1;
      }
      ghost var lh := Header();
      block[i] := b;
      added := i == n;
      if added {
        assert b !in lh;
        n := n + 1;
        assert Header() == lh + [b];
      } else {
        assert Header() == lh && lh[i] == b;
      }
    }

    /** The first section of end_op: the last operation out is to commit. */
    method Leave(ghost op: nat) returns (doCommit: bool)
      requires Valid() && S.Inv(Space()) && op < |ops|
      modifies this`outstanding, this`committing, this`ops
      ensures Valid() && S.Step(area.size, old(Space()), S.End(op)) == S.Next(Space()) && S.Inv(Space())
      ensures doCommit == committing && (doCommit <==> outstanding == 0) && outstanding == old(outstanding) - 1
    {
      S.EndKeeps(area.size, Space(), op);
      outstanding := outstanding - 1;
      ops := Without(ops, op);
      doCommit := false;
      if outstanding == 0 {
        doCommit := true;
        committing := true;
      }
    }

    /** Ends an operation. The last one out commits what all of them logged and lets new ones in;
        any other leaves the disk and the gathered transaction alone. */
    method EndOp(ghost op: nat)
      requires Committable() && S.Inv(Space()) && op < |ops|
      modifies this`outstanding, this`committing, this`ops, this`disk, this`trace, this`pinned, this`n
      ensures Valid() && outstanding == old(outstanding) - 1 && !committing
      ensures outstanding > 0 ==>
                && S.Step(area.size, old(Space()), S.End(op)) == S.Next(Space())
                && disk == old(disk) && trace == old(trace) && pinned == old(pinned) && Committable()
      ensures Addressed(old(disk), CommitWrites(area, old(disk), old(Header()), old(Cached())))
      ensures outstanding == 0 ==>
                && Space() == S.INIT
                && disk == Apply(old(disk), CommitWrites(area, old(disk), old(Header()), old(Cached())))
                && trace == old(trace) + CommitWrites(area, old(disk), old(Header()), old(Cached()))
                && pinned == old(pinned) - Firsts(old(Header()), old(n))
    {
      hide HeaderBlock, Apply, CommitWrites, Firsts;
      CommitAddressed(area, disk, Header(), Cached());
      var doCommit := Leave(op);
      if doCommit {
        assert Cached() == old(Cached());
        Commit();
        committing := false;
        assert Header() == [];
      }
    }

    /** A whole operation on an idle log, from begin_op to end_op. What it leaves on the disk is what its
        writes would have left without a log, and the writes it makes are one commit of the logged blocks, in
        the order of their log_writes. */
    method Operation(ws: seq<Write>) returns (ghost data: seq<WordBlock>)
      requires Valid() && Space() == S.INIT && pinned == map[] && ValidHeader(area, disk) && Count(area, disk) == 0
      requires |Noted(ws)| <= MAXOPBLOCKS && Roomy(area.size, ws)
      requires forall i :: 0 <= i < |ws| ==> ws[i].addr < |disk| && !InLog(area, ws[i].addr)
      modifies this, block
      ensures Valid() && Space() == S.INIT && pinned == map[] && |disk| == |old(disk)|
      ensures ValidHeader(area, disk) && Count(area, disk) == 0
      ensures ValidTxn(area, old(disk), Noted(ws)) && Matches(Noted(ws), data, Apply(old(disk), ws))
      ensures trace == old(trace) + CommitWrites(area, old(disk), Noted(ws), data)
      ensures SameHome(area, Updated(old(disk), Noted(ws), data), Apply(old(disk), ws))
      ensures SameHome(area, disk, Apply(old(disk), ws))
    {
      hide HeaderBlock, Apply, CommitWrites, Updated, Noted, Roomy;
      var admitted := BeginOp();
      assert admitted && ops == [0];
      Gather(ws);
      data := Close(Apply(disk, ws));
    }

    /** The end_op of the only operation. */
    method Close(ghost t: Disk) returns (ghost data: seq<WordBlock>)
      requires Gathered(t) && n <= MAXOPBLOCKS && ValidHeader(area, disk) && Count(area, disk) == 0
      modifies this`outstanding, this`committing, this`ops, this`disk, this`trace, this`pinned, this`n
      ensures Valid() && Space() == S.INIT && pinned == map[] && |disk| == |old(disk)|
      ensures ValidHeader(area, disk) && Count(area, disk) == 0
      ensures ValidTxn(area, old(disk), old(Header())) && Matches(old(Header()), data, t)
      ensures trace == old(trace) + CommitWrites(area, old(disk), old(Header()), data)
      ensures SameHome(area, Updated(old(disk), old(Header()), data), t) && SameHome(area, disk, t)
    {
      hide HeaderBlock, Apply, CommitWrites, Updated, Matches;
      S.UnspentOne(n);
      data := Cached();
      GatheredIs(area, disk, pinned, Header(), data, t);
      CommitDone(area, disk, Header(), data);
      EndOp(0);
      assert pinned == map[];
    }

    /** A single operation is under way, every block it logged is pinned and no other, and readers see `t`. */
    ghost predicate Gathered(t: Disk)
      reads this, block
    {
      && Committable() && ops == [n] && !committing && |t| == |disk|
      && (forall b :: b in pinned <==> b in Header())
      && (forall b: nat :: b < |disk| ==> Bread(b) == t[b])
    }

    /** The log_write calls of one operation. */
    method Gather(ws: seq<Write>)
      requires Valid() && Gathered(disk) && n == 0 && |Noted(ws)| <= MAXOPBLOCKS && Roomy(area.size, ws)
      requires forall i :: 0 <= i < |ws| ==> ws[i].addr < |disk| && !InLog(area, ws[i].addr)
      modifies this`n, this`pinned, this`ops, block
      ensures Gathered(Apply(disk, ws)) && Header() == Noted(ws)
    {
      hide HeaderBlock, Apply, Gathered, Noted;
      ApplyNone(disk, ws[..0]);
      assert Header() == Noted(ws[..0]) == [];
      for i := 0 to |ws|
        invariant Valid() && Gathered(Apply(disk, ws[..i])) && Header() == Noted(ws[..i])
      {
        ApplySnoc(disk, ws, i);
        NotedGrows(ws, i);
        NotedStep(ws, i);
        GatherOne(ws[i], Apply(disk, ws[..i]));
      }
      assert ws[..|ws|] == ws;
    }

    method GatherOne(w: Write, ghost t: Disk)
      requires Gathered(t) && n < LOGSIZE && n < area.size - 1 && w.addr < |disk| && !InLog(area, w.addr)
      modifies this`n, this`pinned, this`ops, block
      ensures Valid() && Gathered(t[w.addr := w.block])
      ensures Header() == if w.addr in old(Header()) then old(Header()) else old(Header()) + [w.addr]
    {
      hide HeaderBlock, ValidTxn;
      LogOnly(area.size, Space(), w.addr);
      var panic := LogWrite(w.addr, w.block, 0);
    }
  }

  /** log_write by the only operation there is, with room left. */
  lemma LogOnly(size: int, s: S.State, b: nat)
    requires s.ops == [|s.lh|] && |s.lh| < LOGSIZE && |s.lh| < size - 1
    ensures var lh := if b in s.lh then s.lh else s.lh + [b];
            S.Step(size, s, S.Log(0, b)) == S.Next(S.State(lh, [|lh|], s.committing))
  {
  }

  lemma LogKeepsInv(size: int, s: S.State, op: nat, b: nat)
    ensures S.Inv(s) && S.Allowed(s, S.Log(op, b)) && S.Step(size, s, S.Log(op, b)).Next? ==>
              S.Inv(S.Step(size, s, S.Log(op, b)).s)
  {
    if S.Inv(s) && S.Allowed(s, S.Log(op, b)) {
      S.StepKeeps(size, s, S.Log(op, b));
    }
  }

  /** The pinned blocks over the old disk are the disk the transaction leads to. */
  lemma GatheredIs(l: Area, d: Disk, pinned: map<nat, WordBlock>, lh: seq<nat>, data: seq<WordBlock>, t: Disk)
    requires ValidTxn(l, d, lh) && |data| == |lh| && |t| == |d|
    requires forall b :: b in pinned <==> b in lh
    requires forall i :: 0 <= i < |lh| ==> data[i] == pinned[lh[i]]
    requires forall b :: 0 <= b < |d| ==> t[b] == if b in pinned then pinned[b] else d[b]
    ensures SameHome(l, Updated(d, lh, data), t) && Matches(lh, data, t)
  {
    hide Updated;
    UpdatedAt(d, lh, data);
  }

  /** The two phases of a recovery, applied one after the other. */
  lemma RecoveryJoin(l: Area, d: Disk)
    requires ValidHeader(l, d)
    ensures var lh, data := Targets(l, d), Logged(l, d);
            var d2, last := Apply(d, InstallWrites(lh, data)), HeaderBlock(d[l.start], []);
            && ValidTxn(l, d, lh) && |data| == |lh| && data == d[l.start + 1..l.start + 1 + |lh|]
            && RecoveryWrites(l, d) == InstallWrites(lh, data) + [Write(l.start, last)]
            && d2[l.start] == d[l.start] && Apply(d, RecoveryWrites(l, d)) == d2[l.start := last]
  {
    hide HeaderBlock, Apply;
    var lh, data := Targets(l, d), Logged(l, d);
    var w := Write(l.start, HeaderBlock(d[l.start], []));
    assert ValidTxn(l, d, lh) by {
      assert forall i :: 0 <= i < |lh| ==> lh[i] == Target(l, d, i);
    }
    InstallLeavesLog(l, d, lh, data);
    ApplyAppend(d, InstallWrites(lh, data), [w]);
    ApplyOne(Apply(d, InstallWrites(lh, data)), w);
  }

  /** Home writes do not reach the log area. */
  lemma {:induction false} InstallLeavesLog(l: Area, d: Disk, lh: seq<nat>, data: seq<WordBlock>)
    requires ValidTxn(l, d, lh) && |data| == |lh|
    ensures Updated(d, lh, data)[l.start] == d[l.start]
  {
    UpdatedAt(d, lh, data);
  }

  lemma EmptyCommit(l: Area, d: Disk, lh: seq<nat>, data: seq<WordBlock>, m: map<nat, WordBlock>)
    requires Fits(l, d) && lh == [] && data == []
    ensures CommitWrites(l, d, lh, data) == [] && Apply(d, []) == d && m - Firsts(lh, 0) == m
  {
  }

  /** The four phases of a commit, applied one after the other. */
  lemma CommitJoin(l: Area, d: Disk, lh: seq<nat>, data: seq<WordBlock>)
    requires ValidTxn(l, d, lh) && |data| == |lh| && lh != []
    requires Addressed(d, CommitWrites(l, d, lh, data))
    ensures var h := HeaderBlock(d[l.start], lh);
            var d2 := Apply(d, LogWrites(l, data))[l.start := h];
            var d3 := Apply(d2, InstallWrites(lh, data));
            && CommitWrites(l, d, lh, data) == LogWrites(l, data) + [Write(l.start, h)] + InstallWrites(lh, data)
                                               + [Write(l.start, HeaderBlock(h, []))]
            && Apply(d, CommitWrites(l, d, lh, data)) == d3[l.start := HeaderBlock(h, [])]
  {
    var h := HeaderBlock(d[l.start], lh);
    var w1, w2, w3 := LogWrites(l, data), [Write(l.start, h)], InstallWrites(lh, data);
    var w4 := [Write(l.start, HeaderBlock(h, []))];
    ApplyAppend(d, w1, w2);
    ApplyAppend(d, w1 + w2, w3);
    ApplyAppend(d, w1 + w2 + w3, w4);
  }
}
