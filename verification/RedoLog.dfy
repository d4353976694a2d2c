/** The write-ahead redo log: the disk format, commit and recovery as sequences of block writes,
    and what a crash between any two of them can leave behind. */
module RedoLog {
  import opened Params

  const WORDS: nat := 256   // 32-bit words per block

  /** A disk block, seen as its 32-bit words. */
  type WordBlock = b: seq<int> | |b| == WORDS witness seq(WORDS, i => 0)
  type Disk = seq<WordBlock>

  datatype Write = Write(addr: nat, block: WordBlock)

  /** The log area: a header block at `start`, then `size - 1` data blocks. */
  datatype Area = Area(start: nat, size: nat)

  predicate InLog(l: Area, a: int) {
    l.start <= a < l.start + l.size
  }

  predicate Fits(l: Area, d: Disk) {
    l.size >= 1 && l.start + l.size <= |d|
  }

  // ---------------------------------------------------------------- writes

  function Apply(d: Disk, ws: seq<Write>): (r: Disk)
    requires forall i :: 0 <= i < |ws| ==> ws[i].addr < |d|
    ensures |r| == |d|
    decreases |ws|
  {
    if ws == [] then d else Apply(d[ws[0].addr := ws[0].block], ws[1..])
  }

  lemma {:induction false} ApplyAppend(d: Disk, ws: seq<Write>, vs: seq<Write>)
    requires forall i :: 0 <= i < |ws| ==> ws[i].addr < |d|
    requires forall i :: 0 <= i < |vs| ==> vs[i].addr < |d|
    ensures forall i :: 0 <= i < |ws + vs| ==> (ws + vs)[i].addr < |d|
    ensures Apply(d, ws + vs) == Apply(Apply(d, ws), vs)
    decreases |ws|
  {
    if ws == [] {
      assert ws + vs == vs;
    } else {
      ApplyAppend(d[ws[0].addr := ws[0].block], ws[1..], vs);
      assert (ws + vs)[1..] == ws[1..] + vs;
    }
  }

  /** One more write. */
  lemma ApplySnoc(d: Disk, ws: seq<Write>, k: nat)
    requires k < |ws| && forall i :: 0 <= i < |ws| ==> ws[i].addr < |d|
    ensures Apply(d, ws[..k + 1]) == Apply(d, ws[..k])[ws[k].addr := ws[k].block]
    ensures Apply(d, ws[..0]) == d
  {
    hide Apply;
    ApplyAppend(d, ws[..k], [ws[k]]);
    ApplyOne(Apply(d, ws[..k]), ws[k]);
    ApplyNone(d, ws[..0]);
    assert ws[..k + 1] == ws[..k] + [ws[k]];
  }

  lemma ApplyNone(d: Disk, ws: seq<Write>)
    requires ws == []
    ensures Apply(d, ws) == d
  {
  }

  lemma ApplyOne(d: Disk, w: Write)
    requires w.addr < |d|
    ensures Apply(d, [w]) == d[w.addr := w.block]
  {
    ApplyNone(d[w.addr := w.block], [w][1..]);
  }

  // ---------------------------------------------------------------- the header block

  /** A header block after the in-memory header is stored in it; later words keep their old contents. */
  function HeaderBlock(was: WordBlock, lh: seq<nat>): WordBlock
    requires |lh| < WORDS
  {
    [|lh|] + lh + was[1 + |lh|..]
  }

  lemma HeaderWords(was: WordBlock, lh: seq<nat>)
    requires |lh| < WORDS
    ensures HeaderBlock(was, lh)[0] == |lh|
    ensures forall i :: 0 <= i < |lh| ==> HeaderBlock(was, lh)[1 + i] == lh[i]
  {
  }

  function Count(l: Area, d: Disk): int
    requires Fits(l, d)
  {
    d[l.start][0]
  }

  function Target(l: Area, d: Disk, i: nat): int
    requires Fits(l, d) && 1 + i < WORDS
  {
    d[l.start][1 + i]
  }

  /** A header the recovery code can follow: its entries fit and name distinct blocks outside the log. */
  ghost predicate ValidHeader(l: Area, d: Disk) {
    && Fits(l, d)
    && 0 <= Count(l, d) <= LOGSIZE && Count(l, d) <= l.size - 1
    && (forall i :: 0 <= i < Count(l, d) ==> 0 <= Target(l, d, i) < |d| && !InLog(l, Target(l, d, i)))
    && (forall i, j :: 0 <= i < j < Count(l, d) ==> Target(l, d, i) != Target(l, d, j))
  }

  /** The in-memory header of a transaction that may be committed. */
  ghost predicate ValidTxn(l: Area, d: Disk, lh: seq<nat>) {
    && Fits(l, d) && |lh| <= LOGSIZE && |lh| <= l.size - 1
    && (forall i :: 0 <= i < |lh| ==> lh[i] < |d| && !InLog(l, lh[i]))
    && (forall i, j :: 0 <= i < j < |lh| ==> lh[i] != lh[j])
  }

  // ---------------------------------------------------------------- commit and recovery as writes

  function LogWrites(l: Area, data: seq<WordBlock>): (ws: seq<Write>)
    ensures |ws| == |data| && forall i :: 0 <= i < |ws| ==> ws[i] == Write(l.start + 1 + i, data[i])
  {
    seq(|data|, i requires 0 <= i < |data| => Write(l.start + 1 + i, data[i]))
  }

  function InstallWrites(lh: seq<nat>, data: seq<WordBlock>): (ws: seq<Write>)
    requires |data| == |lh|
    ensures |ws| == |lh| && forall i :: 0 <= i < |ws| ==> ws[i] == Write(lh[i], data[i])
  {
    seq(|lh|, i requires 0 <= i < |lh| => Write(lh[i], data[i]))
  }

  /** The block writes of a commit, in order: log blocks, header, home blocks, empty header.
      `data` holds the cached contents of the logged blocks. */
  function CommitWrites(l: Area, d: Disk, lh: seq<nat>, data: seq<WordBlock>): (ws: seq<Write>)
    requires Fits(l, d) && |data| == |lh| < WORDS
  {
    if lh == [] then []
    else
      LogWrites(l, data)
      + [Write(l.start, HeaderBlock(d[l.start], lh))]
      + InstallWrites(lh, data)
      + [Write(l.start, HeaderBlock(HeaderBlock(d[l.start], lh), []))]
  }

  function Targets(l: Area, d: Disk): (lh: seq<nat>)
    requires ValidHeader(l, d)
    ensures |lh| == Count(l, d) && forall i :: 0 <= i < |lh| ==> lh[i] == Target(l, d, i)
  {
    seq(Count(l, d), i requires 0 <= i < Count(l, d) => Target(l, d, i))
  }

  function Logged(l: Area, d: Disk): (data: seq<WordBlock>)
    requires ValidHeader(l, d)
    ensures |data| == Count(l, d) && forall i :: 0 <= i < |data| ==> data[i] == d[l.start + 1 + i]
  {
    d[l.start + 1..l.start + 1 + Count(l, d)]
  }

  /** The block writes of a recovery: install whatever the header lists, then empty it. */
  function RecoveryWrites(l: Area, d: Disk): (ws: seq<Write>)
    requires ValidHeader(l, d)
    ensures |ws| == Count(l, d) + 1
    ensures forall i :: 0 <= i < |ws| ==> ws[i].addr < |d|
  {
    InstallWrites(Targets(l, d), Logged(l, d)) + [Write(l.start, HeaderBlock(d[l.start], []))]
  }

  // ---------------------------------------------------------------- what a disk recovers to

  /** The home blocks, everything outside the log, are those of `t`. */
  ghost predicate SameHome(l: Area, d: Disk, t: Disk) {
    |d| == |t| && forall a :: 0 <= a < |d| && !InLog(l, a) ==> d[a] == t[a]
  }

  /** Every home block is `t`'s, once the blocks listed in the header are read from the log. */
  ghost predicate RecoversTo(l: Area, d: Disk, t: Disk) {
    && ValidHeader(l, d) && |d| == |t|
    && (forall i :: 0 <= i < Count(l, d) ==> d[l.start + 1 + i] == t[Target(l, d, i)])
    && (forall a :: 0 <= a < |d| && !InLog(l, a) && a !in Targets(l, d) ==> d[a] == t[a])
  }

  ghost predicate SameLog(l: Area, d: Disk, e: Disk) {
    |e| == |d| && forall a :: 0 <= a < |d| && InLog(l, a) ==> e[a] == d[a]
  }

  /** The header and what it lists depend on the log area only. */
  lemma SameLogHeader(l: Area, d: Disk, e: Disk)
    requires ValidHeader(l, d) && SameLog(l, d, e)
    ensures ValidHeader(l, e) && e[l.start] == d[l.start]
    ensures Targets(l, e) == Targets(l, d) && Logged(l, e) == Logged(l, d)
  {
    assert InLog(l, l.start);
    assert forall k :: 0 <= k < Count(l, d) ==> Target(l, e, k) == Target(l, d, k);
  }

  /** A write outside the log leaves the log alone. */
  lemma HomeWrite(l: Area, d: Disk, a: nat, x: WordBlock)
    requires a < |d| && !InLog(l, a)
    ensures SameLog(l, d, d[a := x])
  {
  }

  /** What the header lists is what `t` has there, and stays so as long as the log does. */
  lemma LoggedStays(l: Area, d: Disk, e: Disk, t: Disk)
    requires RecoversTo(l, d, t) && SameLog(l, d, e)
    ensures ValidHeader(l, e) && Targets(l, e) == Targets(l, d) && Logged(l, e) == Logged(l, d)
    ensures forall i :: 0 <= i < Count(l, e) ==> e[l.start + 1 + i] == t[Target(l, e, i)]
  {
    SameLogHeader(l, d, e);
    hide ValidHeader;
    forall i | 0 <= i < Count(l, e) ensures e[l.start + 1 + i] == t[Target(l, e, i)] {
      assert Logged(l, e)[i] == Logged(l, d)[i] && Targets(l, e)[i] == Targets(l, d)[i];
    }
  }

  /** A single home write of the recovery. */
  lemma InstallOne(l: Area, d: Disk, t: Disk, i: nat)
    requires RecoversTo(l, d, t) && i < Count(l, d)
    ensures var e := d[Targets(l, d)[i] := Logged(l, d)[i]];
            SameLog(l, d, e) && RecoversTo(l, e, t) && e[Targets(l, d)[i]] == t[Targets(l, d)[i]]
  {
    hide SameLog, Logged, Targets, Target;
    var a, x := Targets(l, d)[i], Logged(l, d)[i];
    HomeWrite(l, d, a, x);
    LoggedStays(l, d, d[a := x], t);
  }

  lemma {:induction false} InstallSome(l: Area, d: Disk, t: Disk, k: nat)
    requires RecoversTo(l, d, t) && k <= Count(l, d)
    ensures var e := Apply(d, RecoveryWrites(l, d)[..k]);
            && SameLog(l, d, e) && RecoversTo(l, e, t)
            && (forall i :: 0 <= i < k ==> e[Targets(l, d)[i]] == t[Targets(l, d)[i]])
  {
    hide HeaderBlock, Apply, RecoversTo;
    RecoversValid(l, d, t);
    if k == 0 {
      ApplySnoc(d, RecoveryWrites(l, d), 0);
    } else {
      var ws := RecoveryWrites(l, d);
      InstallSome(l, d, t, k - 1);
      var m := Apply(d, ws[..k - 1]);
      ApplySnoc(d, ws, k - 1);
      SameLogHeader(l, d, m);
      InstallOne(l, m, t, k - 1);
      assert Apply(d, ws[..k]) == m[Targets(l, m)[k - 1] := Logged(l, m)[k - 1]];
      forall i | 0 <= i < k - 1 ensures Targets(l, d)[i] != Targets(l, d)[k - 1] {
        assert Target(l, d, i) != Target(l, d, k - 1);
      }
    }
  }

  lemma RecoversValid(l: Area, d: Disk, t: Disk)
    requires RecoversTo(l, d, t)
    ensures ValidHeader(l, d)
  {
  }

  /** Clearing the header after all home writes. */
  lemma RecoveryDone(l: Area, d: Disk, t: Disk)
    requires RecoversTo(l, d, t)
    ensures var r := Apply(d, RecoveryWrites(l, d));
            RecoversTo(l, r, t) && SameHome(l, r, t) && Count(l, r) == 0
  {
    hide HeaderBlock, Apply;
    var n, ws := Count(l, d), RecoveryWrites(l, d);
    InstallSome(l, d, t, n);
    var m := Apply(d, ws[..n]);
    ApplySnoc(d, ws, n);
    assert ws == ws[..n + 1];
    SameLogHeader(l, d, m);
    var r := Apply(d, ws);
    HeaderWords(d[l.start], []);
    assert r == m[l.start := HeaderBlock(d[l.start], [])];
    forall a | 0 <= a < |d| && !InLog(l, a)
      ensures m[a] == t[a]
    {
      if a in Targets(l, d) {
        var i :| 0 <= i < |Targets(l, d)| && Targets(l, d)[i] == a;
      } else {
        assert a !in Targets(l, m);
      }
    }
  }

  /** Stopping a recovery anywhere leaves a disk that recovers to the same blocks. */
  lemma InterruptedRecovery(l: Area, d: Disk, t: Disk, k: nat)
    requires RecoversTo(l, d, t) && k <= Count(l, d) + 1
    ensures RecoversTo(l, Apply(d, RecoveryWrites(l, d)[..k]), t)
  {
    if k <= Count(l, d) {
      InstallSome(l, d, t, k);
    } else {
      assert RecoveryWrites(l, d)[..k] == RecoveryWrites(l, d);
      RecoveryDone(l, d, t);
    }
  }

  /** Recovery stopped after `stops[0]` writes, restarted, stopped after `stops[1]` writes, and so on,
      until a last one runs to its end. */
  ghost function Recovered(l: Area, d: Disk, stops: seq<nat>): Disk
    requires ValidHeader(l, d)
    decreases |stops|
  {
    if stops == [] then Apply(d, RecoveryWrites(l, d))
    else
      var ws := RecoveryWrites(l, d);
      var e := Apply(d, if stops[0] <= |ws| then ws[..stops[0]] else ws);
      if ValidHeader(l, e) then Recovered(l, e, stops[1..]) else e
  }

  lemma {:induction false} RecoveredHome(l: Area, d: Disk, t: Disk, stops: seq<nat>)
    requires RecoversTo(l, d, t)
    ensures SameHome(l, Recovered(l, d, stops), t)
    ensures ValidHeader(l, Recovered(l, d, stops)) && Count(l, Recovered(l, d, stops)) == 0
    decreases |stops|
  {
    if stops == [] {
      RecoveryDone(l, d, t);
    } else {
      var ws := RecoveryWrites(l, d);
      var k := if stops[0] <= |ws| then stops[0] else |ws|;
      InterruptedRecovery(l, d, t, k);
      assert ws[..|ws|] == ws;
      RecoveredHome(l, Apply(d, ws[..k]), t, stops[1..]);
    }
  }

  // ---------------------------------------------------------------- crashes during a commit

  /** The home blocks after a transaction. */
  function Updated(d: Disk, lh: seq<nat>, data: seq<WordBlock>): (r: Disk)
    requires |data| == |lh| && forall i :: 0 <= i < |lh| ==> lh[i] < |d|
    ensures |r| == |d|
  {
    Apply(d, InstallWrites(lh, data))
  }

  lemma {:induction false} UpdatedAt(d: Disk, lh: seq<nat>, data: seq<WordBlock>)
    requires |data| == |lh| && forall i :: 0 <= i < |lh| ==> lh[i] < |d|
    requires forall i, j :: 0 <= i < j < |lh| ==> lh[i] != lh[j]
    ensures forall i :: 0 <= i < |lh| ==> Updated(d, lh, data)[lh[i]] == data[i]
    ensures forall a :: 0 <= a < |d| && a !in lh ==> Updated(d, lh, data)[a] == d[a]
    decreases |lh|
  {
    if lh != [] {
      var n := |lh| - 1;
      UpdatedAt(d, lh[..n], data[..n]);
      var ws := InstallWrites(lh, data);
      ApplyAppend(d, ws[..n], [ws[n]]);
      assert ws == ws[..n] + [ws[n]];
      assert ws[..n] == InstallWrites(lh[..n], data[..n]);
      assert Updated(d, lh, data) == Updated(d, lh[..n], data[..n])[lh[n] := data[n]];
      forall i | 0 <= i < |lh|
        ensures Updated(d, lh, data)[lh[i]] == data[i]
      {
        if i < n {
          assert lh[..n][i] == lh[i];
        }
      }
    }
  }

  /** Before the header write only the log area changes. */
  lemma {:induction false} LogPhase(l: Area, d: Disk, data: seq<WordBlock>, k: nat)
    requires Fits(l, d) && |data| <= l.size - 1 && k <= |data|
    ensures var e := Apply(d, LogWrites(l, data)[..k]);
            && SameHome(l, e, d) && e[l.start] == d[l.start]
            && (forall i :: 0 <= i < k ==> e[l.start + 1 + i] == data[i])
  {
    if k > 0 {
      var ws := LogWrites(l, data);
      LogPhase(l, d, data, k - 1);
      ApplyAppend(d, ws[..k - 1], [ws[k - 1]]);
      assert ws[..k] == ws[..k - 1] + [ws[k - 1]];
    }
  }

  lemma LogPhaseOld(l: Area, d: Disk, data: seq<WordBlock>, k: nat)
    requires ValidHeader(l, d) && Count(l, d) == 0 && |data| <= l.size - 1 && k <= |data|
    ensures RecoversTo(l, Apply(d, LogWrites(l, data)[..k]), d)
  {
    LogPhase(l, d, data, k);
  }

  /** The disk right after the header write of a commit. */
  function AtCommit(l: Area, d: Disk, lh: seq<nat>, data: seq<WordBlock>): (e: Disk)
    requires Fits(l, d) && |data| == |lh| < WORDS && |data| <= l.size - 1
    ensures |e| == |d|
  {
    Apply(d, LogWrites(l, data))[l.start := HeaderBlock(d[l.start], lh)]
  }

  /** It differs from the disk before in the log only, which lists the new blocks. */
  lemma AtCommitLog(l: Area, d: Disk, lh: seq<nat>, data: seq<WordBlock>)
    requires ValidTxn(l, d, lh) && |data| == |lh|
    ensures var e := AtCommit(l, d, lh, data);
            && SameHome(l, e, d) && ValidHeader(l, e) && Targets(l, e) == lh && Logged(l, e) == data
            && e[l.start] == HeaderBlock(d[l.start], lh)
  {
    hide HeaderBlock, Apply;
    var n := |lh|;
    LogPhase(l, d, data, n);
    assert LogWrites(l, data)[..n] == LogWrites(l, data);
    HeaderWords(d[l.start], lh);
    HeaderRead(l, AtCommit(l, d, lh, data), lh);
  }

  /** The header write is the commit point: from here on the disk recovers to the new blocks. */
  lemma CommitPoint(l: Area, d: Disk, lh: seq<nat>, data: seq<WordBlock>)
    requires ValidTxn(l, d, lh) && |data| == |lh|
    ensures var e := AtCommit(l, d, lh, data);
            && RecoversTo(l, e, Updated(d, lh, data))
            && Targets(l, e) == lh && Logged(l, e) == data
  {
    hide HeaderBlock, Apply, Updated, AtCommit, ValidHeader;
    AtCommitLog(l, d, lh, data);
    UpdatedAt(d, lh, data);
    var e := AtCommit(l, d, lh, data);
    forall i | 0 <= i < Count(l, e) ensures e[l.start + 1 + i] == Updated(d, lh, data)[Target(l, e, i)] {
      assert Logged(l, e)[i] == data[i] && Targets(l, e)[i] == lh[i];
    }
  }

  lemma HeaderRead(l: Area, e: Disk, lh: seq<nat>)
    requires ValidTxn(l, e, lh) && e[l.start][0] == |lh|
    requires forall i :: 0 <= i < |lh| ==> e[l.start][1 + i] == lh[i]
    ensures ValidHeader(l, e) && Targets(l, e) == lh
  {
    assert forall i :: 0 <= i < |lh| ==> Target(l, e, i) == lh[i];
  }

  /** Installing and clearing during a commit are the very writes a recovery would make. */
  lemma CommitTail(l: Area, d: Disk, lh: seq<nat>, data: seq<WordBlock>)
    requires ValidTxn(l, d, lh) && |data| == |lh| && lh != []
    ensures var e := AtCommit(l, d, lh, data);
            && ValidHeader(l, e)
            && CommitWrites(l, d, lh, data)
               == LogWrites(l, data) + [Write(l.start, HeaderBlock(d[l.start], lh))] + RecoveryWrites(l, e)
  {
    hide HeaderBlock, AtCommit, ValidHeader;
    AtCommitLog(l, d, lh, data);
  }

  /** The writes of a commit up to and including the header's. */
  lemma CommitFront(l: Area, d: Disk, lh: seq<nat>, data: seq<WordBlock>)
    requires ValidTxn(l, d, lh) && |data| == |lh|
    ensures var front := LogWrites(l, data) + [Write(l.start, HeaderBlock(d[l.start], lh))];
            Addressed(d, front) && Apply(d, front) == AtCommit(l, d, lh, data)
  {
    hide HeaderBlock, Apply;
    var w := Write(l.start, HeaderBlock(d[l.start], lh));
    ApplyAppend(d, LogWrites(l, data), [w]);
    ApplyOne(Apply(d, LogWrites(l, data)), w);
  }

  ghost predicate Addressed(d: Disk, ws: seq<Write>) {
    forall i :: 0 <= i < |ws| ==> ws[i].addr < |d|
  }

  lemma CommitAddressed(l: Area, d: Disk, lh: seq<nat>, data: seq<WordBlock>)
    requires ValidTxn(l, d, lh) && |data| == |lh|
    ensures Addressed(d, CommitWrites(l, d, lh, data))
  {
    if lh != [] {
      CommitTail(l, d, lh, data);
    }
  }

  /** Crash atomicity. Stop a commit after any number of its writes, then stop and restart recovery
      any number of times: the home blocks are all old up to the header write, and all new from it on. */
  lemma CrashAtomicity(l: Area, d: Disk, lh: seq<nat>, data: seq<WordBlock>, k: nat, stops: seq<nat>)
    requires ValidTxn(l, d, lh) && |data| == |lh|
    requires ValidHeader(l, d) && Count(l, d) == 0
    requires k <= |CommitWrites(l, d, lh, data)|
    ensures Addressed(d, CommitWrites(l, d, lh, data))
    ensures var e := Apply(d, CommitWrites(l, d, lh, data)[..k]);
            && ValidHeader(l, e)
            && SameHome(l, Recovered(l, e, stops), if k <= |lh| then d else Updated(d, lh, data))
            && ValidHeader(l, Recovered(l, e, stops)) && Count(l, Recovered(l, e, stops)) == 0
  {
    CommitAddressed(l, d, lh, data);
    CrashState(l, d, lh, data, k);
    var e := Apply(d, CommitWrites(l, d, lh, data)[..k]);
    RecoveredHome(l, e, if k <= |lh| then d else Updated(d, lh, data), stops);
  }

  /** What each crash point recovers to. */
  lemma CrashState(l: Area, d: Disk, lh: seq<nat>, data: seq<WordBlock>, k: nat)
    requires ValidTxn(l, d, lh) && |data| == |lh|
    requires ValidHeader(l, d) && Count(l, d) == 0
    requires k <= |CommitWrites(l, d, lh, data)| && Addressed(d, CommitWrites(l, d, lh, data))
    ensures RecoversTo(l, Apply(d, CommitWrites(l, d, lh, data)[..k]), if k <= |lh| then d else Updated(d, lh, data))
  {
    hide HeaderBlock, RecoversTo, Apply;
    if k <= |lh| {
      LogPhaseOld(l, d, data, k);
      assert CommitWrites(l, d, lh, data)[..k] == LogWrites(l, data)[..k];
    } else {
      CrashAfter(l, d, lh, data, k - |lh| - 1);
    }
  }

  /** Stopped `k` writes after the header write. */
  lemma CrashAfter(l: Area, d: Disk, lh: seq<nat>, data: seq<WordBlock>, k: nat)
    requires ValidTxn(l, d, lh) && |data| == |lh| && lh != []
    requires |lh| + 1 + k <= |CommitWrites(l, d, lh, data)|
    requires Addressed(d, CommitWrites(l, d, lh, data)[..|lh| + 1 + k])
    ensures RecoversTo(l, Apply(d, CommitWrites(l, d, lh, data)[..|lh| + 1 + k]), Updated(d, lh, data))
  {
    hide HeaderBlock, RecoversTo, Apply, AtCommit, CommitWrites, Updated, ValidTxn;
    CommitTail(l, d, lh, data);
    CommitPoint(l, d, lh, data);
    CommitFront(l, d, lh, data);
    var front := LogWrites(l, data) + [Write(l.start, HeaderBlock(d[l.start], lh))];
    var e := AtCommit(l, d, lh, data);
    var tail := RecoveryWrites(l, e)[..k];
    InterruptedRecovery(l, e, Updated(d, lh, data), k);
    ApplyAppend(d, front, tail);
    assert CommitWrites(l, d, lh, data)[..|lh| + 1 + k] == front + tail;
  }

  /** A commit that is not interrupted leaves the new blocks and an empty log. */
  lemma CommitDone(l: Area, d: Disk, lh: seq<nat>, data: seq<WordBlock>)
    requires ValidTxn(l, d, lh) && |data| == |lh|
    requires ValidHeader(l, d) && Count(l, d) == 0
    ensures Addressed(d, CommitWrites(l, d, lh, data))
    ensures var e := Apply(d, CommitWrites(l, d, lh, data));
            && SameHome(l, e, Updated(d, lh, data)) && ValidHeader(l, e) && Count(l, e) == 0
  {
    hide HeaderBlock, AtCommit;
    CommitAddressed(l, d, lh, data);
    if lh != [] {
      CommitTail(l, d, lh, data);
      CommitPoint(l, d, lh, data);
      CommitFront(l, d, lh, data);
      var e := AtCommit(l, d, lh, data);
      ApplyAppend(d, LogWrites(l, data) + [Write(l.start, HeaderBlock(d[l.start], lh))], RecoveryWrites(l, e));
      RecoveryDone(l, e, Updated(d, lh, data));
    }
  }

  // ---------------------------------------------------------------- a run of transactions

  datatype Txn = Txn(lh: seq<nat>, data: seq<WordBlock>)

  ghost predicate ValidTxns(l: Area, d: Disk, txns: seq<Txn>) {
    forall i :: 0 <= i < |txns| ==> ValidTxn(l, d, txns[i].lh) && |txns[i].data| == |txns[i].lh|
  }

  /** The plain disk after the transactions, with no log at all. */
  ghost function Plain(l: Area, d: Disk, txns: seq<Txn>): (r: Disk)
    requires ValidTxns(l, d, txns)
    ensures |r| == |d|
    decreases |txns|
  {
    if txns == [] then d
    else
      var m := Plain(l, d, txns[..|txns| - 1]);
      Updated(m, txns[|txns| - 1].lh, txns[|txns| - 1].data)
  }

  /** The real disk after committing the transactions one by one. */
  ghost function Committed(l: Area, d: Disk, txns: seq<Txn>): (r: Disk)
    requires ValidTxns(l, d, txns)
    ensures |r| == |d|
    decreases |txns|
  {
    if txns == [] then d
    else
      var m, x := Committed(l, d, txns[..|txns| - 1]), txns[|txns| - 1];
      CommitAddressed(l, m, x.lh, x.data);
      Apply(m, CommitWrites(l, m, x.lh, x.data))
  }

  lemma UpdatedHome(l: Area, d: Disk, e: Disk, lh: seq<nat>, data: seq<WordBlock>)
    requires SameHome(l, d, e) && ValidTxn(l, d, lh) && |data| == |lh|
    ensures SameHome(l, Updated(d, lh, data), Updated(e, lh, data))
  {
    UpdatedAt(d, lh, data);
    UpdatedAt(e, lh, data);
    forall a | 0 <= a < |d| && !InLog(l, a)
      ensures Updated(d, lh, data)[a] == Updated(e, lh, data)[a]
    {
      if a in lh {
        var i :| 0 <= i < |lh| && lh[i] == a;
      }
    }
  }

  lemma {:induction false} CommittedHome(l: Area, d: Disk, txns: seq<Txn>)
    requires ValidTxns(l, d, txns) && ValidHeader(l, d) && Count(l, d) == 0
    ensures SameHome(l, Committed(l, d, txns), Plain(l, d, txns))
    ensures ValidHeader(l, Committed(l, d, txns)) && Count(l, Committed(l, d, txns)) == 0
    decreases |txns|
  {
    if txns != [] {
      var before, x := txns[..|txns| - 1], txns[|txns| - 1];
      CommittedHome(l, d, before);
      CommitDone(l, Committed(l, d, before), x.lh, x.data);
      UpdatedHome(l, Committed(l, d, before), Plain(l, d, before), x.lh, x.data);
    }
  }

  /** Prefix consistency: wherever the machine stops, recovery yields the plain disk after a whole
      number of transactions, namely all those whose header had been written. */
  lemma PrefixConsistency(l: Area, d: Disk, txns: seq<Txn>, j: nat, k: nat, stops: seq<nat>)
    requires ValidTxns(l, d, txns) && ValidHeader(l, d) && Count(l, d) == 0 && j < |txns|
    requires k <= |CommitWrites(l, Committed(l, d, txns[..j]), txns[j].lh, txns[j].data)|
    ensures var m, x := Committed(l, d, txns[..j]), txns[j];
            && Addressed(m, CommitWrites(l, m, x.lh, x.data))
            && var e := Apply(m, CommitWrites(l, m, x.lh, x.data)[..k]);
               && ValidHeader(l, e)
               && SameHome(l, Recovered(l, e, stops), Plain(l, d, txns[..if k <= |x.lh| then j else j + 1]))
  {
    hide CommitWrites, ValidHeader, Recovered;
    var m, x := Committed(l, d, txns[..j]), txns[j];
    CommittedHome(l, d, txns[..j]);
    CrashAtomicity(l, m, x.lh, x.data, k, stops);
    UpdatedHome(l, m, Plain(l, d, txns[..j]), x.lh, x.data);
    assert txns[..j + 1][..j] == txns[..j];
  }
}
