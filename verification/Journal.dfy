/** The metadata journal of the MOS filesystem: commit, crash and recovery, with every
    d_write one atomic step. */
module Journal {
  import opened Words
  import opened Disks

  const MAX_SEC: nat := 32           // FS_JOURNAL_MAX_SEC
  const TXN_MAGIC: u32 := 0x4A52_4E31

  datatype Write = Write(lba: nat, data: Sector)

  function Apply(d: Disk, ws: seq<Write>): Disk
    decreases |ws|
  {
    if |ws| == 0 then d else Apply(d[ws[0].lba := ws[0].data], ws[1..])
  }

  // ----- the boot sector and the transaction header -----

  function LogStart(b: Sector): u32 { WordAt(b, 8) }
  function LogSize(b: Sector): u32 { WordAt(b, 9) }
  function LogNext(b: Sector): u32 { WordAt(b, 10) }

  function SetLogNext(b: Sector, v: u32): Sector
  {
    b[..40] + Store32(v) + b[44..]
  }

  lemma SetLogNextFields(b: Sector, v: u32, w: u32)
    ensures LogNext(SetLogNext(b, v)) == v
    ensures LogStart(SetLogNext(b, v)) == LogStart(b) && LogSize(SetLogNext(b, v)) == LogSize(b)
    ensures SetLogNext(SetLogNext(b, v), w) == SetLogNext(b, w)
  {
    var c := SetLogNext(b, v);
    assert c[40..44] == Store32(v);
    assert c[32..36] == b[32..36] && c[36..40] == b[36..40];
    assert c[..40] == b[..40] && c[44..] == b[44..];
  }

  /** Sector i of the logged data. */
  function LogSector(b: Sector, i: nat): nat
  {
    (LogStart(b) as int + 1 + i) % 0x1_0000_0000
  }

  function CsumFrom(b: seq<u8>, sum: u32): u32
    decreases |b|
  {
    if |b| == 0 then sum
    else
      var s: u32 := (sum as int + b[0]) % 0x1_0000_0000;
      CsumFrom(b[1..], (s * 2) % 0x1_0000_0000 + s / 0x8000_0000)
  }

  /** fs_csum32: add a byte, rotate left by one. */
  method Csum32(data: seq<u8>) returns (sum: u32)
    ensures sum == CsumFrom(data, 0)
  {
    sum := 0;
    var i := 0;
    assert data[0..] == data;
    while i < |data|
      invariant 0 <= i <= |data| && CsumFrom(data, 0) == CsumFrom(data[i..], sum)
    {
      assert data[i..][1..] == data[i + 1..];
      sum := (sum as int + data[i]) % 0x1_0000_0000;
      sum := (sum * 2) % 0x1_0000_0000 + sum / 0x8000_0000;
      i := i + 1;
    }
  }

  function HeaderWords(lbas: seq<u32>): seq<u32>
    requires |lbas| <= MAX_SEC
  {
    [TXN_MAGIC, |lbas|] + lbas
  }

  /** struct fs_txn_hdr for these home sectors. */
  function Header(lbas: seq<u32>): Sector
    requires |lbas| <= MAX_SEC
  {
    var w := HeaderWords(lbas);
    Flat(w + seq(MAX_SEC - |lbas|, _ => 0) + [CsumFrom(Flat(w), 0)]) + Zeros(SECTOR - 4 * (3 + MAX_SEC))
  }

  function Nsec(h: Sector): u32 { WordAt(h, 1) }
  function HomeLba(h: Sector, i: nat): u32 requires i < MAX_SEC { WordAt(h, 2 + i) }

  /** The checks of fs_recover on a header sector. */
  predicate HeaderValid(h: Sector)
  {
    WordAt(h, 0) == TXN_MAGIC && 0 < Nsec(h) <= MAX_SEC && CsumFrom(h[..4 * (2 + Nsec(h))], 0) == WordAt(h, 34)
  }

  lemma HeaderRoundTrip(lbas: seq<u32>)
    requires 0 < |lbas| <= MAX_SEC
    ensures HeaderValid(Header(lbas)) && Nsec(Header(lbas)) == |lbas|
    ensures forall i :: 0 <= i < |lbas| ==> HomeLba(Header(lbas), i) == lbas[i]
  {
    var w := HeaderWords(lbas);
    var all := w + seq(MAX_SEC - |lbas|, _ => 0) + [CsumFrom(Flat(w), 0)];
    var h := Header(lbas);
    assert |all| == 35;
    forall i | 0 <= i < 35
      ensures WordAt(h, i) == all[i]
    {
      WordOfFlat(all, i);
      assert h[4 * i..4 * i + 4] == Flat(all)[4 * i..4 * i + 4];
    }
    assert WordAt(h, 1) == all[1] == |lbas|;
    FlatPrefix(all, 2 + |lbas|);
    assert all[..2 + |lbas|] == w;
    assert h[..4 * (2 + |lbas|)] == Flat(all)[..4 * (2 + |lbas|)];
  }

  // ----- the writes of a commit -----

  /** What one commit writes, and where: the header and the data copies in the log, the
      boot sector that marks the log full and the one that clears it, and the home sectors. */
  datatype Txn = Txn(hdrLba: nat, logs: seq<nat>, hdr: Sector, mark: Sector, clear: Sector, homes: seq<nat>,
      secs: seq<Sector>) {
    /** The home sectors avoid sector 0 and the log. */
    ghost predicate Ok()
    {
      && 0 < |homes| == |secs| == |logs|
      && hdrLba != 0 && (forall i :: 0 <= i < |logs| ==> logs[i] != 0 && logs[i] != hdrLba)
      && (forall i, j :: 0 <= i < j < |logs| ==> logs[i] != logs[j])
      && (forall i :: 0 <= i < |homes| ==> Plain(homes[i]))
    }

    /** Sectors the journal does not use for itself. */
    ghost predicate Plain(l: nat)
    {
      l != 0 && l != hdrLba && l !in logs
    }
  }

  /** Write k of fs_journal_commit: header, data, commit mark, home sectors, clear. */
  function CommitWrite(t: Txn, k: nat): Write
    requires |t.homes| == |t.secs| == |t.logs| && k < 2 * |t.homes| + 3
  {
    var n := |t.homes|;
    if k == 0 then Write(t.hdrLba, t.hdr)
    else if k <= n then Write(t.logs[k - 1], t.secs[k - 1])
    else if k == n + 1 then Write(0, t.mark)
    else if k <= 2 * n + 1 then Write(t.homes[k - n - 2], t.secs[k - n - 2])
    else Write(0, t.clear)
  }

  function CommitWrites(t: Txn): (ws: seq<Write>)
    requires |t.homes| == |t.secs| == |t.logs|
    ensures |ws| == 2 * |t.homes| + 3
  {
    seq(2 * |t.homes| + 3, k requires 0 <= k < 2 * |t.homes| + 3 => CommitWrite(t, k))
  }

  function HomeWrites(t: Txn): (ws: seq<Write>)
    requires |t.homes| == |t.secs|
    ensures |ws| == |t.homes|
  {
    seq(|t.homes|, i requires 0 <= i < |t.homes| => Write(t.homes[i], t.secs[i]))
  }

  lemma {:induction false} ApplyAppend(d: Disk, xs: seq<Write>, ys: seq<Write>)
    ensures Apply(d, xs + ys) == Apply(Apply(d, xs), ys)
    decreases |xs|
  {
    if |xs| == 0 {
      assert xs + ys == ys;
    } else {
      assert (xs + ys)[1..] == xs[1..] + ys;
      ApplyAppend(d[xs[0].lba := xs[0].data], xs[1..], ys);
    }
  }

  // One more write of a longer run.
  lemma ApplyNext(d: Disk, ws: seq<Write>, k: nat)
    requires k < |ws|
    ensures Apply(d, ws[..k + 1]) == Apply(d, ws[..k])[ws[k].lba := ws[k].data]
  {
    assert ws[..k + 1] == ws[..k] + [ws[k]];
    ApplyAppend(d, ws[..k], [ws[k]]);
    assert Apply(Apply(d, ws[..k]), [ws[k]]) == Apply(d, ws[..k])[ws[k].lba := ws[k].data] by {
      assert [ws[k]][1..] == [];
    }
  }

  /** d and e agree on every plain sector. */
  ghost predicate Agree(t: Txn, d: Disk, e: Disk)
  {
    forall l: nat :: t.Plain(l) ==> Read(d, l) == Read(e, l)
  }

  /** The log on disk holds the header and the first m sectors of this transaction. */
  ghost predicate Logged(t: Txn, d: Disk, m: nat)
    requires t.Ok() && m <= |t.homes|
  {
    Read(d, t.hdrLba) == t.hdr && forall i :: 0 <= i < m ==> Read(d, t.logs[i]) == t.secs[i]
  }

  function HomesDone(n: nat, k: nat): nat
  {
    if k <= n + 2 then 0 else if k <= 2 * n + 2 then k - n - 2 else n
  }

  /** The disk after the first k writes of the commit. */
  ghost predicate Phase(t: Txn, d0: Disk, d: Disk, k: nat)
    requires t.Ok() && k <= 2 * |t.homes| + 3
  {
    var n := |t.homes|;
    && Agree(t, d, Apply(d0, HomeWrites(t)[..HomesDone(n, k)]))
    && (k >= 1 ==> Logged(t, d, if k - 1 <= n then k - 1 else n))
    && Read(d, 0) == (if k <= n + 1 then Read(d0, 0) else if k <= 2 * n + 2 then t.mark else t.clear)
  }

  lemma {:induction false} CommitPhase(t: Txn, d0: Disk, k: nat)
    requires t.Ok() && k <= 2 * |t.homes| + 3
    ensures Phase(t, d0, Apply(d0, CommitWrites(t)[..k]), k)
  {
    var ws := CommitWrites(t);
    if k == 0 {
      assert ws[..0] == [] && HomeWrites(t)[..0] == [];
    } else {
      CommitPhase(t, d0, k - 1);
      ApplyNext(d0, ws, k - 1);
      PhaseStep(t, d0, Apply(d0, ws[..k - 1]), k - 1);
    }
  }

  lemma PhaseStep(t: Txn, d0: Disk, d: Disk, k: nat)
    requires t.Ok() && k < 2 * |t.homes| + 3 && Phase(t, d0, d, k)
    ensures var w := CommitWrite(t, k); Phase(t, d0, d[w.lba := w.data], k + 1)
  {
    var n := |t.homes|;
    if n + 2 <= k <= 2 * n + 1 {
      ApplyNext(d0, HomeWrites(t), k - n - 2);
    }
  }

  // ----- recovery -----

  /** The home writes of fs_recover from sector i on; each reads the disk as left by the one before. */
  function ReplayFrom(d: Disk, logs: seq<nat>, homes: seq<nat>, i: nat): seq<Write>
    requires |logs| == |homes| && i <= |homes|
    decreases |homes| - i
  {
    if i == |homes| then []
    else
      var w := Write(homes[i], Read(d, logs[i]));
      [w] + ReplayFrom(d[w.lba := w.data], logs, homes, i + 1)
  }

  lemma ReplayNext(d: Disk, logs: seq<nat>, homes: seq<nat>, i: nat)
    requires |logs| == |homes| && i < |homes|
    ensures var w := Write(homes[i], Read(d, logs[i])); var e := d[w.lba := w.data];
            && ReplayFrom(d, logs, homes, i) == [w] + ReplayFrom(e, logs, homes, i + 1)
            && Apply(d, ReplayFrom(d, logs, homes, i)) == Apply(e, ReplayFrom(e, logs, homes, i + 1))
  {
    var w := Write(homes[i], Read(d, logs[i]));
    assert ([w] + ReplayFrom(d[w.lba := w.data], logs, homes, i + 1))[1..] ==
        ReplayFrom(d[w.lba := w.data], logs, homes, i + 1);
  }

  function Homes(h: Sector): (r: seq<nat>)
    requires Nsec(h) <= MAX_SEC
    ensures |r| == Nsec(h)
  {
    seq(Nsec(h), i requires 0 <= i < Nsec(h) => HomeLba(h, i))
  }

  function Logs(b: Sector, n: nat): (r: seq<nat>)
    ensures |r| == n
  {
    seq(n, i requires 0 <= i < n => LogSector(b, i))
  }

  /** The writes of fs_recover with boot sector b. */
  function RecoverWrites(d: Disk, b: Sector): seq<Write>
  {
    if LogSize(b) == 0 || LogNext(b) == 0 then []
    else
      var h := Read(d, LogStart(b));
      (if HeaderValid(h) then ReplayFrom(d, Logs(b, Nsec(h)), Homes(h), 0) else []) + [Write(0, SetLogNext(b, 0))]
  }

  /** The transaction of fs_journal_commit(lbas, secs) with boot sector b. */
  function TxnOf(b: Sector, lbas: seq<u32>, secs: seq<Sector>): Txn
    requires |lbas| <= MAX_SEC
  {
    Txn(LogStart(b), Logs(b, |lbas|), Header(lbas), SetLogNext(b, |lbas| + 1), SetLogNext(b, 0), lbas, secs)
  }

  /** The commit is done but its mark still stands: the log decides. */
  ghost predicate Pending(t: Txn, d0: Disk, d: Disk)
    requires t.Ok()
  {
    && Read(d, 0) == t.mark && Logged(t, d, |t.homes|)
    && forall l: nat :: t.Plain(l) && l !in t.homes ==> Read(d, l) == Read(d0, l)
  }

  lemma {:induction false} ReplayIsHome(t: Txn, d: Disk, i: nat)
    requires t.Ok() && Logged(t, d, |t.homes|) && i <= |t.homes|
    ensures ReplayFrom(d, t.logs, t.homes, i) == HomeWrites(t)[i..]
    decreases |t.homes| - i
  {
    if i < |t.homes| {
      var e := d[t.homes[i] := t.secs[i]];
      assert Logged(t, e, |t.homes|);
      ReplayIsHome(t, e, i + 1);
      assert HomeWrites(t)[i..] == [HomeWrites(t)[i]] + HomeWrites(t)[i + 1..];
    }
  }

  lemma HomesOfHeader(lbas: seq<u32>)
    requires 0 < |lbas| <= MAX_SEC
    ensures var h := Header(lbas); HeaderValid(h) && Nsec(h) == |lbas| && Homes(h) == lbas
  {
    HeaderRoundTrip(lbas);
  }

  lemma MarkFields(b: Sector, n: nat)
    requires 0 < n <= MAX_SEC && LogSize(b) != 0
    ensures var m := SetLogNext(b, n + 1);
            && LogStart(m) == LogStart(b) && LogSize(m) != 0 && LogNext(m) != 0
            && Logs(m, n) == Logs(b, n) && SetLogNext(m, 0) == SetLogNext(b, 0)
  {
    var m := SetLogNext(b, n + 1);
    SetLogNextFields(b, n + 1, 0);
    assert forall i :: 0 <= i < n ==> Logs(m, n)[i] == Logs(b, n)[i];
  }

  // Recovery of a pending commit replays exactly the home writes, then clears the mark.
  lemma RecoverPending(b: Sector, lbas: seq<u32>, secs: seq<Sector>, d0: Disk, d: Disk)
    requires 0 < |lbas| <= MAX_SEC && LogSize(b) >= |lbas| + 1
    requires TxnOf(b, lbas, secs).Ok() && Pending(TxnOf(b, lbas, secs), d0, d)
    ensures var t := TxnOf(b, lbas, secs); RecoverWrites(d, t.mark) == HomeWrites(t) + [Write(0, t.clear)]
  {
    var t := TxnOf(b, lbas, secs);
    MarkFields(b, |lbas|);
    HomesOfHeader(lbas);
    ReplayIsHome(t, d, 0);
    assert HomeWrites(t)[0..] == HomeWrites(t);
  }

  // A recovery that crashes among its home writes leaves the commit pending.
  lemma {:induction false} CrashedReplay(t: Txn, d0: Disk, d: Disk, k: nat)
    requires t.Ok() && Pending(t, d0, d) && k <= |t.homes|
    ensures Pending(t, d0, Apply(d, HomeWrites(t)[..k]))
  {
    if k == 0 {
      assert HomeWrites(t)[..0] == [];
    } else {
      CrashedReplay(t, d0, d, k - 1);
      ApplyNext(d, HomeWrites(t), k - 1);
      assert t.homes[k - 1] in t.homes;
    }
  }

  // The home writes decide every home sector, whatever was there before.
  lemma {:induction false} ReplayDecides(t: Txn, d: Disk, e: Disk, k: nat, l: nat)
    requires |t.homes| == |t.secs| && k <= |t.homes|
    requires Read(d, l) == Read(e, l) || exists i :: 0 <= i < k && t.homes[i] == l
    ensures Read(Apply(d, HomeWrites(t)[..k]), l) == Read(Apply(e, HomeWrites(t)[..k]), l)
  {
    if k == 0 {
      assert HomeWrites(t)[..0] == [];
    } else {
      ApplyNext(d, HomeWrites(t), k - 1);
      ApplyNext(e, HomeWrites(t), k - 1);
      if t.homes[k - 1] != l {
        ReplayDecides(t, d, e, k - 1, l);
      }
    }
  }

  /** No commit is pending, and the plain sectors are those of e. */
  ghost predicate Settled(t: Txn, e: Disk, d: Disk)
  {
    LogNext(Read(d, 0)) == 0 && Agree(t, d, e)
  }

  ghost function Committed(t: Txn, d0: Disk): Disk
    requires |t.homes| == |t.secs|
  {
    Apply(d0, HomeWrites(t))
  }

  // A recovery that runs to the end installs the commit.
  lemma FinishedReplay(t: Txn, d0: Disk, d: Disk)
    requires t.Ok() && Pending(t, d0, d) && LogNext(t.clear) == 0
    ensures Settled(t, Committed(t, d0), Apply(d, HomeWrites(t) + [Write(0, t.clear)]))
  {
    var n, ws, w := |t.homes|, HomeWrites(t), Write(0, t.clear);
    var e := Apply(d, ws);
    ApplyAppend(d, ws, [w]);
    assert Apply(e, [w]) == e[0 := t.clear] by { assert [w][1..] == []; }
    assert ws[..n] == ws;
    forall l: nat | t.Plain(l)
      ensures Read(e, l) == Read(Committed(t, d0), l)
    {
      if l in t.homes {
        var i :| 0 <= i < n && t.homes[i] == l;
      }
      ReplayDecides(t, d, d0, n, l);
    }
  }

  // ----- crashes at any point -----

  function Take(ws: seq<Write>, k: nat): seq<Write>
  {
    if k <= |ws| then ws[..k] else ws
  }

  /** Recoveries that crash after k writes each, one after the other; each starts from the boot sector on disk. */
  ghost function AfterCrashes(d: Disk, ks: seq<nat>): Disk
    decreases |ks|
  {
    if |ks| == 0 then d
    else AfterCrashes(Apply(d, Take(RecoverWrites(d, Read(d, 0)), ks[0])), ks[1..])
  }

  ghost function Recovered(d: Disk): Disk
  {
    Apply(d, RecoverWrites(d, Read(d, 0)))
  }

  lemma {:induction false} SettledStays(t: Txn, e: Disk, d: Disk, ks: seq<nat>)
    requires Settled(t, e, d)
    ensures Settled(t, e, Recovered(AfterCrashes(d, ks)))
    decreases |ks|
  {
    assert RecoverWrites(d, Read(d, 0)) == [];
    if |ks| != 0 {
      assert Take([], ks[0]) == [];
      SettledStays(t, e, d, ks[1..]);
    }
  }

  lemma {:induction false} PendingSettles(b: Sector, lbas: seq<u32>, secs: seq<Sector>, d0: Disk, d: Disk, ks: seq<nat>)
    requires 0 < |lbas| <= MAX_SEC && LogSize(b) >= |lbas| + 1
    requires TxnOf(b, lbas, secs).Ok() && Pending(TxnOf(b, lbas, secs), d0, d)
    ensures var t := TxnOf(b, lbas, secs); Settled(t, Committed(t, d0), Recovered(AfterCrashes(d, ks)))
    decreases |ks|
  {
    var t := TxnOf(b, lbas, secs);
    var hs, w := HomeWrites(t), Write(0, t.clear);
    RecoverPending(b, lbas, secs, d0, d);
    SetLogNextFields(b, 0, 0);
    FinishedReplay(t, d0, d);
    if |ks| != 0 {
      if ks[0] <= |lbas| {
        assert Take(hs + [w], ks[0]) == hs[..ks[0]];
        CrashedReplay(t, d0, d, ks[0]);
        PendingSettles(b, lbas, secs, d0, Apply(d, hs[..ks[0]]), ks[1..]);
      } else {
        assert Take(hs + [w], ks[0]) == hs + [w];
        SettledStays(t, Committed(t, d0), Apply(d, hs + [w]), ks[1..]);
      }
    }
  }

  /** Atomicity: a crash after any k writes of a commit, then any number of crashed recoveries and
      a finished one, leaves the sectors outside the journal all old or all new; new exactly when
      the commit mark, write n + 1, had been reached. */
  lemma CommitIsAtomic(b: Sector, lbas: seq<u32>, secs: seq<Sector>, d0: Disk, k: nat, ks: seq<nat>)
    requires 0 < |lbas| <= MAX_SEC && LogSize(b) >= |lbas| + 1 && TxnOf(b, lbas, secs).Ok()
    requires LogNext(Read(d0, 0)) == 0 && k <= 2 * |lbas| + 3
    ensures var t := TxnOf(b, lbas, secs);
            Settled(t, if k <= |lbas| + 1 then d0 else Committed(t, d0),
                    Recovered(AfterCrashes(Apply(d0, CommitWrites(t)[..k]), ks)))
  {
    var t, n := TxnOf(b, lbas, secs), |lbas|;
    var d, hs := Apply(d0, CommitWrites(t)[..k]), HomeWrites(t);
    CommitPhase(t, d0, k);
    if k <= n + 1 {
      assert hs[..0] == [];
      SettledStays(t, d0, d, ks);
    } else if k <= 2 * n + 2 {
      forall l: nat | t.Plain(l) && l !in t.homes
        ensures Read(d, l) == Read(d0, l)
      {
        UntouchedByReplay(t, d0, HomesDone(n, k), l);
      }
      PendingSettles(b, lbas, secs, d0, d, ks);
    } else {
      assert hs[..n] == hs;
      SetLogNextFields(b, 0, 0);
      SettledStays(t, Committed(t, d0), d, ks);
    }
  }

  lemma {:induction false} UntouchedByReplay(t: Txn, d: Disk, k: nat, l: nat)
    requires |t.homes| == |t.secs| && k <= |t.homes| && l !in t.homes
    ensures Read(Apply(d, HomeWrites(t)[..k]), l) == Read(d, l)
  {
    if k == 0 {
      assert HomeWrites(t)[..0] == [];
    } else {
      ApplyNext(d, HomeWrites(t), k - 1);
      UntouchedByReplay(t, d, k - 1, l);
    }
  }

  // What fs_layout_valid checks of the log, and home sectors outside it, is enough for the protocol.
  lemma LayoutIsOk(b: Sector, lbas: seq<u32>, secs: seq<Sector>)
    requires 0 < |lbas| == |secs| <= MAX_SEC && LogSize(b) >= |lbas| + 1
    requires LogStart(b) != 0 && LogStart(b) as int + LogSize(b) <= 0x1_0000_0000
    requires forall i :: 0 <= i < |lbas| ==> lbas[i] != 0 && !(LogStart(b) <= lbas[i] < LogStart(b) as int + LogSize(b))
    ensures TxnOf(b, lbas, secs).Ok()
  {
    var t := TxnOf(b, lbas, secs);
    assert forall i :: 0 <= i < |lbas| ==> t.logs[i] == LogStart(b) as int + 1 + i;
  }

  // ----- the implementation -----

  class Volume {
    var disk: Disk
    var boot: Sector            // boot_sector, the copy in memory
    ghost var trace: seq<Write> // every d_write that succeeded

    constructor (d: Disk)
      ensures disk == d && boot == Read(d, 0) && trace == []
    {
      disk, boot, trace := d, Read(d, 0), [];
    }

    /** d_write: one atomic step, which may fail and then changes nothing. */
    method DWrite(lba: nat, data: Sector) returns (ok: bool)
      modifies this`disk, this`trace
      ensures disk == if ok then old(disk)[lba := data] else old(disk)
      ensures trace == if ok then old(trace) + [Write(lba, data)] else old(trace)
    {
      ok := *;
      if ok {
        disk := disk[lba := data];
        trace := trace + [Write(lba, data)];
      }
    }

    // d_write of write k of a run ws that is k writes in.
    method DWriteNext(ghost d0: Disk, ghost tr0: seq<Write>, ghost ws: seq<Write>, ghost k: nat, lba: nat, data: Sector)
      returns (ok: bool, ghost k': nat)
      requires k < |ws| && ws[k] == Write(lba, data) && disk == Apply(d0, ws[..k]) && trace == tr0 + ws[..k]
      modifies this`disk, this`trace
      ensures k' == (if ok then k + 1 else k) && disk == Apply(d0, ws[..k']) && trace == tr0 + ws[..k']
    {
      ok := DWrite(lba, data);
      k' := if ok then k + 1 else k;
      ApplyNext(d0, ws, k);
      assert ws[..k + 1] == ws[..k] + [ws[k]];
    }

    // The header and the copies of the new sectors go to the log.
    method WriteLog(hdr: Sector, secs: seq<Sector>, ghost t: Txn, ghost d0: Disk, ghost tr0: seq<Write>)
      returns (ok: bool, ghost k: nat)
      requires t.hdrLba == LogStart(boot) && t.hdr == hdr && t.secs == secs && |t.homes| == |secs| == |t.logs|
      requires forall i :: 0 <= i < |secs| ==> t.logs[i] == LogSector(boot, i)
      requires disk == d0 && trace == tr0
      modifies this`disk, this`trace
      ensures k <= |secs| + 1 && ok == (k == |secs| + 1)
      ensures disk == Apply(d0, CommitWrites(t)[..k]) && trace == tr0 + CommitWrites(t)[..k]
    {
      ghost var ws := CommitWrites(t);
      assert ws[..0] == [];
      ok, k := DWriteNext(d0, tr0, ws, 0, LogStart(boot), hdr);
      if !ok { return; }
      for i := 0 to |secs|
        invariant ok && k == 1 + i && disk == Apply(d0, ws[..k]) && trace == tr0 + ws[..k]
      {
        ok, k := DWriteNext(d0, tr0, ws, k, LogSector(boot, i), secs[i]);
        if !ok { return; }
      }
    }

    // The new sectors go home.
    method WriteHomes(lbas: seq<u32>, secs: seq<Sector>, ghost t: Txn, ghost d0: Disk, ghost tr0: seq<Write>)
      returns (ok: bool, ghost k: nat)
      requires t.homes == lbas && t.secs == secs && |t.homes| == |secs| == |t.logs|
      requires disk == Apply(d0, CommitWrites(t)[..|secs| + 2]) && trace == tr0 + CommitWrites(t)[..|secs| + 2]
      modifies this`disk, this`trace
      ensures |secs| + 2 <= k <= 2 * |secs| + 2 && ok == (k == 2 * |secs| + 2)
      ensures disk == Apply(d0, CommitWrites(t)[..k]) && trace == tr0 + CommitWrites(t)[..k]
    {
      ghost var ws := CommitWrites(t);
      ok, k := true, |secs| + 2;
      for i := 0 to |secs|
        invariant ok && k == |secs| + 2 + i && disk == Apply(d0, ws[..k]) && trace == tr0 + ws[..k]
      {
        ok, k := DWriteNext(d0, tr0, ws, k, lbas[i], secs[i]);
        if !ok { return; }
      }
    }

    /** fs_journal_commit: the writes of the transaction in order, stopping at the first that fails. */
    method Commit(lbas: seq<u32>, secs: seq<Sector>) returns (rc: int, ghost k: nat)
      requires |lbas| == |secs|
      modifies this
      ensures |lbas| == 0 || |lbas| > MAX_SEC || LogSize(old(boot)) < |lbas| + 1 ==>
                rc == -1 && disk == old(disk) && boot == old(boot) && trace == old(trace)
      ensures 0 < |lbas| <= MAX_SEC && LogSize(old(boot)) >= |lbas| + 1 ==>
                && k <= 2 * |lbas| + 3 && (rc == 0 ==> k == 2 * |lbas| + 3) && (k < 2 * |lbas| + 3 ==> rc == -1)
                && disk == Apply(old(disk), CommitWrites(TxnOf(old(boot), lbas, secs))[..k])
                && trace == old(trace) + CommitWrites(TxnOf(old(boot), lbas, secs))[..k]
                && boot == if k <= |lbas| then old(boot)
                  else SetLogNext(old(boot), if k <= 2 * |lbas| + 1 then |lbas| + 1 else 0)
    {
      var n := |lbas|;
      if n == 0 || n > MAX_SEC || LogSize(boot) < n + 1 { return -1, 0; }
      ghost var d0, tr0, t := disk, trace, TxnOf(boot, lbas, secs);
      SetLogNextFields(boot, n + 1, 0);
      var hdr := BuildHeader(lbas);
      var ok;
      ok, k := WriteLog(hdr, secs, t, d0, tr0);
      if !ok { return -1, k; }
      boot := SetLogNext(boot, n + 1);
      ok, k := DWriteNext(d0, tr0, CommitWrites(t), k, 0, boot);
      if !ok { return -1, k; }
      ok, k := WriteHomes(lbas, secs, t, d0, tr0);
      boot := if ok then SetLogNext(boot, 0) else boot;
      if !ok { return -1, k; }
      ok, k := DWriteNext(d0, tr0, CommitWrites(t), k, 0, boot);
      if !ok { return -1, k; }
      var synced: bool := *;
      rc := if synced then 0 else -1;
    }

    /** fs_recover, with reads and writes that succeed. */
    method Recover()
      modifies this
      ensures disk == Apply(old(disk), RecoverWrites(old(disk), old(boot)))
      ensures trace == old(trace) + RecoverWrites(old(disk), old(boot))
      ensures boot == if LogSize(old(boot)) == 0 || LogNext(old(boot)) == 0 then old(boot) else SetLogNext(old(boot), 0)
    {
      if LogSize(boot) == 0 || LogNext(boot) == 0 { return; }
      var h := Read(disk, LogStart(boot));
      if WordAt(h, 0) != TXN_MAGIC || Nsec(h) == 0 || Nsec(h) > MAX_SEC {
        ClearLog();
        return;
      }
      var want := Csum32(h[..4 * (2 + Nsec(h))]);
      if want != WordAt(h, 34) {
        ClearLog();
        return;
      }
      Replay(Logs(boot, Nsec(h)), Homes(h));
      ClearLog();
      ApplyAppend(old(disk), ReplayFrom(old(disk), Logs(old(boot), Nsec(h)), Homes(h), 0), [Write(0, boot)]);
    }

    method ClearLog()
      modifies this
      ensures boot == SetLogNext(old(boot), 0) && disk == Apply(old(disk), [Write(0, boot)])
      ensures trace == old(trace) + [Write(0, boot)]
    {
      boot := SetLogNext(boot, 0);
      disk := disk[0 := boot];
      trace := trace + [Write(0, boot)];
      assert [Write(0, boot)][1..] == [];
    }

    method Replay(logs: seq<nat>, homes: seq<nat>)
      requires |logs| == |homes|
      modifies this`disk, this`trace
      ensures disk == Apply(old(disk), ReplayFrom(old(disk), logs, homes, 0))
      ensures trace == old(trace) + ReplayFrom(old(disk), logs, homes, 0)
    {
      ghost var d0, tr0, ws := disk, trace, ReplayFrom(disk, logs, homes, 0);
      for i := 0 to |homes|
        invariant Apply(d0, ws) == Apply(disk, ReplayFrom(disk, logs, homes, i))
        invariant tr0 + ws == trace + ReplayFrom(disk, logs, homes, i)
      {
        var data := Read(disk, logs[i]);
        ReplayNext(disk, logs, homes, i);
        disk := disk[homes[i] := data];
        trace := trace + [Write(homes[i], data)];
      }
    }
  }

  // memset, magic, count, home sectors, checksum
  method BuildHeader(lbas: seq<u32>) returns (h: Sector)
    requires |lbas| <= MAX_SEC
    ensures h == Header(lbas)
  {
    var w: seq<u32> := [TXN_MAGIC, |lbas|];
    for i := 0 to |lbas|
      invariant w == [TXN_MAGIC, |lbas|] + lbas[..i]
    {
      w := w + [lbas[i]];
    }
    assert lbas[..|lbas|] == lbas;
    var sum := Csum32(Flat(w));
    h := Flat(w + seq(MAX_SEC - |lbas|, _ => 0) + [sum]) + Zeros(SECTOR - 4 * (3 + MAX_SEC));
  }
}
