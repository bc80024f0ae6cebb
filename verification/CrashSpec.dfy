/** The write-ahead log as a sequence of single-sector disk writes (log.c), and
    what recovery makes of a disk on which only some of them happened. */
module CrashSpec {

  const BLOCK_WORDS: nat := 128
  const LOGSIZE: nat := 30

  /** A 512-byte block, as the 32-bit words the log header overlays. */
  type Block = w: seq<nat> | |w| == BLOCK_WORDS witness seq(BLOCK_WORDS, _ => 0)

  type Disk = seq<Block>

  /** One atomic sector write. */
  datatype Write = Write(sector: nat, data: Block)

  /** The on-disk log: its header sector and its length in sectors. */
  datatype Region = Region(start: nat, size: nat) {
    predicate Has(s: nat) {
      start <= s < start + size
    }

    predicate Fits(d: Disk) {
      size >= 1 && start + size <= |d|
    }
  }

  function Apply(d: Disk, ws: seq<Write>): (r: Disk)
    ensures |r| == |d|
  {
    if ws == [] then d
    else
      var before := Apply(d, ws[..|ws| - 1]);
      var w := ws[|ws| - 1];
      if w.sector < |d| then before[w.sector := w.data] else before
  }

  /** struct logheader: the count in word 0, the sector numbers after it. */
  function HeaderCount(b: Block): nat {
    b[0]
  }

  function HeaderSectors(b: Block): (lh: seq<nat>)
    ensures HeaderCount(b) < BLOCK_WORDS ==> |lh| == HeaderCount(b)
  {
    if HeaderCount(b) < BLOCK_WORDS
    then seq(HeaderCount(b), i requires 0 <= i < BLOCK_WORDS - 1 => b[1 + i])
    else []
  }

  /** write_head overwrites the count and the first sectors only. */
  function WithHeader(b: Block, lh: seq<nat>): (r: Block)
    requires |lh| < BLOCK_WORDS
    ensures HeaderCount(r) == |lh| && HeaderSectors(r) == lh
  {
    seq(BLOCK_WORDS, i requires 0 <= i < BLOCK_WORDS =>
      if i == 0 then |lh| else if i <= |lh| then lh[i - 1] else b[i])
  }

  /** Sectors a transaction may hold: in range and outside the log. */
  ghost predicate HomeSectors(lh: seq<nat>, log: Region, d: Disk) {
    |lh| <= LOGSIZE && |lh| <= log.size - 1 && forall i :: 0 <= i < |lh| ==> lh[i] < |d| && !log.Has(lh[i])
  }

  /** The log header on this disk can be replayed. */
  ghost predicate Sane(d: Disk, log: Region) {
    log.Fits(d) && HeaderCount(d[log.start]) <= LOGSIZE && HomeSectors(HeaderSectors(d[log.start]), log, d)
  }

  ghost predicate SameHome(a: Disk, b: Disk, log: Region) {
    |a| == |b| && forall s :: 0 <= s < |a| && !log.Has(s) ==> a[s] == b[s]
  }

  lemma SameHomeTransitive(a: Disk, b: Disk, c: Disk, log: Region)
    requires SameHome(a, b, log) && SameHome(b, c, log)
    ensures SameHome(a, c, log)
  {
  }

  function LogWrites(log: Region, data: seq<Block>): (ws: seq<Write>)
    ensures |ws| == |data|
  {
    seq(|data|, i requires 0 <= i < |data| => Write(log.start + 1 + i, data[i]))
  }

  function InstallWrites(lh: seq<nat>, data: seq<Block>): (ws: seq<Write>)
    requires |lh| == |data|
    ensures |ws| == |data|
  {
    seq(|lh|, i requires 0 <= i < |lh| => Write(lh[i], data[i]))
  }

  /** write_log and the first write_head (log.c:193-194). */
  function SaveWrites(log: Region, header: Block, lh: seq<nat>, data: seq<Block>): (ws: seq<Write>)
    requires |lh| == |data| <= LOGSIZE
    ensures |ws| == |lh| + 1
  {
    LogWrites(log, data) + [Write(log.start, WithHeader(header, lh))]
  }

  /** install_trans and the write_head that clears the log (log.c:195-197). */
  function ClearWrites(log: Region, header: Block, lh: seq<nat>, data: seq<Block>): (ws: seq<Write>)
    requires |lh| == |data|
    ensures |ws| == |lh| + 1
  {
    InstallWrites(lh, data) + [Write(log.start, WithHeader(header, []))]
  }

  /** commit (log.c:189-199): every disk write it makes, in order.  `header` is
      the header block as it was before. */
  function CommitWrites(log: Region, header: Block, lh: seq<nat>, data: seq<Block>): (ws: seq<Write>)
    requires |lh| == |data| <= LOGSIZE
    ensures |ws| == if lh == [] then 0 else 2 * |lh| + 2
  {
    if lh == [] then []
    else SaveWrites(log, header, lh, data) + ClearWrites(log, WithHeader(header, lh), lh, data)
  }

  /** The blocks the log holds for these sectors. */
  function LogBlocks(d: Disk, log: Region, n: nat): (data: seq<Block>)
    requires log.start + 1 + n <= |d|
    ensures |data| == n
  {
    seq(n, i requires 0 <= i < n => d[log.start + 1 + i])
  }

  /** recover_from_log (log.c:114-121): the writes it makes on this disk. */
  function RecoverWrites(d: Disk, log: Region): (ws: seq<Write>)
    requires Sane(d, log)
  {
    var lh := HeaderSectors(d[log.start]);
    ClearWrites(log, d[log.start], lh, LogBlocks(d, log, |lh|))
  }

  function Recovered(d: Disk, log: Region): Disk
    requires Sane(d, log)
  {
    Apply(d, RecoverWrites(d, log))
  }

  lemma {:induction false} ApplyConcat(d: Disk, a: seq<Write>, b: seq<Write>)
    ensures Apply(d, a + b) == Apply(Apply(d, a), b)
  {
    if b == [] {
      assert a + b == a;
    } else {
      var front := b[..|b| - 1];
      ApplyConcat(d, a, front);
      assert (a + b)[..|a + b| - 1] == a + front;
    }
  }

  lemma ApplySnoc(d: Disk, ws: seq<Write>, w: Write)
    requires w.sector < |d|
    ensures Apply(d, ws + [w]) == Apply(d, ws)[w.sector := w.data]
  {
    assert (ws + [w])[..|ws + [w]| - 1] == ws;
  }

  /** A sector no write names keeps its block. */
  lemma {:induction false} ApplyFrame(d: Disk, ws: seq<Write>, s: nat)
    requires s < |d| && forall i :: 0 <= i < |ws| ==> ws[i].sector != s
    ensures Apply(d, ws)[s] == d[s]
  {
    if ws != [] {
      ApplyFrame(d, ws[..|ws| - 1], s);
    }
  }

  /** The last of some writes to a sector wins; here all that name s agree. */
  lemma {:induction false} ApplyLast(d: Disk, ws: seq<Write>, s: nat, k: nat, v: Block)
    requires s < |d| && k < |ws| && ws[k] == Write(s, v)
    requires forall i :: k < i < |ws| ==> ws[i].sector == s ==> ws[i].data == v
    ensures Apply(d, ws)[s] == v
  {
    if k < |ws| - 1 {
      ApplyLast(d, ws[..|ws| - 1], s, k, v);
    }
  }

  /** Two replays of the same writes agree, whatever the starting blocks, on
      every sector named; elsewhere they keep what was there. */
  lemma {:induction false} ApplyCongruent(d: Disk, e: Disk, ws: seq<Write>, s: nat)
    requires |d| == |e| && s < |d|
    requires d[s] == e[s] || exists i :: 0 <= i < |ws| && ws[i].sector == s
    ensures Apply(d, ws)[s] == Apply(e, ws)[s]
  {
    if ws != [] {
      var front, w := ws[..|ws| - 1], ws[|ws| - 1];
      if w.sector != s {
        if i :| 0 <= i < |ws| && ws[i].sector == s {
          assert front[i].sector == s;
        }
        ApplyCongruent(d, e, front, s);
      }
    }
  }

  /** Install writes stay off the log. */
  lemma InstallKeepsLog(d: Disk, log: Region, lh: seq<nat>, data: seq<Block>, j: nat, s: nat)
    requires log.Fits(d) && HomeSectors(lh, log, d) && |lh| == |data| && j <= |lh|
    requires log.Has(s)
    ensures Apply(d, InstallWrites(lh, data)[..j])[s] == d[s]
  {
    ApplyFrame(d, InstallWrites(lh, data)[..j], s);
  }

  /** Replaying the installs over a disk where some of them already happened. */
  lemma InstallAgain(d: Disk, lh: seq<nat>, data: seq<Block>, j: nat, s: nat)
    requires |lh| == |data| && j <= |lh| && s < |d|
    ensures var ws := InstallWrites(lh, data); Apply(Apply(d, ws[..j]), ws)[s] == Apply(d, ws)[s]
  {
    var ws := InstallWrites(lh, data);
    var d' := Apply(d, ws[..j]);
    if i :| 0 <= i < |ws| && ws[i].sector == s {
      ApplyCongruent(d', d, ws, s);
    } else {
      ApplyFrame(d, ws[..j], s);
      ApplyCongruent(d', d, ws, s);
    }
  }

  /** What recovery does to home sectors and to the header. */
  lemma RecoveredBlocks(d: Disk, log: Region)
    requires Sane(d, log)
    ensures var lh := HeaderSectors(d[log.start]);
            var ws := InstallWrites(lh, LogBlocks(d, log, |lh|));
            SameHome(Recovered(d, log), Apply(d, ws), log)
    ensures Recovered(d, log)[log.start] == WithHeader(d[log.start], [])
  {
    var lh := HeaderSectors(d[log.start]);
    var ws := InstallWrites(lh, LogBlocks(d, log, |lh|));
    var clear := [Write(log.start, WithHeader(d[log.start], []))];
    ApplyConcat(d, ws, clear);
    assert clear[..0] == [];
    assert Apply(Apply(d, ws), clear) == Apply(d, ws)[log.start := clear[0].data];
  }

  /** Recovering a disk whose log is clear changes no home block. */
  lemma RecoveredClear(d: Disk, log: Region)
    requires Sane(d, log) && HeaderCount(d[log.start]) == 0
    ensures SameHome(Recovered(d, log), d, log)
  {
    RecoveredBlocks(d, log);
  }

  /** After some installs the log still says what to install. */
  lemma InstallKeepsHeader(d: Disk, log: Region, j: nat)
    requires Sane(d, log) && j <= |HeaderSectors(d[log.start])|
    ensures var lh := HeaderSectors(d[log.start]);
            var data := LogBlocks(d, log, |lh|);
            var d' := Apply(d, InstallWrites(lh, data)[..j]);
            d'[log.start] == d[log.start] && LogBlocks(d', log, |lh|) == data
  {
    var lh := HeaderSectors(d[log.start]);
    var data := LogBlocks(d, log, |lh|);
    var d' := Apply(d, InstallWrites(lh, data)[..j]);
    forall s: nat | log.Has(s) ensures d'[s] == d[s] {
      InstallKeepsLog(d, log, lh, data, j, s);
    }
  }

  /** A crash inside recovery is harmless: running it again from any
      intermediate disk gives the same home blocks. */
  lemma RecoveryCrash(d: Disk, log: Region, j: nat)
    requires Sane(d, log) && j <= |RecoverWrites(d, log)|
    ensures var d' := Apply(d, RecoverWrites(d, log)[..j]);
            Sane(d', log) && SameHome(Recovered(d', log), Recovered(d, log), log)
  {
    var lh := HeaderSectors(d[log.start]);
    var rw := RecoverWrites(d, log);
    var d' := Apply(d, rw[..j]);
    if j <= |lh| {
      InstallCrash(d, log, j);
      assert rw[..j] == InstallWrites(lh, LogBlocks(d, log, |lh|))[..j];
    } else {
      assert rw[..j] == rw;
      RecoveredBlocks(d, log);
      RecoveredClear(d', log);
    }
  }

  lemma InstallCrash(d: Disk, log: Region, j: nat)
    requires Sane(d, log) && j <= |HeaderSectors(d[log.start])|
    ensures var lh := HeaderSectors(d[log.start]);
            var d' := Apply(d, InstallWrites(lh, LogBlocks(d, log, |lh|))[..j]);
            Sane(d', log) && SameHome(Recovered(d', log), Recovered(d, log), log)
  {
    var lh := HeaderSectors(d[log.start]);
    var data := LogBlocks(d, log, |lh|);
    var d' := Apply(d, InstallWrites(lh, data)[..j]);
    InstallKeepsHeader(d, log, j);
    RecoveredBlocks(d, log);
    RecoveredBlocks(d', log);
    forall s | 0 <= s < |d| && !log.Has(s) ensures Recovered(d', log)[s] == Recovered(d, log)[s] {
      InstallAgain(d, lh, data, j, s);
    }
  }

  /** The disk after any number of crashes inside recovery: the i-th attempt
      gets js[i] writes done. */
  function CrashyRecovery(d: Disk, log: Region, js: seq<nat>): (r: Disk)
    requires Sane(d, log)
    ensures Sane(r, log)
    decreases |js|
  {
    if js == [] then d
    else
      var before := CrashyRecovery(d, log, js[..|js| - 1]);
      var ws := RecoverWrites(before, log);
      var j := if js[|js| - 1] <= |ws| then js[|js| - 1] else |ws|;
      RecoveryCrash(before, log, j);
      Apply(before, ws[..j])
  }

  lemma {:induction false} ManyRecoveryCrashes(d: Disk, log: Region, js: seq<nat>)
    requires Sane(d, log)
    ensures SameHome(Recovered(CrashyRecovery(d, log, js), log), Recovered(d, log), log)
    decreases |js|
  {
    if js != [] {
      ManyRecoveryCrashes(d, log, js[..|js| - 1]);
      var before := CrashyRecovery(d, log, js[..|js| - 1]);
      var ws := RecoverWrites(before, log);
      RecoveryCrash(before, log, if js[|js| - 1] <= |ws| then js[|js| - 1] else |ws|);
    }
  }

  /** The log holds these blocks for these sectors and its header says so. */
  ghost predicate Committed(d: Disk, log: Region, lh: seq<nat>, data: seq<Block>) {
    Sane(d, log) && HeaderSectors(d[log.start]) == lh && |data| == |lh| &&
    log.start + 1 + |lh| <= |d| && LogBlocks(d, log, |lh|) == data
  }

  /** Writing log blocks touches neither home blocks nor the header. */
  lemma LogWritesStayInLog(d: Disk, log: Region, data: seq<Block>, k: nat, s: nat)
    requires k <= |data| <= log.size - 1 && s < |d| && (!log.Has(s) || s == log.start)
    ensures Apply(d, LogWrites(log, data)[..k])[s] == d[s]
  {
    ApplyFrame(d, LogWrites(log, data)[..k], s);
  }

  /** The disk on which the first write_head has just landed. */
  function HeadWritten(d: Disk, log: Region, lh: seq<nat>, data: seq<Block>): Disk
    requires log.Fits(d) && |lh| == |data| <= LOGSIZE
  {
    Apply(d, SaveWrites(log, d[log.start], lh, data))
  }

  lemma HeadWrittenBlocks(d: Disk, log: Region, lh: seq<nat>, data: seq<Block>)
    requires log.Fits(d) && |lh| == |data| <= LOGSIZE && |data| <= log.size - 1
    ensures var e := HeadWritten(d, log, lh, data);
            e[log.start] == WithHeader(d[log.start], lh) && SameHome(e, d, log) && LogBlocks(e, log, |data|) == data
  {
    var lw, head := LogWrites(log, data), Write(log.start, WithHeader(d[log.start], lh));
    var e, mid := HeadWritten(d, log, lh, data), Apply(d, lw);
    assert (lw + [head])[..|lw + [head]| - 1] == lw;
    assert e == mid[log.start := head.data];
    assert lw[..|lw|] == lw;
    forall s | 0 <= s < |d| && !log.Has(s) ensures mid[s] == d[s] {
      LogWritesStayInLog(d, log, data, |data|, s);
    }
    forall i | 0 <= i < |data| ensures mid[log.start + 1 + i] == data[i] {
      ApplyLast(d, lw, log.start + 1 + i, i, data[i]);
    }
  }

  lemma HeadWrittenCommits(d: Disk, log: Region, lh: seq<nat>, data: seq<Block>)
    requires log.Fits(d) && HomeSectors(lh, log, d) && |lh| == |data|
    ensures Committed(HeadWritten(d, log, lh, data), log, lh, data)
    ensures HeadWritten(d, log, lh, data)[log.start] == WithHeader(d[log.start], lh)
    ensures SameHome(HeadWritten(d, log, lh, data), d, log)
  {
    HeadWrittenBlocks(d, log, lh, data);
  }

  /** Crash atomicity of commit.  After any prefix of its writes recovery yields
      the whole transaction if the first write_head is among them, and none of
      it otherwise. */
  lemma CommitCrash(d: Disk, log: Region, lh: seq<nat>, data: seq<Block>, k: nat)
    requires Sane(d, log) && HeaderCount(d[log.start]) == 0
    requires HomeSectors(lh, log, d) && |lh| == |data|
    requires k <= |CommitWrites(log, d[log.start], lh, data)|
    ensures var d' := Apply(d, CommitWrites(log, d[log.start], lh, data)[..k]);
            Sane(d', log) &&
            SameHome(Recovered(d', log), if k > |lh| then Apply(d, InstallWrites(lh, data)) else d, log)
  {
    var cw := CommitWrites(log, d[log.start], lh, data);
    var d' := Apply(d, cw[..k]);
    var lw := LogWrites(log, data);
    if k <= |lh| {
      assert cw[..k] == lw[..k];
      forall s | 0 <= s < |d| && (!log.Has(s) || s == log.start) ensures d'[s] == d[s] {
        LogWritesStayInLog(d, log, data, k, s);
      }
      RecoveredClear(d', log);
    } else {
      CommitTail(d, log, lh, data, k);
    }
  }

  lemma ApplyBeyond(d: Disk, a: seq<Write>, b: seq<Write>, k: nat)
    requires |a| <= k <= |a| + |b|
    ensures Apply(d, (a + b)[..k]) == Apply(Apply(d, a), b[..k - |a|])
  {
    assert (a + b)[..k] == a + b[..k - |a|];
    ApplyConcat(d, a, b[..k - |a|]);
  }

  /** Once the header is written, at disk e, the rest of commit is exactly what
      recovery would do. */
  lemma CommitSplits(d: Disk, log: Region, lh: seq<nat>, data: seq<Block>) returns (pre: seq<Write>, e: Disk)
    requires Sane(d, log) && HomeSectors(lh, log, d) && |lh| == |data| && lh != []
    ensures e == Apply(d, pre) && |pre| == |lh| + 1 && Committed(e, log, lh, data) && SameHome(e, d, log)
    ensures CommitWrites(log, d[log.start], lh, data) == pre + RecoverWrites(e, log)
  {
    HeadWrittenCommits(d, log, lh, data);
    e := HeadWritten(d, log, lh, data);
    pre := SaveWrites(log, d[log.start], lh, data);
  }

  /** Recovery of the committed disk gives the new home blocks. */
  lemma RecoveredCommitted(d: Disk, e: Disk, log: Region, lh: seq<nat>, data: seq<Block>)
    requires Committed(e, log, lh, data) && SameHome(e, d, log)
    ensures SameHome(Recovered(e, log), Apply(d, InstallWrites(lh, data)), log)
  {
    var ws := InstallWrites(lh, data);
    RecoveredBlocks(e, log);
    forall s | 0 <= s < |d| && !log.Has(s) ensures Apply(e, ws)[s] == Apply(d, ws)[s] {
      ApplyCongruent(e, d, ws, s);
    }
  }

  /** After k > |lh| writes of commit, k - |lh| - 1 of recovery's are done. */
  lemma CommitPoint(d: Disk, log: Region, lh: seq<nat>, data: seq<Block>, k: nat) returns (e: Disk)
    requires Sane(d, log) && HomeSectors(lh, log, d) && |lh| == |data| && lh != [] && |lh| < k <= 2 * |lh| + 2
    ensures Sane(e, log) && |RecoverWrites(e, log)| == |lh| + 1
    ensures Apply(d, CommitWrites(log, d[log.start], lh, data)[..k]) == Apply(e, RecoverWrites(e, log)[..k - |lh| - 1])
    ensures SameHome(Recovered(e, log), Apply(d, InstallWrites(lh, data)), log)
  {
    var pre;
    pre, e := CommitSplits(d, log, lh, data);
    RecoveredCommitted(d, e, log, lh, data);
    ApplyBeyond(d, pre, RecoverWrites(e, log), k);
  }

  lemma RecoveryFinishes(e: Disk, d': Disk, goal: Disk, log: Region, j: nat)
    requires Sane(e, log) && j <= |RecoverWrites(e, log)| && d' == Apply(e, RecoverWrites(e, log)[..j])
    requires SameHome(Recovered(e, log), goal, log)
    ensures Sane(d', log) && SameHome(Recovered(d', log), goal, log)
    ensures j == |RecoverWrites(e, log)| ==> HeaderCount(d'[log.start]) == 0 && SameHome(d', goal, log)
  {
    RecoveryCrash(e, log, j);
    SameHomeTransitive(Recovered(d', log), Recovered(e, log), goal, log);
    if j == |RecoverWrites(e, log)| {
      assert RecoverWrites(e, log)[..j] == RecoverWrites(e, log);
      RecoveredBlocks(e, log);
    }
  }

  lemma CommitTail(d: Disk, log: Region, lh: seq<nat>, data: seq<Block>, k: nat)
    requires Sane(d, log) && HomeSectors(lh, log, d) && |lh| == |data|
    requires |lh| < k <= |CommitWrites(log, d[log.start], lh, data)|
    ensures var d' := Apply(d, CommitWrites(log, d[log.start], lh, data)[..k]);
            Sane(d', log) && SameHome(Recovered(d', log), Apply(d, InstallWrites(lh, data)), log)
  {
    var e := CommitPoint(d, log, lh, data, k);
    var d' := Apply(d, CommitWrites(log, d[log.start], lh, data)[..k]);
    RecoveryFinishes(e, d', Apply(d, InstallWrites(lh, data)), log, k - |lh| - 1);
  }

  /** All writes done: the transaction is installed and the log clear. */
  lemma CommitComplete(d: Disk, log: Region, lh: seq<nat>, data: seq<Block>)
    requires Sane(d, log) && HomeSectors(lh, log, d) && |lh| == |data| && lh != []
    ensures var d' := Apply(d, CommitWrites(log, d[log.start], lh, data));
            Sane(d', log) && HeaderCount(d'[log.start]) == 0 && SameHome(d', Apply(d, InstallWrites(lh, data)), log)
  {
    var cw := CommitWrites(log, d[log.start], lh, data);
    var e := CommitPoint(d, log, lh, data, |cw|);
    assert cw[..|cw|] == cw;
    RecoveryFinishes(e, Apply(d, cw), Apply(d, InstallWrites(lh, data)), log, |lh| + 1);
  }

  /** The whole story: crash anywhere in commit, then crash any number of times
      in recovery; the recovery that completes yields all or nothing. */
  lemma CrashAtomicity(d: Disk, log: Region, lh: seq<nat>, data: seq<Block>, k: nat, js: seq<nat>)
    requires Sane(d, log) && HeaderCount(d[log.start]) == 0
    requires HomeSectors(lh, log, d) && |lh| == |data|
    requires k <= |CommitWrites(log, d[log.start], lh, data)|
    ensures var crashed := Apply(d, CommitWrites(log, d[log.start], lh, data)[..k]);
            Sane(crashed, log) &&
            SameHome(Recovered(CrashyRecovery(crashed, log, js), log),
                     if k > |lh| then Apply(d, InstallWrites(lh, data)) else d, log)
  {
    CommitCrash(d, log, lh, data, k);
    ManyRecoveryCrashes(Apply(d, CommitWrites(log, d[log.start], lh, data)[..k]), log, js);
  }
}
