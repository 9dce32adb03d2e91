/** The size-bounded audit log: rename-shift rotation over a small file system.

    The directory maps 0 to the active file and i >= 1 to backup `path.i`; a missing
    file is a missing key. A file is the list of records appended to it, a record is
    one encoded line. Removing, renaming and appending succeed; reopening the active
    file after a rotation may fail, which the source handles. */
module AuditLog {
  import opened Basics

  type Record = seq<char>
  type File = seq<Record>
  type Directory = map<nat, File>

  // ---- Sizes and the order in which records were logged -------------------

  function Size(f: File): nat {
    if f == [] then 0 else Size(f[..|f| - 1]) + |f[|f| - 1]|
  }

  function FileAt(dir: Directory, i: nat): File {
    if i in dir then dir[i] else []
  }

  /** Oldest first: backup `n`, ..., backup 1, the active file. */
  function Chain(dir: Directory, n: nat): File {
    if n == 0 then FileAt(dir, 0) else FileAt(dir, n) + Chain(dir, n - 1)
  }

  function Footprint(dir: Directory, n: nat): nat {
    if n == 0 then Size(FileAt(dir, 0)) else Size(FileAt(dir, n)) + Footprint(dir, n - 1)
  }

  ghost predicate IsSuffix(a: File, b: File) {
    exists dropped: File :: b == dropped + a
  }

  lemma {:induction false} SizeSnoc(f: File, r: Record)
    ensures Size(f + [r]) == Size(f) + |r|
  {
    assert (f + [r])[..|f|] == f;
  }

  // ---- Rotation -----------------------------------------------------------

  function RotatedKeys(dir: Directory, n: nat, reopened: bool): set<nat> {
    (if reopened then {0} else {}) + (set i | i in dir && i < n :: i + 1) + (set i | i in dir && n < i)
  }

  /** Each file of the chain moves one place back, the oldest is lost, files beyond the
      chain are untouched, and the active file, if it could be reopened, is empty. */
  function Rotated(dir: Directory, n: nat, reopened: bool): Directory {
    map i | i in RotatedKeys(dir, n, reopened) ::
      if i == 0 then [] else if i <= n then FileAt(dir, i - 1) else FileAt(dir, i)
  }

  lemma {:induction false} RotatedFiles(dir: Directory, n: nat, reopened: bool, i: nat)
    ensures FileAt(Rotated(dir, n, reopened), i)
      == if i == 0 then [] else if i <= n then FileAt(dir, i - 1) else FileAt(dir, i)
  {
    var keys := RotatedKeys(dir, n, reopened);
    if 1 <= i <= n {
      assert i in keys <==> i - 1 in dir;
    } else if n < i {
      assert i in keys <==> i in dir;
    }
  }

  lemma {:induction false} ChainShifts(dir: Directory, n: nat, reopened: bool, k: nat)
    requires k <= n
    ensures Chain(Rotated(dir, n, reopened), k) == if k == 0 then [] else Chain(dir, k - 1)
    decreases k
  {
    RotatedFiles(dir, n, reopened, k);
    if k > 0 {
      ChainShifts(dir, n, reopened, k - 1);
      assert FileAt(dir, 0) + [] == FileAt(dir, 0);
    }
  }

  /** A rotation loses exactly the oldest file of the chain. */
  lemma {:induction false} RotationDropsOldest(dir: Directory, n: nat, reopened: bool)
    ensures Chain(dir, n) == FileAt(dir, n) + Chain(Rotated(dir, n, reopened), n)
  {
    ChainShifts(dir, n, reopened, n);
    assert FileAt(dir, 0) + [] == FileAt(dir, 0);
  }

  // ---- Logging as a function of the state ---------------------------------

  datatype Config = Config(maxBytes: int, maxBackups: int)

  datatype State = State(dir: Directory, open: bool, size: nat)

  function Backups(cfg: Config): nat {
    if cfg.maxBackups > 0 then cfg.maxBackups else 0
  }

  predicate MustRotate(cfg: Config, s: State, data: Record) {
    cfg.maxBytes > 0 && s.size > 0 && s.size + |data| > cfg.maxBytes
  }

  function BeforeWrite(cfg: Config, s: State, data: Record, reopened: bool): State {
    if MustRotate(cfg, s, data) then State(Rotated(s.dir, Backups(cfg), reopened), reopened, 0) else s
  }

  function AfterLog(cfg: Config, s: State, data: Record, reopened: bool): State {
    var r := BeforeWrite(cfg, s, data, reopened);
    if !r.open then r else State(r.dir[0 := FileAt(r.dir, 0) + [data]], true, r.size + |data|)
  }

  /** Whether the record was written rather than dropped for want of an active file. */
  predicate Accepted(cfg: Config, s: State, data: Record, reopened: bool) {
    BeforeWrite(cfg, s, data, reopened).open
  }

  lemma {:induction false} ChainAppend(dir: Directory, n: nat, data: Record)
    ensures Chain(dir[0 := FileAt(dir, 0) + [data]], n) == Chain(dir, n) + [data]
    decreases n
  {
    if n > 0 {
      ChainAppend(dir, n - 1, data);
      assert FileAt(dir, n) + (Chain(dir, n - 1) + [data]) == (FileAt(dir, n) + Chain(dir, n - 1)) + [data];
    }
  }

  /** One call adds its record at the end of the chain and drops, at most, the oldest
      file as a whole: exactly when the call rotates. */
  lemma {:induction false} LogChain(cfg: Config, s: State, data: Record, reopened: bool)
    ensures var n := Backups(cfg);
      Chain(s.dir, n) + (if Accepted(cfg, s, data, reopened) then [data] else [])
        == (if MustRotate(cfg, s, data) then FileAt(s.dir, n) else []) + Chain(AfterLog(cfg, s, data, reopened).dir, n)
  {
    var n := Backups(cfg);
    var r := BeforeWrite(cfg, s, data, reopened);
    var dropped := if MustRotate(cfg, s, data) then FileAt(s.dir, n) else [];
    RotationDropsOldest(s.dir, n, reopened);
    assert Chain(s.dir, n) == dropped + Chain(r.dir, n);
    if r.open {
      ChainAppend(r.dir, n, data);
      assert (dropped + Chain(r.dir, n)) + [data] == dropped + (Chain(r.dir, n) + [data]);
    }
  }

  // ---- Whole runs ---------------------------------------------------------

  /** One `Log` call, with what the system would answer to a reopen during it. */
  datatype Call = Call(data: Record, reopened: bool)

  function RunLog(cfg: Config, s: State, calls: seq<Call>): State
    decreases |calls|
  {
    if calls == [] then s
    else
      var n := |calls| - 1;
      AfterLog(cfg, RunLog(cfg, s, calls[..n]), calls[n].data, calls[n].reopened)
  }

  /** The records accepted during a run, in order. */
  function AcceptedIn(cfg: Config, s: State, calls: seq<Call>): File
    decreases |calls|
  {
    if calls == [] then []
    else
      var n := |calls| - 1;
      AcceptedIn(cfg, s, calls[..n]) + Added(cfg, RunLog(cfg, s, calls[..n]), calls[n])
  }

  function Added(cfg: Config, s: State, call: Call): File {
    if Accepted(cfg, s, call.data, call.reopened) then [call.data] else []
  }

  lemma {:induction false} SuffixStep(all: File, dropped: File, chain: File, now: File, lost: File, chain': File)
    requires all == dropped + chain && chain + now == lost + chain'
    ensures IsSuffix(chain', all + now)
  {
    assert all + now == dropped + (chain + now);
    assert all + now == (dropped + lost) + chain';
  }

  lemma {:induction false} LogKeepsSuffix(cfg: Config, s: State, call: Call, all: File)
    requires IsSuffix(Chain(s.dir, Backups(cfg)), all)
    ensures IsSuffix(Chain(AfterLog(cfg, s, call.data, call.reopened).dir, Backups(cfg)), all + Added(cfg, s, call))
  {
    var b := Backups(cfg);
    var dropped: File :| all == dropped + Chain(s.dir, b);
    LogChain(cfg, s, call.data, call.reopened);
    var lost := if MustRotate(cfg, s, call.data) then FileAt(s.dir, b) else [];
    SuffixStep(all, dropped, Chain(s.dir, b), Added(cfg, s, call), lost,
               Chain(AfterLog(cfg, s, call.data, call.reopened).dir, b));
  }

  /** After any run, reading the backups from oldest to newest and then the active file
      gives an unbroken suffix of everything accepted, whole records in order. */
  lemma {:induction false} RotationKeepsSuffix(cfg: Config, s: State, calls: seq<Call>)
    ensures var n := Backups(cfg);
      IsSuffix(Chain(RunLog(cfg, s, calls).dir, n), Chain(s.dir, n) + AcceptedIn(cfg, s, calls))
    decreases |calls|
  {
    var start := Chain(s.dir, Backups(cfg));
    if calls == [] {
      assert start + [] == [] + start;
    } else {
      var n := |calls| - 1;
      RotationKeepsSuffix(cfg, s, calls[..n]);
      LogKeepsSuffix(cfg, RunLog(cfg, s, calls[..n]), calls[n], start + AcceptedIn(cfg, s, calls[..n]));
      Assoc(start, AcceptedIn(cfg, s, calls[..n]), Added(cfg, RunLog(cfg, s, calls[..n]), calls[n]));
    }
  }

  /** While reopening succeeds nothing is dropped at the door. */
  lemma {:induction false} AllAccepted(cfg: Config, s: State, calls: seq<Call>)
    requires s.open && forall i :: 0 <= i < |calls| ==> calls[i].reopened
    ensures RunLog(cfg, s, calls).open && |AcceptedIn(cfg, s, calls)| == |calls|
    ensures forall i :: 0 <= i < |calls| ==> AcceptedIn(cfg, s, calls)[i] == calls[i].data
    decreases |calls|
  {
    if calls != [] {
      AllAccepted(cfg, s, calls[..|calls| - 1]);
    }
  }

  /** Without a positive cap the log never rotates and never forgets. */
  lemma {:induction false} UnboundedKeepsAll(cfg: Config, s: State, calls: seq<Call>)
    requires cfg.maxBytes <= 0
    ensures Chain(RunLog(cfg, s, calls).dir, Backups(cfg)) == Chain(s.dir, Backups(cfg)) + AcceptedIn(cfg, s, calls)
    decreases |calls|
  {
    var b := Backups(cfg);
    if calls == [] {
      assert Chain(s.dir, b) + [] == Chain(s.dir, b);
    } else {
      var n := |calls| - 1;
      UnboundedKeepsAll(cfg, s, calls[..n]);
      LogChain(cfg, RunLog(cfg, s, calls[..n]), calls[n].data, calls[n].reopened);
      var now := Added(cfg, RunLog(cfg, s, calls[..n]), calls[n]);
      Assoc(Chain(s.dir, b), AcceptedIn(cfg, s, calls[..n]), now);
      assert [] + Chain(RunLog(cfg, s, calls).dir, b) == Chain(RunLog(cfg, s, calls).dir, b);
    }
  }

  // ---- The size bound -----------------------------------------------------

  /** The counter matches the active file, and no file of the chain exceeds `bound`. */
  ghost predicate Bounded(cfg: Config, s: State, bound: nat) {
    && s.size == Size(FileAt(s.dir, 0))
    && forall i: nat :: i <= Backups(cfg) ==> Size(FileAt(s.dir, i)) <= bound
  }

  lemma {:induction false} LogBounded(cfg: Config, s: State, data: Record, reopened: bool, bound: nat)
    requires 0 < cfg.maxBytes <= bound && |data| <= bound && Bounded(cfg, s, bound)
    ensures Bounded(cfg, AfterLog(cfg, s, data, reopened), bound)
  {
    var r := BeforeWrite(cfg, s, data, reopened);
    assert Bounded(cfg, r, bound) by {
      forall i: nat | i <= Backups(cfg) ensures r != s ==> Size(FileAt(r.dir, i)) <= bound {
        RotatedFiles(s.dir, Backups(cfg), reopened, i);
      }
      RotatedFiles(s.dir, Backups(cfg), reopened, 0);
    }
    if r.open {
      SizeSnoc(FileAt(r.dir, 0), data);
      var d := r.dir[0 := FileAt(r.dir, 0) + [data]];
      forall i: nat | i <= Backups(cfg) ensures Size(FileAt(d, i)) <= bound {
        assert i > 0 ==> FileAt(d, i) == FileAt(r.dir, i);
      }
    }
  }

  lemma {:induction false} FootprintBound(dir: Directory, n: nat, bound: nat)
    requires forall i: nat :: i <= n ==> Size(FileAt(dir, i)) <= bound
    ensures Footprint(dir, n) <= bound * (n + 1)
    decreases n
  {
    if n > 0 {
      FootprintBound(dir, n - 1, bound);
      assert bound * n + bound == bound * (n + 1);
    }
  }

  /** If every record fits in `bound`, at least the cap, and the starting files do, the
      files on disk never exceed `bound` times the number of backups plus one. With
      `bound` the cap itself this is the documented limit. */
  lemma {:induction false} FootprintStaysBounded(cfg: Config, s: State, calls: seq<Call>, bound: nat)
    requires 0 < cfg.maxBytes <= bound && Bounded(cfg, s, bound)
    requires forall i :: 0 <= i < |calls| ==> |calls[i].data| <= bound
    ensures Bounded(cfg, RunLog(cfg, s, calls), bound)
    ensures Footprint(RunLog(cfg, s, calls).dir, Backups(cfg)) <= bound * (Backups(cfg) + 1)
    decreases |calls|
  {
    if calls != [] {
      var n := |calls| - 1;
      FootprintStaysBounded(cfg, s, calls[..n], bound);
      LogBounded(cfg, RunLog(cfg, s, calls[..n]), calls[n].data, calls[n].reopened, bound);
    }
    FootprintBound(RunLog(cfg, s, calls).dir, Backups(cfg), bound);
  }

  // ---- When a record is lost ----------------------------------------------

  /** The counter matches the active file. */
  predicate Counted(s: State) { s.size == Size(FileAt(s.dir, 0)) }

  /** The record would take the active file past a positive cap, and the file is not empty. */
  predicate Overflows(maxBytes: int, active: File, data: Record) {
    maxBytes > 0 && Size(active) > 0 && Size(active) + |data| > maxBytes
  }

  /** A record that fits goes to the end of the active file, and every backup stays. */
  lemma {:induction false} LogFits(cfg: Config, s: State, data: Record, reopened: bool, i: nat)
    requires Counted(s) && s.open && !Overflows(cfg.maxBytes, FileAt(s.dir, 0), data)
    ensures AfterLog(cfg, s, data, reopened).open && Counted(AfterLog(cfg, s, data, reopened))
    ensures FileAt(AfterLog(cfg, s, data, reopened).dir, 0) == FileAt(s.dir, 0) + [data]
    ensures i > 0 ==> FileAt(AfterLog(cfg, s, data, reopened).dir, i) == FileAt(s.dir, i)
  {
    SizeSnoc(FileAt(s.dir, 0), data);
  }

  /** One that does not fit moves every file one place back, loses the oldest, and starts a new
      active file, if that can be opened. */
  lemma {:induction false} LogRotates(cfg: Config, s: State, data: Record, reopened: bool, i: nat)
    requires Counted(s) && s.open && Overflows(cfg.maxBytes, FileAt(s.dir, 0), data)
    ensures AfterLog(cfg, s, data, reopened).open == reopened && Counted(AfterLog(cfg, s, data, reopened))
    ensures FileAt(AfterLog(cfg, s, data, reopened).dir, 0) == if reopened then [data] else []
    ensures 0 < i <= cfg.maxBackups ==> FileAt(AfterLog(cfg, s, data, reopened).dir, i) == FileAt(s.dir, i - 1)
  {
    RotatedFiles(s.dir, Backups(cfg), reopened, i);
    RotatedFiles(s.dir, Backups(cfg), reopened, 0);
    SizeSnoc([], data);
    assert [] + [data] == [data];
  }

  /** A call loses a record only when the record does not fit into a non-empty active file under
      a positive cap; then exactly the oldest file is lost, and otherwise nothing. */
  lemma {:induction false} LosesOnlyWhenFull(cfg: Config, s: State, data: Record, reopened: bool)
    requires Counted(s) && s.open
    ensures var n := if cfg.maxBackups > 0 then cfg.maxBackups else 0;
      var lost := if Overflows(cfg.maxBytes, FileAt(s.dir, 0), data) then FileAt(s.dir, n) else [];
      var after := AfterLog(cfg, s, data, reopened);
      Chain(s.dir, n) + (if after.open then [data] else []) == lost + Chain(after.dir, n)
  {
    LogChain(cfg, s, data, reopened);
  }

  function DataSize(calls: seq<Call>): nat {
    if calls == [] then 0 else DataSize(calls[..|calls| - 1]) + |calls[|calls| - 1].data|
  }

  function Data(calls: seq<Call>): File {
    if calls == [] then [] else Data(calls[..|calls| - 1]) + [calls[|calls| - 1].data]
  }

  /** A run whose records fit into the cap together with the starting active file loses nothing:
      they all stand at its end in order, and no backup changes. */
  lemma {:induction false} FittingRunKeepsAll(cfg: Config, s: State, calls: seq<Call>, i: nat)
    requires Counted(s) && s.open && Size(FileAt(s.dir, 0)) + DataSize(calls) <= cfg.maxBytes
    ensures var after := RunLog(cfg, s, calls);
      && after.open && Counted(after) && FileAt(after.dir, 0) == FileAt(s.dir, 0) + Data(calls)
      && (i > 0 ==> FileAt(after.dir, i) == FileAt(s.dir, i))
      && Size(FileAt(after.dir, 0)) == Size(FileAt(s.dir, 0)) + DataSize(calls)
    decreases |calls|
  {
    if calls == [] {
      assert FileAt(s.dir, 0) + [] == FileAt(s.dir, 0);
    } else {
      var n := |calls| - 1;
      FittingRunKeepsAll(cfg, s, calls[..n], i);
      var before := RunLog(cfg, s, calls[..n]);
      LogFits(cfg, before, calls[n].data, calls[n].reopened, i);
      SizeSnoc(FileAt(before.dir, 0), calls[n].data);
      Assoc(FileAt(s.dir, 0), Data(calls[..n]), [calls[n].data]);
    }
  }

  // ---- The logger object --------------------------------------------------

  function Rename(dir: Directory, from: nat, to: nat): Directory {
    if from in dir then (dir - {from})[to := dir[from]] else dir
  }

  class RotatingFileLogger {
    var dir: Directory
    var open: bool
    var size: nat
    const maxBytes: int
    const maxBackups: int

    ghost function Cfg(): Config { Config(maxBytes, maxBackups) }

    ghost function View(): State
      reads this
    {
      State(dir, open, size)
    }

    /** Open for appending: an existing active file is kept and its size counted. */
    constructor (files: Directory, maxBytes: int, maxBackups: int)
      ensures Cfg() == Config(maxBytes, maxBackups) && open
      ensures forall i :: FileAt(dir, i) == FileAt(files, i)
      ensures size == Size(FileAt(files, 0))
    {
      this.maxBytes, this.maxBackups := maxBytes, maxBackups;
      dir := if 0 in files then files else files[0 := []];
      open := true;
      size := Size(FileAt(files, 0));
    }

    method Log(payload: seq<char>, reopened: bool) returns (accepted: bool)
      modifies this
      ensures View() == AfterLog(Cfg(), old(View()), payload + "\n", reopened)
      ensures accepted == Accepted(Cfg(), old(View()), payload + "\n", reopened)
    {
      var data := payload + "\n";
      if maxBytes > 0 && size > 0 && size + |data| > maxBytes {
        Rotate(reopened);
      }
      if !open {
        return false;
      }
      dir := dir[0 := FileAt(dir, 0) + [data]];
      size := size + |data|;
      accepted := true;
    }

    /** The descending loop: backup i becomes backup i + 1, for every i >= 1. */
    method ShiftBackups()
      requires maxBackups > 0 && maxBackups !in dir
      modifies `dir
      ensures 1 !in dir
      ensures forall j: nat :: j == 0 || maxBackups < j ==>
        (j in dir <==> j in old(dir)) && FileAt(dir, j) == FileAt(old(dir), j)
      ensures forall j: nat :: 1 < j <= maxBackups ==>
        (j in dir <==> j - 1 in old(dir)) && FileAt(dir, j) == FileAt(old(dir), j - 1)
    {
      var i := maxBackups - 1;
      while i >= 1
        invariant 0 <= i < maxBackups
        invariant forall j: nat :: j <= i || maxBackups < j ==>
          (j in dir <==> j in old(dir)) && FileAt(dir, j) == FileAt(old(dir), j)
        invariant i + 1 !in dir
        invariant forall j: nat :: i + 1 < j <= maxBackups ==>
          (j in dir <==> j - 1 in old(dir)) && FileAt(dir, j) == FileAt(old(dir), j - 1)
      {
        dir := Rename(dir, i, i + 1);
        i := i - 1;
      }
    }

    /** Remove the oldest backup, shift the others, move the active file to backup 1,
        and try to reopen it. */
    method Rotate(reopened: bool)
      modifies this
      ensures dir == Rotated(old(dir), Backups(Cfg()), reopened)
      ensures open == reopened && size == 0
    {
      if maxBackups > 0 {
        dir := dir - {maxBackups};
        ShiftBackups();
        dir := Rename(dir, 0, 1);
      } else {
        dir := dir - {0};
      }
      if reopened {
        dir := dir[0 := []];
      }
      open := reopened;
      size := 0;
      RotatedIs(old(dir), Backups(Cfg()), reopened, dir);
    }
  }

  lemma {:induction false} RotatedIs(dir: Directory, n: nat, reopened: bool, d: Directory)
    requires 0 in d <==> reopened
    requires 0 in d ==> d[0] == []
    requires forall j: nat :: 0 < j <= n ==> (j in d <==> j - 1 in dir) && FileAt(d, j) == FileAt(dir, j - 1)
    requires forall j: nat :: n < j ==> (j in d <==> j in dir) && FileAt(d, j) == FileAt(dir, j)
    ensures d == Rotated(dir, n, reopened)
  {
    assert d.Keys == RotatedKeys(dir, n, reopened);
    forall j | j in d ensures d[j] == Rotated(dir, n, reopened)[j] {
      assert d[j] == FileAt(d, j);
    }
  }
}
