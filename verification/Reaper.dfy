/** The guest's child reaper as an interleaving protocol.

    Starting a tracked child and recording its pid happen under the reaper's lock;
    the /proc scan and Wait4 happen outside it. Children exit at any time, owners wait
    for their own child and then untrack it, and children nobody waits for (helpers and
    reparented orphans) appear at any time. Init also starts children that it waits for
    without recording them. */
module Reaper {
  import opened Basics

  type Pid = nat

  /** Who will wait on a child: nobody, an owner that recorded it, or one that did not. */
  datatype Waiter = Nobody | Tracker | Plain

  /** A child in the kernel's table. */
  datatype Child = Child(zombie: bool, waiter: Waiter)

  datatype State = State(
    children: map<Pid, Child>,
    tracked: set<Pid>,
    starting: Option<Pid>,  // started under the lock, not yet recorded
    pending: multiset<Pid>, // waited on by their owner, not yet untracked
    scanning: bool,         // the reaper is still reading /proc
    found: seq<Pid>,        // zombies seen by the scan, still to be examined
    chosen: Option<Pid>,    // found untracked, Wait4 not yet called
    used: set<Pid>)         // every pid any child has had

  const INITIAL: State := State(map[], {}, None, multiset{}, true, [], None, {})

  datatype Step =
    | Start(pid: Pid)      // startTracked takes the lock and cmd.Start succeeds
    | Record               // startTracked records the pid and releases the lock
    | StartPlain(pid: Pid) // a child that is waited on but never recorded
    | Appear(pid: Pid)     // a child nobody will wait on
    | Exit(pid: Pid)
    | Wait(pid: Pid)       // the owner's cmd.Wait collects its child
    | Untrack(pid: Pid)
    | See(pid: Pid)        // the scan reads one zombie's stat file
    | EndScan
    | Check                // isTracked on the next pid, under the lock
    | Reap                 // Wait4 with WNOHANG on the chosen pid
    | Rescan               // the next SIGCHLD

  predicate IsZombie(s: State, pid: Pid) {
    pid in s.children && s.children[pid].zombie
  }

  predicate Awaited(s: State, pid: Pid) {
    pid in s.children && s.children[pid].waiter != Nobody
  }

  predicate Enabled(s: State, a: Step) {
    match a
    case Start(pid) => s.starting.None? && pid !in s.children
    case Record => s.starting.Some?
    case StartPlain(pid) => pid !in s.children
    case Appear(pid) => pid !in s.children
    case Exit(pid) => pid in s.children && !s.children[pid].zombie
    case Wait(pid) => IsZombie(s, pid) && Awaited(s, pid) && s.starting != Some(pid)
    case Untrack(pid) => pid in s.pending && s.starting.None?
    case See(pid) => s.scanning && IsZombie(s, pid)
    case EndScan => s.scanning
    case Check => !s.scanning && s.found != [] && s.chosen.None? && s.starting.None?
    case Reap => s.chosen.Some?
    case Rescan => !s.scanning && s.found == [] && s.chosen.None?
  }

  function Born(s: State, pid: Pid, waiter: Waiter): State {
    s.(children := s.children[pid := Child(false, waiter)], used := s.used + {pid})
  }

  function Apply(s: State, a: Step): State
    requires Enabled(s, a)
  {
    match a
    case Start(pid) => Born(s, pid, Tracker).(starting := Some(pid))
    case Record => s.(tracked := s.tracked + {s.starting.value}, starting := None)
    case StartPlain(pid) => Born(s, pid, Plain)
    case Appear(pid) => Born(s, pid, Nobody)
    case Exit(pid) => s.(children := s.children[pid := s.children[pid].(zombie := true)])
    case Wait(pid) =>
      if s.children[pid].waiter == Tracker then
        s.(children := s.children - {pid}, pending := s.pending + multiset{pid})
      else s.(children := s.children - {pid})
    case Untrack(pid) => s.(tracked := s.tracked - {pid}, pending := s.pending - multiset{pid})
    case See(pid) => s.(found := s.found + [pid])
    case EndScan => s.(scanning := false)
    case Check =>
      if s.found[0] in s.tracked then s.(found := s.found[1..])
      else s.(found := s.found[1..], chosen := Some(s.found[0]))
    case Reap =>
      if IsZombie(s, s.chosen.value) then s.(children := s.children - {s.chosen.value}, chosen := None)
      else s.(chosen := None)
    case Rescan => s.(scanning := true)
  }

  /** The reaper takes the exit status of a child some code will wait on. */
  predicate Steals(s: State, a: Step) {
    a.Reap? && s.chosen.Some? && IsZombie(s, s.chosen.value) && Awaited(s, s.chosen.value)
  }

  // ---- Runs ---------------------------------------------------------------

  predicate IsRun(s: State, run: seq<Step>)
    decreases |run|
  {
    run == [] || (Enabled(s, run[0]) && IsRun(Apply(s, run[0]), run[1..]))
  }

  function After(s: State, run: seq<Step>): State
    requires IsRun(s, run)
    decreases |run|
  {
    if run == [] then s else After(Apply(s, run[0]), run[1..])
  }

  /** Some step of the run steals a child. */
  predicate RunSteals(s: State, run: seq<Step>)
    requires IsRun(s, run)
    decreases |run|
  {
    run != [] && (Steals(s, run[0]) || RunSteals(Apply(s, run[0]), run[1..]))
  }

  /** A child that will be waited on is started tracked, with a pid that is not still
      recorded for an earlier child and not one the reaper has already decided to collect. */
  predicate Safe(s: State, a: Step) {
    && !a.StartPlain?
    && (a.Start? ==> a.pid !in s.tracked && s.chosen != Some(a.pid))
  }

  predicate SafeRun(s: State, run: seq<Step>)
    requires IsRun(s, run)
    decreases |run|
  {
    run == [] || (Safe(s, run[0]) && SafeRun(Apply(s, run[0]), run[1..]))
  }

  /** No pid that someone will wait on has been used before. */
  predicate FreshPids(s: State, run: seq<Step>)
    requires IsRun(s, run)
    decreases |run|
  {
    run == [] || (FreshStart(s, run[0]) && FreshPids(Apply(s, run[0]), run[1..]))
  }

  predicate FreshStart(s: State, a: Step) {
    a.Start? || a.StartPlain? ==> a.pid !in s.used
  }

  /** Every child that will be waited on is started tracked. */
  ghost predicate AllTracked(run: seq<Step>) {
    forall i :: 0 <= i < |run| ==> !run[i].StartPlain?
  }

  // ---- Safe runs never steal ----------------------------------------------

  ghost predicate Inv(s: State) {
    // whoever will be waited on is recorded, or its starter still holds the lock
    && (forall p :: Awaited(s, p) ==> s.children[p].waiter == Tracker && (p in s.tracked || s.starting == Some(p)))
    // the reaper has never decided on a child that will be waited on
    && (s.chosen.Some? ==> !Awaited(s, s.chosen.value))
    // a pid waiting to be untracked is still recorded, once, and not a live awaited child's
    && (forall p :: p in s.pending ==> p in s.tracked && !Awaited(s, p) && s.pending[p] == 1)
    && (s.starting.Some? ==> s.starting.value !in s.pending && Awaited(s, s.starting.value))
    // a recorded pid belongs to an awaited child or to a pending untrack
    && (forall p :: p in s.tracked ==> p in s.pending || Awaited(s, p))
  }

  lemma {:induction false} StartPreserves(s: State, a: Step)
    requires Inv(s) && Enabled(s, a) && Safe(s, a) && (a.Start? || a.Record? || a.Appear? || a.Exit?)
    ensures Inv(Apply(s, a))
  {
  }

  lemma {:induction false} OwnerPreserves(s: State, a: Step)
    requires Inv(s) && Enabled(s, a) && (a.Wait? || a.Untrack?)
    ensures Inv(Apply(s, a))
  {
  }

  lemma {:induction false} ScanPreserves(s: State, a: Step)
    requires Inv(s) && Enabled(s, a) && (a.See? || a.EndScan? || a.Check? || a.Rescan?)
    ensures Inv(Apply(s, a))
  {
  }

  lemma {:induction false} ReapPreserves(s: State)
    requires Inv(s) && Enabled(s, Reap)
    ensures Inv(Apply(s, Reap)) && !Steals(s, Reap)
  {
  }

  lemma {:induction false} StepPreserves(s: State, a: Step)
    requires Inv(s) && Enabled(s, a) && Safe(s, a)
    ensures Inv(Apply(s, a)) && !Steals(s, a)
  {
    if a.Wait? || a.Untrack? {
      OwnerPreserves(s, a);
    } else if a.Start? || a.Record? || a.Appear? || a.Exit? {
      StartPreserves(s, a);
    } else if a.Reap? {
      ReapPreserves(s);
    } else {
      ScanPreserves(s, a);
    }
  }

  /** Safety over every interleaving: as long as every awaited child is started tracked and
      gets a pid that is neither recorded nor chosen, no exit status is stolen. */
  lemma {:induction false} NeverSteals(s: State, run: seq<Step>)
    requires Inv(s) && IsRun(s, run) && SafeRun(s, run)
    ensures !RunSteals(s, run) && Inv(After(s, run))
    decreases |run|
  {
    if run != [] {
      StepPreserves(s, run[0]);
      NeverSteals(Apply(s, run[0]), run[1..]);
    }
  }

  lemma {:induction false} ChildStays(s: State, a: Step, p: Pid)
    requires Inv(s) && Enabled(s, a) && Safe(s, a) && Awaited(s, p) && a != Wait(p)
    ensures Awaited(Apply(s, a), p)
  {
  }

  /** What the reaper leaves to the owner: on every safe run an awaited child stays in the
      kernel's table, with its exit status, until its own owner's Wait collects it. */
  lemma {:induction false} OwnerFindsChild(s: State, run: seq<Step>, p: Pid)
    requires Inv(s) && Awaited(s, p) && IsRun(s, run) && SafeRun(s, run) && Wait(p) !in run
    ensures Awaited(After(s, run), p)
    decreases |run|
  {
    if run != [] {
      assert run[0] in run;
      StepPreserves(s, run[0]);
      ChildStays(s, run[0], p);
      OwnerFindsChild(Apply(s, run[0]), run[1..], p);
    }
  }

  ghost predicate UsedInv(s: State) {
    && s.children.Keys <= s.used && s.tracked <= s.used
    && (s.starting.Some? ==> s.starting.value in s.used)
    && (s.chosen.Some? ==> s.chosen.value in s.used)
    && (forall i :: 0 <= i < |s.found| ==> s.found[i] in s.used)
  }

  lemma {:induction false} UsedPreserved(s: State, a: Step)
    requires UsedInv(s) && Enabled(s, a)
    ensures UsedInv(Apply(s, a))
  {
  }

  lemma {:induction false} FreshIsSafe(s: State, run: seq<Step>)
    requires UsedInv(s) && IsRun(s, run) && FreshPids(s, run) && AllTracked(run)
    ensures SafeRun(s, run)
    decreases |run|
  {
    if run != [] {
      assert !run[0].StartPlain?;
      UsedPreserved(s, run[0]);
      FreshIsSafe(Apply(s, run[0]), run[1..]);
    }
  }

  /** With fresh pids and every awaited child tracked, no run steals. */
  lemma {:induction false} FreshPidsNeverSteal(run: seq<Step>)
    requires IsRun(INITIAL, run) && FreshPids(INITIAL, run) && AllTracked(run)
    ensures !RunSteals(INITIAL, run)
  {
    FreshIsSafe(INITIAL, run);
    NeverSteals(INITIAL, run);
  }

  // ---- Every unsafe start can be followed by a theft ----------------------

  /** Some continuation without a further unsafe start steals a child. */
  ghost predicate CanSteal(s: State) {
    exists run :: IsRun(s, run) && SafeRun(s, run) && RunSteals(s, run)
  }

  lemma {:induction false} StealNow(s: State)
    requires Steals(s, Reap)
    ensures CanSteal(s)
  {
    assert [Reap][1..] == [];
    assert IsRun(s, [Reap]) && SafeRun(s, [Reap]) && RunSteals(s, [Reap]);
  }

  lemma {:induction false} StealLater(s: State, a: Step)
    requires Enabled(s, a) && Safe(s, a) && CanSteal(Apply(s, a))
    ensures CanSteal(s)
  {
    var run :| IsRun(Apply(s, a), run) && SafeRun(Apply(s, a), run) && RunSteals(Apply(s, a), run);
    assert ([a] + run)[1..] == run;
    assert IsRun(s, [a] + run) && SafeRun(s, [a] + run) && RunSteals(s, [a] + run);
  }

  /** An awaited zombie that is not recorded. */
  predicate Exposed(s: State, p: Pid) {
    IsZombie(s, p) && Awaited(s, p) && p !in s.tracked && s.starting.None?
  }

  /** Wherever the reaper is, it can go on to collect an exposed child: it settles its
      chosen pid, ends its scan, works off what it found, and finds the child next. */
  lemma {:induction false} ExposedIsStolen(s: State, p: Pid)
    requires Exposed(s, p)
    ensures CanSteal(s)
    decreases |s.found|, if s.chosen.Some? then 1 else 0, if s.scanning then 1 else 0
  {
    if s.chosen.Some? {
      if s.chosen.value == p {
        StealNow(s);
      } else {
        ExposedIsStolen(Apply(s, Reap), p);
        StealLater(s, Reap);
      }
    } else if s.scanning {
      ExposedIsStolen(Apply(s, EndScan), p);
      StealLater(s, EndScan);
    } else if s.found != [] {
      ExposedIsStolen(Apply(s, Check), p);
      StealLater(s, Check);
    } else {
      ExposedIsFound(s, p);
    }
  }

  lemma {:induction false} ExposedIsFound(s: State, p: Pid)
    requires Exposed(s, p) && s.chosen.None? && !s.scanning && s.found == []
    ensures CanSteal(s)
  {
    var s1 := Apply(s, Rescan);
    var s2 := Apply(s1, See(p));
    var s3 := Apply(s2, EndScan);
    StealNow(Apply(s3, Check));
    StealLater(s3, Check);
    StealLater(s2, EndScan);
    StealLater(s1, See(p));
    StealLater(s, Rescan);
  }

  /** An awaited child whose pid is not recorded, or is about to be untracked, once nobody
      holds the lock. */
  lemma {:induction false} UnprotectedIsStolen(s: State, p: Pid)
    requires Awaited(s, p) && !s.children[p].zombie && s.starting.None? && (p in s.tracked ==> p in s.pending)
    ensures CanSteal(s)
    decreases p in s.tracked
  {
    if p in s.tracked {
      UnprotectedIsStolen(Apply(s, Untrack(p)), p);
      StealLater(s, Untrack(p));
    } else {
      ExposedIsStolen(Apply(s, Exit(p)), p);
      StealLater(s, Exit(p));
    }
  }

  /** A tracked start with the pid the reaper has chosen, at any point of its pass. */
  lemma {:induction false} ReuseOfChosenSteals(s: State, p: Pid)
    requires s.chosen == Some(p) && Enabled(s, Start(p))
    ensures CanSteal(Apply(s, Start(p))) && CanSteal(Apply(Apply(s, Start(p)), Record))
  {
    var s1 := Apply(s, Start(p));
    var s2 := Apply(s1, Record);
    StealNow(Apply(s2, Exit(p)));
    StealLater(s2, Exit(p));
    StealLater(s1, Record);
  }

  /** A tracked start with a pid whose previous owner has yet to untrack it: the late
      untrack exposes the new child, wherever the reaper is. */
  lemma {:induction false} ReuseOfPendingSteals(s: State, p: Pid)
    requires p in s.pending && Enabled(s, Start(p))
    ensures CanSteal(Apply(s, Start(p))) && CanSteal(Apply(Apply(s, Start(p)), Record))
  {
    var s1 := Apply(s, Start(p));
    UnprotectedIsStolen(Apply(s1, Record), p);
    StealLater(s1, Record);
  }

  /** A child that is waited on but never recorded, wherever the reaper is and whether or not
      its pid is fresh. */
  lemma {:induction false} PlainChildIsStolen(s: State, p: Pid)
    requires Inv(s) && Enabled(s, StartPlain(p))
    ensures CanSteal(Apply(s, StartPlain(p)))
  {
    var s1 := Apply(s, StartPlain(p));
    assert p in s.tracked ==> p in s.pending;
    if s.starting.Some? {
      assert s.starting.value != p;
      UnprotectedIsStolen(Apply(s1, Record), p);
      StealLater(s1, Record);
    } else {
      UnprotectedIsStolen(s1, p);
    }
  }

  /** The exact condition: in any state that safe steps lead to, a step leaves room for a
      theft, by safe steps alone, exactly when it is an unsafe start. */
  lemma {:induction false} TheftIff(s: State, a: Step)
    requires Inv(s) && Enabled(s, a)
    ensures CanSteal(Apply(s, a)) <==> !Safe(s, a)
  {
    if Safe(s, a) {
      StepPreserves(s, a);
      CannotSteal(Apply(s, a));
    } else if a.StartPlain? {
      PlainChildIsStolen(s, a.pid);
    } else if s.chosen == Some(a.pid) {
      ReuseOfChosenSteals(s, a.pid);
    } else {
      ReuseOfPendingSteals(s, a.pid);
    }
  }

  lemma {:induction false} CannotSteal(s: State)
    requires Inv(s)
    ensures !CanSteal(s)
  {
    forall run | IsRun(s, run) && SafeRun(s, run) ensures !RunSteals(s, run) {
      NeverSteals(s, run);
    }
  }

  /** The same over whole runs of init: after any run whose starts were all safe, the next
      step opens the way to a theft exactly when it starts an awaited child untracked, or
      tracked with a pid that is still recorded or already chosen. */
  lemma {:induction false} RunTheftIff(run: seq<Step>, a: Step)
    requires IsRun(INITIAL, run) && SafeRun(INITIAL, run) && Enabled(After(INITIAL, run), a)
    ensures !RunSteals(INITIAL, run)
    ensures CanSteal(Apply(After(INITIAL, run), a)) <==> !Safe(After(INITIAL, run), a)
  {
    NeverSteals(INITIAL, run);
    TheftIff(After(INITIAL, run), a);
  }

  /** Fresh pids alone do not keep the reaper from stealing: one fresh child that init waits
      for without recording it is enough. */
  lemma {:induction false} FreshPlainChildIsStolen(p: Pid)
    ensures FreshStart(INITIAL, StartPlain(p)) && CanSteal(Apply(INITIAL, StartPlain(p)))
  {
    PlainChildIsStolen(INITIAL, p);
  }

  /** A safe run from one state to another. */
  ghost predicate Leads(s: State, run: seq<Step>, end: State) {
    IsRun(s, run) && SafeRun(s, run) && AllTracked(run) && After(s, run) == end
  }

  lemma {:induction false} Then(s: State, a: Step, run: seq<Step>, end: State)
    requires Enabled(s, a) && Safe(s, a) && Leads(Apply(s, a), run, end)
    ensures Leads(s, [a] + run, end)
  {
    assert ([a] + run)[1..] == run;
  }

  /** Nor does tracking alone: a child is seen as a zombie, its owner collects and untracks
      it, the reaper finds the pid untracked, and only then is the pid given out again. */
  lemma {:induction false} ReusedPidIsStolen(p: Pid) returns (run: seq<Step>)
    ensures IsRun(INITIAL, run) && SafeRun(INITIAL, run) && AllTracked(run)
    ensures Enabled(After(INITIAL, run), Start(p)) && CanSteal(Apply(After(INITIAL, run), Start(p)))
  {
    var s1 := Apply(INITIAL, Start(p));
    var s2 := Apply(s1, Record);
    var s3 := Apply(s2, Exit(p));
    var s4 := Apply(s3, See(p));
    var end;
    run, end := SeenThenCollected(Apply(s4, EndScan), p);
    Then(s4, EndScan, run, end);
    Then(s3, See(p), [EndScan] + run, end);
    Then(s2, Exit(p), [See(p)] + ([EndScan] + run), end);
    Then(s1, Record, [Exit(p)] + ([See(p)] + ([EndScan] + run)), end);
    run := [Record] + ([Exit(p)] + ([See(p)] + ([EndScan] + run)));
    Then(INITIAL, Start(p), run, end);
    run := [Start(p)] + run;
    ReuseOfChosenSteals(end, p);
  }

  lemma {:induction false} SeenThenCollected(s: State, p: Pid) returns (run: seq<Step>, end: State)
    requires s == State(map[p := Child(true, Tracker)], {p}, None, multiset{}, false, [p], None, {p})
    ensures Leads(s, run, end) && end.chosen == Some(p) && Enabled(end, Start(p))
  {
    var s1 := Apply(s, Wait(p));
    var s2 := Apply(s1, Untrack(p));
    end := Apply(s2, Check);
    assert Leads(end, [], end);
    Then(s2, Check, [], end);
    Then(s1, Untrack(p), [Check] + [], end);
    Then(s, Wait(p), [Untrack(p)] + ([Check] + []), end);
    run := [Wait(p)] + ([Untrack(p)] + ([Check] + []));
  }
}
