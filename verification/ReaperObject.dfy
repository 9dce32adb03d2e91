/** The reaper's own methods, with the steps of everybody else between any two of theirs.

    The methods are shown to be runs of the protocol in Reaper, so what is proved there of
    every interleaving holds of them. */
module ReaperObject {
  import opened Basics
  import opened Reaper

  /** Steps that are not the reaper's: starters, owners, the kernel. */
  predicate Foreign(a: Step) {
    !(a.See? || a.EndScan? || a.Check? || a.Reap? || a.Rescan?)
  }

  /** The given steps of others, in order, leaving out those that cannot happen. */
  function Interfere(s: State, steps: seq<Step>): (r: State)
    ensures r.found == s.found && r.scanning == s.scanning && r.chosen == s.chosen
    decreases |steps|
  {
    if steps == [] then s
    else if Foreign(steps[0]) && Enabled(s, steps[0]) then Interfere(Apply(s, steps[0]), steps[1..])
    else Interfere(s, steps[1..])
  }

  /** Waiting for the lock: a starter that holds it records its child first. */
  function Locked(s: State): (r: State)
    ensures r.starting.None? && r.found == s.found && r.scanning == s.scanning && r.chosen == s.chosen
  {
    if s.starting.Some? then Apply(s, Record) else s
  }

  /** What others do around the reaper's steps, by the number of the gap. */
  type Others = nat -> seq<Step>

  // ---- The scan and the pass ----------------------------------------------

  function SeeOne(s: State, pid: Pid): State
    requires s.scanning
  {
    if IsZombie(s, pid) then Apply(s, See(pid)) else s
  }

  /** The scan reads the given entries of /proc in turn. */
  function Scan(s: State, entries: seq<Pid>, others: Others, gap: nat): (r: State)
    requires s.scanning
    ensures r.scanning && r.chosen == s.chosen
    decreases |entries|
  {
    if entries == [] then s
    else Scan(SeeOne(Interfere(s, others(gap)), entries[0]), entries[1..], others, gap + 1)
  }

  function CheckOne(s: State, others: Others, gap: nat): (r: State)
    requires !s.scanning && s.chosen.None? && s.found != []
    ensures !r.scanning && |r.found| == |s.found| - 1
  {
    Apply(Locked(Interfere(s, others(gap))), Check)
  }

  function ReapOne(s: State, others: Others, gap: nat): (r: State)
    requires !s.scanning && s.chosen.Some?
    ensures !r.scanning && r.chosen.None? && r.found == s.found
  {
    Apply(Interfere(s, others(gap)), Reap)
  }

  /** The loop over what the scan found. */
  function Pass(s: State, others: Others, gap: nat): (r: State)
    requires !s.scanning && s.chosen.None?
    ensures r.found == [] && r.chosen.None? && !r.scanning
    decreases |s.found|
  {
    if s.found == [] then s
    else
      var checked := CheckOne(s, others, gap);
      var reaped := if checked.chosen.Some? then ReapOne(checked, others, gap + 1) else checked;
      Pass(reaped, others, gap + 2)
  }

  /** The whole of reapOrphans. */
  function Round(s: State, entries: seq<Pid>, others: Others): State
    requires s.scanning && s.chosen.None?
  {
    Pass(Apply(Scan(s, entries, others, 0), EndScan), others, |entries|)
  }

  // ---- They are runs of the protocol --------------------------------------

  ghost predicate Reaches(s: State, run: seq<Step>, end: State) {
    IsRun(s, run) && After(s, run) == end
  }

  lemma {:induction false} RunAppend(s: State, a: seq<Step>, mid: State, b: seq<Step>, end: State)
    requires Reaches(s, a, mid) && Reaches(mid, b, end)
    ensures Reaches(s, a + b, end)
    decreases |a|
  {
    if a == [] {
      assert a + b == b;
    } else {
      assert (a + b)[1..] == a[1..] + b;
      RunAppend(Apply(s, a[0]), a[1..], mid, b, end);
    }
  }

  lemma {:induction false} RunOne(s: State, a: Step)
    requires Enabled(s, a)
    ensures Reaches(s, [a], Apply(s, a))
  {
    assert [a][1..] == [];
  }

  lemma {:induction false} RunSnoc(s: State, run: seq<Step>, mid: State, a: Step)
    requires Reaches(s, run, mid) && Enabled(mid, a)
    ensures Reaches(s, run + [a], Apply(mid, a))
  {
    RunOne(mid, a);
    RunAppend(s, run, mid, [a], Apply(mid, a));
  }

  lemma {:induction false} InterfereIsRun(s: State, steps: seq<Step>) returns (run: seq<Step>)
    ensures Reaches(s, run, Interfere(s, steps))
    decreases |steps|
  {
    if steps == [] {
      run := [];
    } else if Foreign(steps[0]) && Enabled(s, steps[0]) {
      RunOne(s, steps[0]);
      run := InterfereIsRun(Apply(s, steps[0]), steps[1..]);
      RunAppend(s, [steps[0]], Apply(s, steps[0]), run, Interfere(s, steps));
      run := [steps[0]] + run;
    } else {
      run := InterfereIsRun(s, steps[1..]);
    }
  }

  lemma {:induction false} ScanIsRun(s: State, entries: seq<Pid>, others: Others, gap: nat) returns (run: seq<Step>)
    requires s.scanning
    ensures Reaches(s, run, Scan(s, entries, others, gap))
    decreases |entries|
  {
    run := [];
    if entries != [] {
      var mid := Interfere(s, others(gap));
      run := InterfereIsRun(s, others(gap));
      var next := SeeOne(mid, entries[0]);
      if IsZombie(mid, entries[0]) {
        RunSnoc(s, run, mid, See(entries[0]));
        run := run + [See(entries[0])];
      }
      var more := ScanIsRun(next, entries[1..], others, gap + 1);
      RunAppend(s, run, next, more, Scan(s, entries, others, gap));
      run := run + more;
    }
  }

  lemma {:induction false} CheckIsRun(s: State, others: Others, gap: nat) returns (run: seq<Step>)
    requires !s.scanning && s.chosen.None? && s.found != []
    ensures Reaches(s, run, CheckOne(s, others, gap))
  {
    var mid := Interfere(s, others(gap));
    run := InterfereIsRun(s, others(gap));
    if mid.starting.Some? {
      RunSnoc(s, run, mid, Record);
      run := run + [Record];
    }
    RunSnoc(s, run, Locked(mid), Check);
    run := run + [Check];
  }

  lemma {:induction false} ReapIsRun(s: State, others: Others, gap: nat) returns (run: seq<Step>)
    requires !s.scanning && s.chosen.Some?
    ensures Reaches(s, run, ReapOne(s, others, gap))
  {
    run := InterfereIsRun(s, others(gap));
    RunSnoc(s, run, Interfere(s, others(gap)), Reap);
    run := run + [Reap];
  }

  lemma {:induction false} PassIsRun(s: State, others: Others, gap: nat) returns (run: seq<Step>)
    requires !s.scanning && s.chosen.None?
    ensures Reaches(s, run, Pass(s, others, gap))
    decreases |s.found|
  {
    run := [];
    if s.found != [] {
      var next := CheckOne(s, others, gap);
      run := CheckIsRun(s, others, gap);
      if next.chosen.Some? {
        var reap := ReapIsRun(next, others, gap + 1);
        RunAppend(s, run, next, reap, ReapOne(next, others, gap + 1));
        run, next := run + reap, ReapOne(next, others, gap + 1);
      }
      var more := PassIsRun(next, others, gap + 2);
      RunAppend(s, run, next, more, Pass(s, others, gap));
      run := run + more;
    }
  }

  /** Whatever others do in between, one call of reapOrphans is a run of the protocol. */
  lemma {:induction false} RoundIsRun(s: State, entries: seq<Pid>, others: Others) returns (run: seq<Step>)
    requires s.scanning && s.chosen.None?
    ensures Reaches(s, run, Round(s, entries, others))
    ensures Inv(s) && SafeRun(s, run) ==> !RunSteals(s, run) && Inv(Round(s, entries, others))
  {
    var scanned := Scan(s, entries, others, 0);
    run := ScanIsRun(s, entries, others, 0);
    RunSnoc(s, run, scanned, EndScan);
    var more := PassIsRun(Apply(scanned, EndScan), others, |entries|);
    RunAppend(s, run + [EndScan], Apply(scanned, EndScan), more, Round(s, entries, others));
    run := (run + [EndScan]) + more;
    if Inv(s) && SafeRun(s, run) {
      NeverSteals(s, run);
    }
  }

  // ---- What a round collects ----------------------------------------------

  const NOBODY: Others := (_: nat) => []

  /** The zombies among the entries that are not recorded. */
  ghost predicate Collected(s: State, pids: seq<Pid>, p: Pid) {
    p in pids && IsZombie(s, p) && p !in s.tracked
  }

  /** `r` is `s` after exactly the collected children are gone. */
  ghost predicate OnlyLoses(s: State, pids: seq<Pid>, r: State) {
    && r.tracked == s.tracked && r.pending == s.pending && r.starting == s.starting
    && (forall p :: p in r.children <==> p in s.children && !Collected(s, pids, p))
    && (forall p :: p in r.children ==> r.children[p] == s.children[p])
  }

  lemma {:induction false} QuietScan(s: State, entries: seq<Pid>, gap: nat)
    requires s.scanning
    ensures var r := Scan(s, entries, NOBODY, gap);
      && r == s.(found := r.found)
      && (forall p :: p in r.found <==> p in s.found || (p in entries && IsZombie(s, p)))
    decreases |entries|
  {
    if entries != [] {
      QuietScan(SeeOne(s, entries[0]), entries[1..], gap + 1);
    }
  }

  lemma {:induction false} QuietPass(s: State, gap: nat)
    requires !s.scanning && s.chosen.None? && s.starting.None?
    ensures OnlyLoses(s, s.found, Pass(s, NOBODY, gap))
    decreases |s.found|
  {
    if s.found != [] {
      var checked := CheckOne(s, NOBODY, gap);
      var reaped := if checked.chosen.Some? then ReapOne(checked, NOBODY, gap + 1) else checked;
      QuietPass(reaped, gap + 2);
    }
  }

  /** Left to itself, a round collects exactly the zombies among the entries of /proc that
      are not recorded, and changes nothing else. */
  lemma {:induction false} QuietRound(s: State, entries: seq<Pid>)
    requires s.scanning && s.chosen.None? && s.starting.None? && s.found == []
    ensures OnlyLoses(s, entries, Round(s, entries, NOBODY))
  {
    QuietScan(s, entries, 0);
    QuietPass(Apply(Scan(s, entries, NOBODY, 0), EndScan), |entries|);
  }

  // ---- The object ---------------------------------------------------------

  /** The reaper's table, with the kernel's table and the other goroutines around it. */
  class ChildReaper {
    var world: State

    constructor ()
      ensures world == INITIAL
    {
      world := INITIAL;
    }

    /** Start and record in one lock region; a failed start records nothing. From a state
        that safe starts led to, the reaper can take the child exactly when its pid was
        still recorded or already chosen. */
    method StartTracked(started: Option<Pid>) returns (ok: bool)
      requires world.starting.None? && (started.Some? ==> started.value !in world.children)
      modifies this
      ensures ok <==> started.Some?
      ensures !ok ==> world == old(world)
      ensures ok ==> Reaches(old(world), [Start(started.value), Record], world)
      ensures ok && Inv(old(world)) ==> (CanSteal(world) <==> !Safe(old(world), Start(started.value)))
    {
      if started.None? {
        return false;
      }
      StartedThenRecorded(world, started.value);
      world := Apply(world, Start(started.value));
      world := Apply(world, Record);
      ok := true;
    }

    method ReapOrphans(entries: seq<Pid>, others: Others)
      requires world.scanning && world.chosen.None?
      modifies this
      ensures world == Round(old(world), entries, others)
    {
      ZombieChildren(entries, others);
      world := Apply(world, EndScan);
      ghost var scanned := world;
      var gap: nat := |entries|;
      while world.found != []
        invariant !world.scanning && world.chosen.None?
        invariant Pass(world, others, gap) == Pass(scanned, others, |entries|)
        decreases |world.found|
      {
        world := CheckOne(world, others, gap);
        if world.chosen.Some? {
          world := ReapOne(world, others, gap + 1);
        }
        gap := gap + 2;
      }
    }

    method ZombieChildren(entries: seq<Pid>, others: Others)
      requires world.scanning
      modifies this
      ensures world == Scan(old(world), entries, others, 0)
    {
      var i := 0;
      assert entries[0..] == entries;
      while i < |entries|
        invariant 0 <= i <= |entries| && world.scanning
        invariant Scan(world, entries[i..], others, i) == Scan(old(world), entries, others, 0)
      {
        assert entries[i..][1..] == entries[i + 1..];
        world := SeeOne(Interfere(world, others(i)), entries[i]);
        i := i + 1;
      }
    }
  }

  lemma {:induction false} StartedThenRecorded(s: State, p: Pid)
    requires Enabled(s, Start(p))
    ensures var end := Apply(Apply(s, Start(p)), Record);
      && Reaches(s, [Start(p), Record], end)
      && (Inv(s) ==> (CanSteal(end) <==> !Safe(s, Start(p))))
  {
    var s1 := Apply(s, Start(p));
    RunOne(s, Start(p));
    RunSnoc(s, [Start(p)], s1, Record);
    assert [Start(p)] + [Record] == [Start(p), Record];
    if Inv(s) {
      if Safe(s, Start(p)) {
        StepPreserves(s, Start(p));
        StepPreserves(s1, Record);
        CannotSteal(Apply(s1, Record));
      } else if s.chosen == Some(p) {
        ReuseOfChosenSteals(s, p);
      } else {
        ReuseOfPendingSteals(s, p);
      }
    }
  }
}
