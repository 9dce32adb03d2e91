/** How long a completed entry counts, over every run of the store, stated on completion times
    and the configured lifetime alone. */
module IdempotencyLifetime {
  import opened IdempotencySpec
  import opened IdempotencyRuns

  // ---- Completion times ---------------------------------------------------

  /** An entry that still counts at `now`: running, or completed less than a lifetime ago. */
  predicate Live(cfg: Config, e: Entry, now: int) {
    e.Running? || now < e.completedAt + cfg.ttl
  }

  /** The keys whose entries still count. */
  ghost function LiveKeys(cfg: Config, s: State, now: int): set<Key>
    requires WellIndexed(s)
  {
    set k | k in s.table && Live(cfg, s.entries[s.table[k]], now)
  }

  /** The entry expires one lifetime after it completed. */
  predicate OnTime(cfg: Config, e: Entry) { e.Completed? ==> e.expiresAt == e.completedAt + cfg.ttl }

  ghost predicate AllOnTime(cfg: Config, entries: seq<Entry>) {
    forall id :: 0 <= id < |entries| ==> OnTime(cfg, entries[id])
  }

  lemma {:induction false} OnTimeStep(cfg: Config, s: State, a: Step, s': State)
    requires WellIndexed(s) && Next(cfg, s, a, s') && AllOnTime(cfg, s.entries)
    ensures AllOnTime(cfg, s'.entries)
  {
  }

  lemma {:induction false} ExpiresAfterTtl(cfg: Config, r: Run, n: nat)
    requires IsRun(cfg, r) && n < |r.states|
    ensures AllOnTime(cfg, r.states[n].entries)
    decreases n
  {
    if n > 0 {
      ExpiresAfterTtl(cfg, r, n - 1);
      assert Follows(cfg, r, n - 1);
      OnTimeStep(cfg, r.states[n - 1], r.steps[n - 1], r.states[n]);
    }
  }

  lemma {:induction false} LiveIff(cfg: Config, r: Run, n: nat, id: nat, now: int)
    requires IsRun(cfg, r) && n < |r.states| && id < |r.states[n].entries|
    ensures Live(cfg, r.states[n].entries[id], now) <==> !Expired(r.states[n].entries[id], now)
  {
    ExpiresAfterTtl(cfg, r, n);
    assert OnTime(cfg, r.states[n].entries[id]);
  }

  lemma {:induction false} PrunedIsLive(cfg: Config, r: Run, n: nat, now: int)
    requires IsRun(cfg, r) && n < |r.states| && WellIndexed(r.states[n])
    ensures Pruned(View(r.states[n]), now).Keys == LiveKeys(cfg, r.states[n], now)
  {
    var s := r.states[n];
    forall k | k in s.table
      ensures Live(cfg, s.entries[s.table[k]], now) <==> !Expired(s.entries[s.table[k]], now)
    {
      LiveIff(cfg, r, n, s.table[k], now);
    }
  }

  /** The clock never goes back, and a Begin or Complete step sets it. */
  lemma {:induction false} ClockGrows(cfg: Config, r: Run, i: nat, j: nat)
    requires IsRun(cfg, r) && i <= j < |r.states|
    ensures r.states[i].clock <= r.states[j].clock
    decreases j
  {
    if i < j {
      ClockGrows(cfg, r, i, j - 1);
      assert Follows(cfg, r, j - 1);
    }
  }

  lemma {:induction false} StepsInTime(cfg: Config, r: Run, i: nat, j: nat)
    requires IsRun(cfg, r) && i <= j < |r.steps| && r.steps[i].Begin? && r.steps[j].Begin?
    ensures r.steps[i].now <= r.steps[j].now
  {
    assert Follows(cfg, r, i) && Follows(cfg, r, j);
    if i < j {
      ClockGrows(cfg, r, i + 1, j);
    }
  }

  // ---- The completion of an entry -----------------------------------------

  /** The entry that step `b` made. */
  function EntryOf(r: Run, b: nat): nat
    requires b < |r.states|
  {
    |r.states[b].entries|
  }

  /** The caller that started at `b` completes at `m`. */
  ghost predicate Completes(r: Run, b: nat, m: nat) {
    && b < m < |r.steps| && r.steps[b].Begin? && r.steps[m].Complete? && r.steps[m].c == r.steps[b].c
  }

  lemma {:induction false} ReturnedStays(cfg: Config, r: Run, m: nat, n: nat, c: Caller)
    requires IsRun(cfg, r) && m <= n < |r.states| && c in r.states[m].callers && r.states[m].callers[c].Returned?
    ensures c in r.states[n].callers && r.states[n].callers[c].Returned?
    decreases n
  {
    if m < n {
      ReturnedStays(cfg, r, m, n - 1, c);
      assert Follows(cfg, r, n - 1);
    }
  }

  lemma {:induction false} CompletesOnce(cfg: Config, r: Run, b: nat, m: nat, m': nat)
    requires IsRun(cfg, r) && Completes(r, b, m) && Completes(r, b, m')
    ensures m == m'
  {
    assert Follows(cfg, r, m) && Follows(cfg, r, m');
    if m < m' {
      ReturnedStays(cfg, r, m + 1, m', r.steps[b].c);
    } else if m' < m {
      ReturnedStays(cfg, r, m' + 1, m, r.steps[b].c);
    }
  }

  lemma {:induction false} EntryStands(cfg: Config, r: Run, b: nat, n: nat, key: Key)
    requires IsRun(cfg, r) && Starts(r, b, key) && b < n < |r.states|
    ensures EntryOf(r, b) < |r.states[n].entries|
  {
    assert Follows(cfg, r, b);
    EntriesGrow(cfg, r, b + 1, n);
  }

  /** What the entry made at `b` is by state `n`: it has that step's digest, and it is completed
      exactly when its caller has completed, with that time. */
  lemma {:induction false} EntryTraced(cfg: Config, r: Run, b: nat, n: nat, key: Key)
    requires IsRun(cfg, r) && Starts(r, b, key) && b < n < |r.states|
    ensures EntryOf(r, b) < |r.states[n].entries|
    ensures r.states[n].entries[EntryOf(r, b)].digest == r.steps[b].digest
    ensures r.states[n].entries[EntryOf(r, b)].Completed? ==>
      exists m: nat :: Completes(r, b, m) && m < n && r.states[n].entries[EntryOf(r, b)].completedAt == r.steps[m].now
    ensures r.states[n].entries[EntryOf(r, b)].Running? ==> forall m: nat :: m < n ==> !Completes(r, b, m)
  {
    EntryStands(cfg, r, b, n, key);
    var id, c := EntryOf(r, b), r.steps[b].c;
    var b' := OriginOf(cfg, r, n, id);
    SameOrigin(cfg, r, b, b', id);
    var e := r.states[n].entries[id];
    if e.Completed? {
      var m :| b < m < n && CompletesWith(r, m, c, e);
      assert Completes(r, b, m);
    } else {
      forall m: nat | m < n ensures !Completes(r, b, m) {
        if Completes(r, b, m) {
          assert Follows(cfg, r, m);
          ReturnedStays(cfg, r, m + 1, n, c);
        }
      }
    }
  }

  lemma {:induction false} CompletionTime(cfg: Config, r: Run, b: nat, m: nat, n: nat, key: Key)
    requires IsRun(cfg, r) && Starts(r, b, key) && b < n < |r.states| && Completes(r, b, m) && m < n
    ensures EntryOf(r, b) < |r.states[n].entries| && r.states[n].entries[EntryOf(r, b)].Completed?
    ensures r.states[n].entries[EntryOf(r, b)].completedAt == r.steps[m].now
  {
    EntryTraced(cfg, r, b, n, key);
    var m': nat :| Completes(r, b, m') && m' < n && r.states[n].entries[EntryOf(r, b)].completedAt == r.steps[m'].now;
    CompletesOnce(cfg, r, b, m, m');
  }

  // ---- When an entry leaves -----------------------------------------------

  /** At step `e` the table, expired entries aside, is full, and `key` is evicted from it as an
      entry that completed no later than any other that has completed. */
  ghost predicate EvictedWhenFull(cfg: Config, r: Run, e: nat, key: Key)
    requires e < |r.steps| && e < |r.states|
  {
    var s, a := r.states[e], r.steps[e];
    && a.Begin? && WellIndexed(s) && a.evicted == [key]
    && |LiveKeys(cfg, s, a.now)| == cfg.maxEntries && key in LiveKeys(cfg, s, a.now)
    && s.entries[s.table[key]].Completed?
    && (forall k :: k in LiveKeys(cfg, s, a.now) && s.entries[s.table[k]].Completed? ==>
          s.entries[s.table[key]].completedAt <= s.entries[s.table[k]].completedAt)
  }

  lemma {:induction false} DropReason(cfg: Config, r: Run, e: nat, key: Key)
    requires IsRun(cfg, r) && e < |r.steps| && MayDrop(cfg, r.states[e], r.steps[e], key)
    ensures var en := r.states[e].entries[r.states[e].table[key]];
      en.Completed? && (en.completedAt + cfg.ttl <= r.steps[e].now || EvictedWhenFull(cfg, r, e, key))
  {
    var s, a := r.states[e], r.steps[e];
    LiveIff(cfg, r, e, s.table[key], a.now);
    if !Expired(View(s)[key], a.now) {
      PrunedIsLive(cfg, r, e, a.now);
      assert |Pruned(View(s), a.now)| == |Pruned(View(s), a.now).Keys|;
      forall k | k in LiveKeys(cfg, s, a.now) && s.entries[s.table[k]].Completed?
        ensures s.entries[s.table[key]].completedAt <= s.entries[s.table[k]].completedAt
      {
        assert k in Pruned(View(s), a.now);
      }
    }
  }

  /** An entry leaves the table only a lifetime after its execution completed, or evicted from a
      full table as one that completed no later than any other. */
  lemma {:induction false} LeavesOnlyWhen(cfg: Config, r: Run, b: nat, e: nat, key: Key) returns (m: nat)
    requires IsRun(cfg, r) && Starts(r, b, key) && b < e < |r.steps|
    requires key in r.states[e].table && r.states[e].table[key] == EntryOf(r, b)
    requires key in r.states[e + 1].table ==> r.states[e + 1].table[key] != EntryOf(r, b)
    ensures Completes(r, b, m) && m < e && r.steps[e].Begin?
    ensures r.steps[m].now + cfg.ttl <= r.steps[e].now || EvictedWhenFull(cfg, r, e, key)
  {
    RunInv(cfg, r, e);
    assert Follows(cfg, r, e);
    StaysOrDropped(cfg, r.states[e], r.steps[e], r.states[e + 1], key);
    DropReason(cfg, r, e, key);
    EntryTraced(cfg, r, b, e, key);
    m :| Completes(r, b, m) && m < e && r.states[e].entries[EntryOf(r, b)].completedAt == r.steps[m].now;
  }

  /** A second execution for a key starts only a lifetime after the first completed, or after the
      first one's entry was evicted from a full table. */
  lemma {:induction false} SecondStart(cfg: Config, r: Run, i: nat, j: nat, key: Key) returns (m: nat, e: nat)
    requires IsRun(cfg, r) && Starts(r, i, key) && Starts(r, j, key) && i < j
    ensures Completes(r, i, m) && m < e <= j
    ensures r.steps[m].now + cfg.ttl <= r.steps[j].now || EvictedWhenFull(cfg, r, e, key)
  {
    var m';
    m', e := AtMostOnce(cfg, r, i, j, key);
    m := LeavesOnlyWhen(cfg, r, i, e, key);
    StepsInTime(cfg, r, e, j);
  }

  // ---- What a retry gets --------------------------------------------------

  /** The key was not evicted between steps `b` and `n`. */
  ghost predicate NotEvicted(r: Run, b: nat, n: nat, key: Key)
    requires n <= |r.steps|
  {
    forall e :: b < e < n && r.steps[e].Begin? ==> key !in r.steps[e].evicted
  }

  /** At step `n` less than a lifetime has passed since the execution started at `b` completed,
      if it has. */
  ghost predicate InLifetime(cfg: Config, r: Run, b: nat, n: nat)
    requires n < |r.steps| && r.steps[n].Begin?
  {
    forall m: nat :: Completes(r, b, m) && m < n ==> r.steps[n].now < r.steps[m].now + cfg.ttl
  }

  lemma {:induction false} StaysInLifetime(cfg: Config, r: Run, b: nat, t: nat, n: nat, key: Key)
    requires IsRun(cfg, r) && Starts(r, b, key) && b < t <= n < |r.steps| && r.steps[n].Begin?
    requires NotEvicted(r, b, n, key) && InLifetime(cfg, r, b, n)
    ensures key in r.states[t].table && r.states[t].table[key] == EntryOf(r, b)
    decreases t
  {
    if t == b + 1 {
      assert Follows(cfg, r, b);
    } else {
      StaysInLifetime(cfg, r, b, t - 1, n, key);
      if !(key in r.states[t].table && r.states[t].table[key] == EntryOf(r, b)) {
        var m := LeavesOnlyWhen(cfg, r, b, t - 1, key);
        StepsInTime(cfg, r, t - 1, n);
      }
    }
  }

  /** A retry within the lifetime, the entry not evicted, waits on the first execution's entry
      when its digest is the same, and conflicts with it when not: it never starts again. */
  lemma {:induction false} RetryJoins(cfg: Config, r: Run, b: nat, n: nat, key: Key)
    requires IsRun(cfg, r) && Starts(r, b, key) && b < n < |r.steps| && r.steps[n].Begin? && r.steps[n].key == key
    requires NotEvicted(r, b, n, key) && InLifetime(cfg, r, b, n)
    ensures r.steps[n].c in r.states[n + 1].callers
    ensures r.states[n + 1].callers[r.steps[n].c]
      == if r.steps[n].digest == r.steps[b].digest then Waiting(EntryOf(r, b)) else Returned(Conflict)
  {
    var s, a, id := r.states[n], r.steps[n], EntryOf(r, b);
    StaysInLifetime(cfg, r, b, n, n, key);
    EntryTraced(cfg, r, b, n, key);
    LiveIff(cfg, r, n, id, a.now);
    RunInv(cfg, r, n);
    assert Follows(cfg, r, n);
    assert key in Pruned(View(s), a.now);
  }

  /** A retry a lifetime or more after the completion never waits on that entry, and the entry is
      gone after it. If the table still held it, the retry starts an execution of its own or is
      refused for want of room. */
  lemma {:induction false} LateRetryStartsAnew(cfg: Config, r: Run, b: nat, m: nat, n: nat, key: Key)
    requires IsRun(cfg, r) && Starts(r, b, key) && Completes(r, b, m) && m < n < |r.steps|
    requires r.steps[n].Begin? && r.steps[n].key == key && r.steps[m].now + cfg.ttl <= r.steps[n].now
    ensures var c := r.steps[n].c; c in r.states[n + 1].callers && r.states[n + 1].callers[c] != Waiting(EntryOf(r, b))
    ensures key in r.states[n + 1].table ==> r.states[n + 1].table[key] != EntryOf(r, b)
    ensures key in r.states[n].table && r.states[n].table[key] == EntryOf(r, b) ==>
      r.states[n + 1].callers[r.steps[n].c] in {Executing(EntryOf(r, n)), Returned(Capacity)}
  {
    var s, a, id := r.states[n], r.steps[n], EntryOf(r, b);
    CompletionTime(cfg, r, b, m, n, key);
    LiveIff(cfg, r, n, id, a.now);
    RunInv(cfg, r, n);
    assert Follows(cfg, r, n);
  }

  /** The capacity error, on completion times: a call is refused exactly when its key has no
      entry that counts, and the limit is not positive or as many entries as it are running. */
  lemma {:induction false} RefusedIff(cfg: Config, r: Run, i: nat)
    requires IsRun(cfg, r) && i < |r.steps| && r.steps[i].Begin?
    ensures WellIndexed(r.states[i]) && r.steps[i].c in r.states[i + 1].callers
    ensures var s, a := r.states[i], r.steps[i]; var live := LiveKeys(cfg, s, a.now);
      r.states[i + 1].callers[a.c] == Returned(Capacity) <==>
        && a.key !in live
        && (|| cfg.maxEntries <= 0
            || (|live| == cfg.maxEntries && forall k :: k in live ==> s.entries[s.table[k]].Running?))
  {
    CapacityErrorIff(cfg, r, i);
    var s, a := r.states[i], r.steps[i];
    var pruned, live := Pruned(View(s), a.now), LiveKeys(cfg, s, a.now);
    PrunedIsLive(cfg, r, i, a.now);
    assert |pruned| == |pruned.Keys|;
    assert AllRunning(pruned) <==> forall k :: k in live ==> s.entries[s.table[k]].Running? by {
      forall k | k in live ensures k in pruned && pruned[k] == s.entries[s.table[k]] {
        assert k in pruned.Keys;
      }
    }
  }
}
