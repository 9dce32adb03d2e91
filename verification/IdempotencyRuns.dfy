/** The idempotency store under concurrency: `Do` as a step system.

    Each caller is one `Do` call. Its two lock regions are the atomic steps Begin and
    Complete; waiting on `ready` and giving up are the steps Join and Cancel. Callers
    interleave arbitrarily and the clock never goes back. Entries are numbered by
    creation, so a number stands for the pointer a caller keeps to its entry. */
module IdempotencyRuns {
  import opened IdempotencySpec

  type Caller = nat

  datatype Outcome = Executed(reply: Reply) | Joined(reply: Reply) | Conflict | Capacity | Cancelled

  datatype Phase = Executing(id: nat) | Waiting(id: nat) | Returned(outcome: Outcome)

  datatype State = State(table: map<Key, nat>, entries: seq<Entry>, callers: map<Caller, Phase>, clock: int)

  datatype Step =
    | Begin(c: Caller, key: Key, digest: Digest, now: int, evicted: seq<Key>)
    | Complete(c: Caller, reply: Reply, now: int)
    | Join(c: Caller)
    | Cancel(c: Caller)

  ghost predicate WellIndexed(s: State) {
    forall k :: k in s.table ==> s.table[k] < |s.entries|
  }

  /** The table with each number replaced by the entry it stands for. */
  ghost function View(s: State): Table
    requires WellIndexed(s)
  {
    map k | k in s.table :: s.entries[s.table[k]]
  }

  function Keep(table: map<Key, nat>, keys: set<Key>): map<Key, nat> {
    map k | k in table && k in keys :: table[k]
  }

  ghost predicate Init(s: State) {
    s.table == map[] && s.entries == [] && s.callers == map[]
  }

  function Without(t: Table, keys: seq<Key>): Table {
    map k | k in t && k !in keys :: t[k]
  }

  /** The first lock region of `Do`: prune, then conflict, join, refuse or start. */
  ghost predicate BeginStep(cfg: Config, s: State, a: Step, s': State)
    requires a.Begin? && WellIndexed(s)
  {
    var pruned := Pruned(View(s), a.now);
    var room := Without(pruned, a.evicted);
    && a.c !in s.callers && s.clock <= a.now && s'.clock == a.now
    && if a.key in pruned then
         && a.evicted == [] && s'.table == Keep(s.table, pruned.Keys) && s'.entries == s.entries
         && s'.callers == s.callers[a.c :=
              if pruned[a.key].digest != a.digest then Returned(Conflict) else Waiting(s.table[a.key])]
       else
         || (&& MakesRoom(pruned, cfg.maxEntries, a.evicted, room, false)
             && s'.table == Keep(s.table, room.Keys) && s'.entries == s.entries
             && s'.callers == s.callers[a.c := Returned(Capacity)])
         || (&& MakesRoom(pruned, cfg.maxEntries, a.evicted, room, true)
             && s'.table == Keep(s.table, room.Keys)[a.key := |s.entries|]
             && s'.entries == s.entries + [Running(a.digest)]
             && s'.callers == s.callers[a.c := Executing(|s.entries|)])
  }

  ghost predicate Next(cfg: Config, s: State, a: Step, s': State)
    requires WellIndexed(s)
  {
    match a
    case Begin(_, _, _, _, _) => BeginStep(cfg, s, a, s')
    case Complete(c, reply, now) =>
      && c in s.callers && s.callers[c].Executing? && s.callers[c].id < |s.entries|
      && s.clock <= now
      && var id := s.callers[c].id;
         s' == State(s.table,
                     s.entries[id := Completed(s.entries[id].digest, Cloned(reply), now, now + cfg.ttl)],
                     s.callers[c := Returned(Executed(reply))], now)
    case Join(c) =>
      && c in s.callers && s.callers[c].Waiting? && s.callers[c].id < |s.entries|
      && s.entries[s.callers[c].id].Completed?
      && s' == s.(callers := s.callers[c := Returned(Joined(Cloned(s.entries[s.callers[c].id].reply)))])
    case Cancel(c) =>
      && c in s.callers && s.callers[c].Waiting?
      && s' == s.(callers := s.callers[c := Returned(Cancelled)])
  }

  // ---- What every reachable state keeps -----------------------------------

  ghost predicate InTable(table: map<Key, nat>, id: nat) {
    exists k :: k in table && table[k] == id
  }

  ghost predicate TableInv(cfg: Config, table: map<Key, nat>, entries: seq<Entry>) {
    && (forall k :: k in table ==> table[k] < |entries|)
    // the map stays within its bound
    && |table| <= Bound(cfg)
    // different keys have different entries
    && (forall k, j :: k in table && j in table && table[k] == table[j] ==> k == j)
    // a running entry has not been removed
    && (forall id: nat :: id < |entries| && entries[id].Running? ==> InTable(table, id))
  }

  ghost predicate CallerInv(callers: map<Caller, Phase>, entries: seq<Entry>) {
    // a caller that executes owns a running entry, and no other caller owns it
    && (forall c :: c in callers && callers[c].Executing? ==>
          callers[c].id < |entries| && entries[callers[c].id].Running?)
    && (forall c, d :: c in callers && d in callers && callers[c].Executing? && callers[c] == callers[d] ==> c == d)
    && (forall c :: c in callers && callers[c].Waiting? ==> callers[c].id < |entries|)
  }

  ghost predicate Inv(cfg: Config, s: State) {
    && WellIndexed(s)
    && TableInv(cfg, s.table, s.entries)
    && CallerInv(s.callers, s.entries)
  }

  function Bound(cfg: Config): nat {
    if cfg.maxEntries > 0 then cfg.maxEntries else 0
  }

  /** `kept` is what a lock region may leave of the table: running entries stay. */
  ghost predicate Keeps(table: map<Key, nat>, entries: seq<Entry>, kept: set<Key>)
    requires forall k :: k in table ==> table[k] < |entries|
  {
    kept <= table.Keys && forall k :: k in table && entries[table[k]].Running? ==> k in kept
  }

  lemma {:induction false} PrunedKeeps(s: State, now: int)
    requires WellIndexed(s)
    ensures Keeps(s.table, s.entries, Pruned(View(s), now).Keys)
    ensures |Pruned(View(s), now)| <= |s.table|
  {
    assert View(s).Keys == s.table.Keys;
    PrunedSize(View(s), now);
  }

  lemma {:induction false} RoomKeeps(cfg: Config, s: State, now: int, evicted: seq<Key>, ok: bool)
    requires WellIndexed(s) && |s.table| <= Bound(cfg)
    requires var pruned := Pruned(View(s), now);
      MakesRoom(pruned, cfg.maxEntries, evicted, Without(pruned, evicted), ok)
    ensures var room := Without(Pruned(View(s), now), evicted);
      && Keeps(s.table, s.entries, room.Keys)
      && |room| <= |s.table| && (ok ==> |room| < cfg.maxEntries)
  {
    var pruned := Pruned(View(s), now);
    var room := Without(pruned, evicted);
    PrunedKeeps(s, now);
    MakesRoomEffect(pruned, cfg.maxEntries, evicted, room, ok);
    RoomIff(pruned, cfg.maxEntries, evicted, room, ok);
  }

  lemma {:induction false} TableKept(cfg: Config, table: map<Key, nat>, entries: seq<Entry>, kept: set<Key>)
    requires TableInv(cfg, table, entries) && Keeps(table, entries, kept)
    ensures TableInv(cfg, Keep(table, kept), entries) && |Keep(table, kept)| == |kept|
  {
    var t := Keep(table, kept);
    assert t.Keys == kept;
    SubsetSize(kept, table.Keys);
    forall id: nat | id < |entries| && entries[id].Running? ensures InTable(t, id) {
      var k :| k in table && table[k] == id;
      assert k in t && t[k] == id;
    }
  }

  lemma {:induction false} TableAdd(cfg: Config, table: map<Key, nat>, entries: seq<Entry>, key: Key, digest: Digest)
    requires TableInv(cfg, table, entries) && key !in table && |table| < cfg.maxEntries
    ensures TableInv(cfg, table[key := |entries|], entries + [Running(digest)])
  {
    var t, es := table[key := |entries|], entries + [Running(digest)];
    assert t.Keys == table.Keys + {key};
    forall id: nat | id < |es| && es[id].Running? ensures InTable(t, id) {
      if id == |entries| {
        assert key in t && t[key] == id;
      } else {
        var k :| k in table && table[k] == id;
        assert k in t && t[k] == id;
      }
    }
  }

  lemma {:induction false} BeginPreserves(cfg: Config, s: State, a: Step, s': State)
    requires Inv(cfg, s) && a.Begin? && BeginStep(cfg, s, a, s')
    ensures Inv(cfg, s')
  {
    var pruned := Pruned(View(s), a.now);
    var room := Without(pruned, a.evicted);
    if a.key in pruned {
      PrunedKeeps(s, a.now);
      TableKept(cfg, s.table, s.entries, pruned.Keys);
    } else {
      RoomKeeps(cfg, s, a.now, a.evicted, s'.callers[a.c].Executing?);
      TableKept(cfg, s.table, s.entries, room.Keys);
      if s'.callers[a.c].Executing? {
        TableAdd(cfg, Keep(s.table, room.Keys), s.entries, a.key, a.digest);
      }
    }
    CallersPreserved(s.callers, s.entries, a.c, s'.callers[a.c], s'.entries);
  }

  lemma {:induction false} CallersPreserved(
      callers: map<Caller, Phase>, entries: seq<Entry>, c: Caller, p: Phase, entries': seq<Entry>)
    requires CallerInv(callers, entries) && c !in callers
    requires entries' == entries || (exists d :: entries' == entries + [Running(d)])
    requires p.Executing? ==> entries' != entries && p.id == |entries|
    requires p.Waiting? ==> p.id < |entries'|
    ensures CallerInv(callers[c := p], entries')
  {
  }

  lemma {:induction false} NextPreserves(cfg: Config, s: State, a: Step, s': State)
    requires Inv(cfg, s) && Next(cfg, s, a, s')
    ensures Inv(cfg, s')
  {
    match a
    case Begin(_, _, _, _, _) =>
      BeginPreserves(cfg, s, a, s');
    case Complete(_, _, _) =>
      forall id: nat | id < |s'.entries| && s'.entries[id].Running? ensures InTable(s'.table, id) {
        assert s.entries[id].Running?;
      }
    case Join(_) =>
    case Cancel(_) =>
  }

  // ---- Runs ---------------------------------------------------------------

  datatype Run = Run(states: seq<State>, steps: seq<Step>)

  ghost predicate Follows(cfg: Config, r: Run, i: nat)
    requires i < |r.steps| && i + 1 < |r.states|
  {
    WellIndexed(r.states[i]) && Next(cfg, r.states[i], r.steps[i], r.states[i + 1])
  }

  ghost predicate IsRun(cfg: Config, r: Run) {
    && |r.states| == |r.steps| + 1
    && Init(r.states[0])
    && forall i: nat :: i < |r.steps| ==> Follows(cfg, r, i)
  }

  /** Every state of every run satisfies the invariant: in particular the map never
      exceeds its limit and no running entry has been dropped from it. */
  lemma {:induction false} RunInv(cfg: Config, r: Run, n: nat)
    requires IsRun(cfg, r) && n < |r.states|
    ensures Inv(cfg, r.states[n])
    decreases n
  {
    if n > 0 {
      RunInv(cfg, r, n - 1);
      assert Follows(cfg, r, n - 1);
      NextPreserves(cfg, r.states[n - 1], r.steps[n - 1], r.states[n]);
    }
  }

  /** The capacity error over every run: a call is refused exactly when, expired entries
      aside, its key has no entry and the limit is not positive or the table is full of
      running entries. */
  lemma {:induction false} CapacityErrorIff(cfg: Config, r: Run, i: nat)
    requires IsRun(cfg, r) && i < |r.steps| && r.steps[i].Begin?
    ensures WellIndexed(r.states[i]) && r.steps[i].c in r.states[i + 1].callers
    ensures var pruned := Pruned(View(r.states[i]), r.steps[i].now);
      r.states[i + 1].callers[r.steps[i].c] == Returned(Capacity) <==>
        && r.steps[i].key !in pruned
        && (cfg.maxEntries <= 0 || (|pruned| == cfg.maxEntries && AllRunning(pruned)))
  {
    RunInv(cfg, r, i);
    assert Follows(cfg, r, i);
    var s, a, s' := r.states[i], r.steps[i], r.states[i + 1];
    var pruned := Pruned(View(s), a.now);
    PrunedKeeps(s, a.now);
    if a.key !in pruned {
      CapacityIff(pruned, cfg.maxEntries, a.evicted, Without(pruned, a.evicted), s'.callers[a.c].Executing?);
    }
  }

  /** Step `i` starts an execution for `key`. */
  ghost predicate Starts(r: Run, i: nat, key: Key) {
    && i < |r.steps| && i + 1 < |r.states|
    && r.steps[i].Begin? && r.steps[i].key == key
    && r.states[i + 1].entries != r.states[i].entries
  }

  /** Between steps `i` and `t` the caller of step `i` completed its execution. */
  ghost predicate CompletedBetween(r: Run, i: nat, t: nat)
    requires i < t <= |r.steps|
  {
    exists m :: i < m < t && r.steps[m].Complete? && r.steps[m].c == r.steps[i].c
  }

  /** Why a lock region may drop a completed entry: its time is up, or the table is
      full and it is the oldest. */
  ghost predicate MayDrop(cfg: Config, s: State, a: Step, key: Key)
  {
    && WellIndexed(s)
    && a.Begin? && key in s.table && View(s)[key].Completed?
    && (|| Expired(View(s)[key], a.now)
        || (&& a.evicted == [key] && |Pruned(View(s), a.now)| == cfg.maxEntries
            && Oldest(Pruned(View(s), a.now), key)))
  }

  lemma {:induction false} EvictedIsOldest(t: Table, maxEntries: int, evicted: seq<Key>, ok: bool, key: Key)
    requires MakesRoom(t, maxEntries, evicted, Without(t, evicted), ok)
    requires maxEntries > 0 ==> |t| <= maxEntries
    requires key in evicted
    ensures evicted == [key] && |t| == maxEntries && Oldest(t, key) && t[key].Completed?
  {
    CapacityIff(t, maxEntries, evicted, Without(t, evicted), ok);
  }

  lemma {:induction false} StaysOrDropped(cfg: Config, s: State, a: Step, s': State, key: Key)
    requires Inv(cfg, s) && Next(cfg, s, a, s') && key in s.table
    ensures (key in s'.table && s'.table[key] == s.table[key]) || MayDrop(cfg, s, a, key)
  {
    if a.Begin? {
      BeginStaysOrDropped(cfg, s, a, s', key);
    }
  }

  lemma {:induction false} BeginStaysOrDropped(cfg: Config, s: State, a: Step, s': State, key: Key)
    requires Inv(cfg, s) && a.Begin? && BeginStep(cfg, s, a, s') && key in s.table
    ensures (key in s'.table && s'.table[key] == s.table[key]) || MayDrop(cfg, s, a, key)
  {
    if key in Pruned(View(s), a.now) && a.key !in Pruned(View(s), a.now) && key in a.evicted {
      EvictedMayDrop(cfg, s, a, s', key);
    }
  }

  lemma {:induction false} EvictedMayDrop(cfg: Config, s: State, a: Step, s': State, key: Key)
    requires Inv(cfg, s) && a.Begin? && BeginStep(cfg, s, a, s')
    requires key in Pruned(View(s), a.now) && a.key !in Pruned(View(s), a.now) && key in a.evicted
    ensures MayDrop(cfg, s, a, key)
  {
    PrunedKeeps(s, a.now);
    EvictedIsOldest(Pruned(View(s), a.now), cfg.maxEntries, a.evicted, s'.callers[a.c].Executing?, key);
  }

  /** Between two steps of one run, what became of the execution started at `i`. */
  ghost predicate Followed(cfg: Config, r: Run, i: nat, t: nat)
    requires IsRun(cfg, r) && i < t <= |r.steps| && r.steps[i].Begin?
  {
    var id, key, c, s := |r.states[i].entries|, r.steps[i].key, r.steps[i].c, r.states[t];
    || (&& key in s.table && s.table[key] == id && id < |s.entries|
        && (if s.entries[id].Running? then c in s.callers && s.callers[c] == Executing(id)
            else CompletedBetween(r, i, t)))
    || (exists e :: i < e < t && CompletedBetween(r, i, e) && DroppedAt(cfg, r, e, key, id))
  }

  /** Step `e` removed entry `id` from the table, and was allowed to. */
  ghost predicate DroppedAt(cfg: Config, r: Run, e: nat, key: Key, id: nat)
    requires e < |r.steps| && e + 1 < |r.states|
  {
    && MayDrop(cfg, r.states[e], r.steps[e], key) && r.states[e].table[key] == id
    && (key in r.states[e + 1].table ==> r.states[e + 1].table[key] != id)
  }

  lemma {:induction false} EntryEvolves(cfg: Config, s: State, a: Step, s': State, id: nat, c: Caller)
    requires Inv(cfg, s) && Next(cfg, s, a, s') && id < |s.entries|
    requires s.entries[id].Running? ==> c in s.callers && s.callers[c] == Executing(id)
    ensures id < |s'.entries|
    ensures s.entries[id].Completed? ==> s'.entries[id] == s.entries[id]
    ensures s.entries[id].Running? && !(a.Complete? && a.c == c) ==>
      s'.entries[id] == s.entries[id] && c in s'.callers && s'.callers[c] == Executing(id)
    ensures a.Complete? && a.c == c && s.entries[id].Running? ==> s'.entries[id].Completed?
  {
  }

  lemma {:induction false} FollowedStep(cfg: Config, r: Run, i: nat, t: nat)
    requires IsRun(cfg, r) && i < t < |r.steps| && r.steps[i].Begin? && Followed(cfg, r, i, t)
    ensures Followed(cfg, r, i, t + 1)
  {
    var id, key, c := |r.states[i].entries|, r.steps[i].key, r.steps[i].c;
    var s, a, s' := r.states[t], r.steps[t], r.states[t + 1];
    RunInv(cfg, r, t);
    assert Follows(cfg, r, t);
    if && key in s.table && s.table[key] == id && id < |s.entries|
       && (s.entries[id].Running? ==> c in s.callers && s.callers[c] == Executing(id))
       && (s.entries[id].Completed? ==> CompletedBetween(r, i, t))
    {
      StaysOrDropped(cfg, s, a, s', key);
      EntryEvolves(cfg, s, a, s', id, c);
      if key in s'.table && s'.table[key] == id {
        if s.entries[id].Running? && s'.entries[id].Completed? {
          assert i < t < t + 1 && r.steps[t].c == r.steps[i].c;
        }
      } else {
        assert i < t < t + 1 && DroppedAt(cfg, r, t, key, id);
      }
    } else {
      var e :| i < e < t && CompletedBetween(r, i, e) && DroppedAt(cfg, r, e, key, id);
      assert i < e < t + 1;
    }
  }

  lemma {:induction false} StartEffect(cfg: Config, r: Run, i: nat, key: Key)
    requires IsRun(cfg, r) && Starts(r, i, key)
    ensures Followed(cfg, r, i, i + 1)
  {
    var s, a, s' := r.states[i], r.steps[i], r.states[i + 1];
    assert Follows(cfg, r, i);
    assert s'.table[key] == |s.entries| && s'.callers[a.c] == Executing(|s.entries|);
    assert s'.entries[|s.entries|] == Running(a.digest);
  }

  lemma {:induction false} FollowedFrom(cfg: Config, r: Run, i: nat, t: nat, key: Key)
    requires IsRun(cfg, r) && Starts(r, i, key) && i < t <= |r.steps|
    ensures Followed(cfg, r, i, t)
    decreases t
  {
    if t == i + 1 {
      StartEffect(cfg, r, i, key);
    } else {
      FollowedFrom(cfg, r, i, t - 1, key);
      FollowedStep(cfg, r, i, t - 1);
    }
  }

  /** At most once: a second execution for the same cache key starts only after the first
      completed and its entry was then removed, expired or as the oldest of a full table. */
  lemma {:induction false} AtMostOnce(cfg: Config, r: Run, i: nat, j: nat, key: Key) returns (m: nat, e: nat)
    requires IsRun(cfg, r) && Starts(r, i, key) && Starts(r, j, key) && i < j
    ensures i < m < e <= j
    ensures r.steps[m].Complete? && r.steps[m].c == r.steps[i].c
    ensures DroppedAt(cfg, r, e, key, |r.states[i].entries|)
  {
    FollowedFrom(cfg, r, i, j, key);
    RunInv(cfg, r, j);
    assert Follows(cfg, r, j);
    var id, s := |r.states[i].entries|, r.states[j];
    if key in s.table && s.table[key] == id && (s.entries[id].Completed? ==> CompletedBetween(r, i, j)) {
      assert key !in Pruned(View(s), r.steps[j].now);
      m :| i < m < j && r.steps[m].Complete? && r.steps[m].c == r.steps[i].c;
      e := j;
    } else {
      e :| i < e < j && CompletedBetween(r, i, e) && DroppedAt(cfg, r, e, key, id);
      m :| i < m < e && r.steps[m].Complete? && r.steps[m].c == r.steps[i].c;
    }
  }

  // ---- Where a joiner's reply comes from ----------------------------------

  ghost predicate History(r: Run, n: nat, c: Caller, b: nat, id: nat, entry: Entry, digest: Digest)
    requires n < |r.states| && |r.states| == |r.steps| + 1
  {
    && entry.digest == digest
    && if entry.Running? then c in r.states[n].callers && r.states[n].callers[c] == Executing(id)
       else exists m :: b < m < n && CompletesWith(r, m, c, entry)
  }

  /** At step `m` caller `c` completed with the reply whose clone `entry` keeps. */
  ghost predicate CompletesWith(r: Run, m: nat, c: Caller, entry: Entry)
    requires m < |r.steps| && m + 1 < |r.states| && entry.Completed?
  {
    && r.steps[m].Complete? && r.steps[m].c == c && r.steps[m].now == entry.completedAt
    && entry.reply == Cloned(r.steps[m].reply)
    && c in r.states[m + 1].callers && r.states[m + 1].callers[c] == Returned(Executed(r.steps[m].reply))
  }

  /** Step `b` created entry `id`, and this is all that has happened to it by state `n`. */
  ghost predicate Origin(r: Run, n: nat, id: nat, b: nat)
    requires n < |r.states| && |r.states| == |r.steps| + 1
  {
    && b < n && r.steps[b].Begin? && Starts(r, b, r.steps[b].key) && |r.states[b].entries| == id
    && id < |r.states[n].entries|
    && History(r, n, r.steps[b].c, b, id, r.states[n].entries[id], r.steps[b].digest)
    && (forall k :: k in r.states[n].table && r.states[n].table[k] == id ==> k == r.steps[b].key)
  }

  lemma {:induction false} OriginStep(cfg: Config, r: Run, n: nat, id: nat, b: nat)
    requires IsRun(cfg, r) && n < |r.steps| && Origin(r, n, id, b)
    ensures Origin(r, n + 1, id, b)
  {
    var s, a, s' := r.states[n], r.steps[n], r.states[n + 1];
    RunInv(cfg, r, n);
    assert Follows(cfg, r, n);
    EntryEvolves(cfg, s, a, s', id, r.steps[b].c);
    TableShrinks(cfg, s, a, s', id);
    if s.entries[id].Completed? {
      var m :| b < m < n && CompletesWith(r, m, r.steps[b].c, s.entries[id]);
      assert b < m < n + 1;
    } else if s'.entries[id].Completed? {
      assert b < n < n + 1 && CompletesWith(r, n, r.steps[b].c, s'.entries[id]);
    }
  }

  lemma {:induction false} TableShrinks(cfg: Config, s: State, a: Step, s': State, id: nat)
    requires WellIndexed(s) && Next(cfg, s, a, s') && id < |s.entries|
    ensures forall k :: k in s'.table && s'.table[k] == id ==> k in s.table && s.table[k] == id
  {
  }

  /** Every entry of every reachable state has an origin. */
  lemma {:induction false} OriginOf(cfg: Config, r: Run, n: nat, id: nat) returns (b: nat)
    requires IsRun(cfg, r) && n < |r.states| && id < |r.states[n].entries|
    ensures Origin(r, n, id, b)
    decreases n
  {
    var s, a, s' := r.states[n - 1], r.steps[n - 1], r.states[n];
    assert Follows(cfg, r, n - 1);
    if id < |s.entries| {
      b := OriginOf(cfg, r, n - 1, id);
      OriginStep(cfg, r, n - 1, id, b);
    } else {
      b := n - 1;
      NewOrigin(cfg, r, n - 1);
    }
  }

  lemma {:induction false} NewOrigin(cfg: Config, r: Run, b: nat)
    requires IsRun(cfg, r) && b < |r.steps| && |r.states[b].entries| < |r.states[b + 1].entries|
    ensures Origin(r, b + 1, |r.states[b].entries|, b)
    ensures |r.states[b + 1].entries| == |r.states[b].entries| + 1
  {
    var s, a, s' := r.states[b], r.steps[b], r.states[b + 1];
    assert Follows(cfg, r, b);
    assert s'.entries[|s.entries|] == Running(a.digest);
  }

  /** A waiting caller asked for the entry it waits on, by its key and with its digest. */
  ghost predicate AskedFor(r: Run, n: nat, c: Caller, id: nat, i: nat)
    requires n < |r.states| && |r.states| == |r.steps| + 1
  {
    && i < n && r.steps[i].Begin? && r.steps[i].c == c
    && r.steps[i].key in r.states[i].table && r.states[i].table[r.steps[i].key] == id
    && id < |r.states[i].entries| && r.states[i].entries[id].digest == r.steps[i].digest
  }

  lemma {:induction false} WaitingAsked(cfg: Config, r: Run, n: nat, c: Caller) returns (i: nat)
    requires IsRun(cfg, r) && n < |r.states| && c in r.states[n].callers && r.states[n].callers[c].Waiting?
    ensures AskedFor(r, n, c, r.states[n].callers[c].id, i)
    decreases n
  {
    var s, a := r.states[n - 1], r.steps[n - 1];
    assert Follows(cfg, r, n - 1);
    if c in s.callers {
      assert s.callers[c] == r.states[n].callers[c];
      i := WaitingAsked(cfg, r, n - 1, c);
    } else {
      i := n - 1;
    }
  }

  /** Every joiner gets a clone of the reply of the execution that created its entry: that
      execution was for the same key and digest, and completed before the join. The clone is
      what the executing caller got exactly when that was not a nil envelope. */
  lemma {:induction false} JoinerGetsTheReply(cfg: Config, r: Run, j: nat) returns (i: nat, b: nat, m: nat)
    requires IsRun(cfg, r) && j < |r.steps| && r.steps[j].Join?
    ensures i < j && r.steps[i].Begin? && r.steps[i].c == r.steps[j].c
    ensures b < i && Starts(r, b, r.steps[i].key) && r.steps[b].digest == r.steps[i].digest
    ensures b < m < j && r.steps[m].Complete? && r.steps[m].c == r.steps[b].c
    ensures r.steps[j].c in r.states[j + 1].callers
    ensures r.states[j + 1].callers[r.steps[j].c] == Returned(Joined(Cloned(r.steps[m].reply)))
    ensures Cloned(r.steps[m].reply).err == r.steps[m].reply.err
    ensures r.steps[m].reply.envelope == Nil ==> Cloned(r.steps[m].reply).envelope == Fields(map[])
    ensures r.steps[b].c in r.states[m + 1].callers
    ensures r.states[m + 1].callers[r.steps[b].c] == Returned(Executed(r.steps[m].reply))
    ensures Cloned(r.steps[m].reply) == r.steps[m].reply <==> r.steps[m].reply.envelope != Nil
  {
    var c, s := r.steps[j].c, r.states[j];
    assert Follows(cfg, r, j);
    var id := s.callers[c].id;
    i := WaitingAsked(cfg, r, j, c);
    b := OriginOf(cfg, r, i, id);
    var b' := OriginOf(cfg, r, j, id);
    SameOrigin(cfg, r, b, b', id);
    m :| b < m < j && CompletesWith(r, m, r.steps[b].c, s.entries[id]);
  }

  lemma {:induction false} EntriesGrow(cfg: Config, r: Run, i: nat, j: nat)
    requires IsRun(cfg, r) && i <= j < |r.states|
    ensures |r.states[i].entries| <= |r.states[j].entries|
    decreases j
  {
    if i < j {
      EntriesGrow(cfg, r, i, j - 1);
      assert Follows(cfg, r, j - 1);
    }
  }

  lemma {:induction false} SameOrigin(cfg: Config, r: Run, b: nat, b': nat, id: nat)
    requires IsRun(cfg, r) && b < |r.steps| && b' < |r.steps|
    requires |r.states[b].entries| == id == |r.states[b'].entries|
    requires r.steps[b].Begin? && Starts(r, b, r.steps[b].key)
    requires r.steps[b'].Begin? && Starts(r, b', r.steps[b'].key)
    ensures b == b'
  {
    assert Follows(cfg, r, b) && Follows(cfg, r, b');
    if b < b' {
      EntriesGrow(cfg, r, b + 1, b');
    } else if b' < b {
      EntriesGrow(cfg, r, b' + 1, b);
    }
  }
}
