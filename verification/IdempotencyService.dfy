/** The store in memory carries out the step system: each lock region of `Do`, run on the
    heap by any caller, is one step of IdempotencyRuns.

    The abstraction numbers entry objects by creation. */
module IdempotencyService {
  import Lifetime = IdempotencyLifetime
  import opened IdempotencySpec
  import opened IdempotencyStore
  import Runs = IdempotencyRuns

  // ---- Numbering entry objects --------------------------------------------

  ghost predicate Distinct(made: seq<StoreEntry>) {
    forall i, j :: 0 <= i < |made| && 0 <= j < |made| && made[i] == made[j] ==> i == j
  }

  /** Each key's object is the one its number stands for. */
  ghost predicate Numbers(made: seq<StoreEntry>, objects: map<Key, StoreEntry>, table: map<Key, nat>) {
    && objects.Keys == table.Keys
    && (forall k :: k in objects ==> table[k] < |made| && objects[k] == made[table[k]])
  }

  /** Each object holds the entry of its number. */
  ghost predicate Shows(made: seq<StoreEntry>, entries: seq<Entry>)
    reads made
  {
    && |made| == |entries|
    && (forall i :: 0 <= i < |made| ==> made[i].Valid() && made[i].Value() == entries[i])
  }

  lemma {:induction false} KeepNumbers(
      made: seq<StoreEntry>, objects: map<Key, StoreEntry>, table: map<Key, nat>, kept: map<Key, StoreEntry>)
    requires Numbers(made, objects, table) && Within(kept, objects)
    ensures Numbers(made, kept, Runs.Keep(table, kept.Keys))
  {
  }

  lemma {:induction false} AddNumber(
      made: seq<StoreEntry>, objects: map<Key, StoreEntry>, table: map<Key, nat>, key: Key, entry: StoreEntry)
    requires key in objects && objects[key] == entry && Numbers(made, objects - {key}, table)
    ensures Numbers(made + [entry], objects, table[key := |made|])
  {
    assert objects.Keys == (objects - {key}).Keys + {key};
  }

  lemma {:induction false} RoomIsWithout(t: Table, maxEntries: int, evicted: seq<Key>, t': Table, ok: bool)
    requires MakesRoom(t, maxEntries, evicted, t', ok)
    ensures t' == Runs.Without(t, evicted)
  {
    MakesRoomEffect(t, maxEntries, evicted, t', ok);
  }

  /** What a caller is told, and the phase the step system has it in. */
  ghost predicate Tells(made: seq<StoreEntry>, verdict: Verdict, phase: Runs.Phase) {
    match verdict
    case Conflict => phase == Runs.Returned(Runs.Conflict)
    case Full => phase == Runs.Returned(Runs.Capacity)
    case Wait(e) => phase.Waiting? && phase.id < |made| && made[phase.id] == e
    case Start(e) => phase.Executing? && phase.id < |made| && made[phase.id] == e
  }

  // ---- The three outcomes of the first lock region ------------------------

  /** A step from `s` to `s'`, after which the table holds the given objects. */
  ghost predicate Steps(
      cfg: Config, s: Runs.State, a: Runs.Step, s': Runs.State, made: seq<StoreEntry>, objects: map<Key, StoreEntry>)
  {
    && Runs.WellIndexed(s) && Runs.Next(cfg, s, a, s') && Numbers(made, objects, s'.table)
  }

  lemma {:induction false} FoundStep(cfg: Config, s: Runs.State, a: Runs.Step, p: Runs.Phase,
      made: seq<StoreEntry>, objects: map<Key, StoreEntry>, kept: map<Key, StoreEntry>)
    requires Runs.WellIndexed(s) && a.Begin? && a.c !in s.callers && s.clock <= a.now
    requires Numbers(made, objects, s.table) && Within(kept, objects)
    requires var pruned := Pruned(Runs.View(s), a.now);
      && kept.Keys == pruned.Keys && a.key in pruned && a.evicted == []
      && p == if pruned[a.key].digest != a.digest then Runs.Returned(Runs.Conflict) else Runs.Waiting(s.table[a.key])
    ensures var table := Runs.Keep(s.table, kept.Keys);
      Steps(cfg, s, a, Runs.State(table, s.entries, s.callers[a.c := p], a.now), made, kept)
  {
    KeepNumbers(made, objects, s.table, kept);
    var s' := Runs.State(Runs.Keep(s.table, kept.Keys), s.entries, s.callers[a.c := p], a.now);
    assert Runs.BeginStep(cfg, s, a, s');
  }

  lemma {:induction false} RefusedStep(cfg: Config, s: Runs.State, a: Runs.Step,
      made: seq<StoreEntry>, objects: map<Key, StoreEntry>, kept: map<Key, StoreEntry>, room: Table)
    requires Runs.WellIndexed(s) && a.Begin? && a.c !in s.callers && s.clock <= a.now
    requires Numbers(made, objects, s.table) && Within(kept, objects)
    requires var pruned := Pruned(Runs.View(s), a.now);
      a.key !in pruned && MakesRoom(pruned, cfg.maxEntries, a.evicted, room, false) && kept.Keys == room.Keys
    ensures var told := s.callers[a.c := Runs.Returned(Runs.Capacity)];
      Steps(cfg, s, a, Runs.State(Runs.Keep(s.table, kept.Keys), s.entries, told, a.now), made, kept)
  {
    KeepNumbers(made, objects, s.table, kept);
    RoomIsWithout(Pruned(Runs.View(s), a.now), cfg.maxEntries, a.evicted, room, false);
    var told := s.callers[a.c := Runs.Returned(Runs.Capacity)];
    var s' := Runs.State(Runs.Keep(s.table, kept.Keys), s.entries, told, a.now);
    assert Runs.BeginStep(cfg, s, a, s');
  }

  lemma {:induction false} StartedStep(cfg: Config, s: Runs.State, a: Runs.Step,
      made: seq<StoreEntry>, objects: map<Key, StoreEntry>, kept: map<Key, StoreEntry>, room: Table, entry: StoreEntry)
    requires Runs.WellIndexed(s) && a.Begin? && a.c !in s.callers && s.clock <= a.now
    requires |made| == |s.entries| && Numbers(made, objects, s.table)
    requires a.key in kept && kept[a.key] == entry && Within(kept - {a.key}, objects)
    requires var pruned := Pruned(Runs.View(s), a.now);
      a.key !in pruned && MakesRoom(pruned, cfg.maxEntries, a.evicted, room, true) && (kept - {a.key}).Keys == room.Keys
    ensures var id := |s.entries|; var table := Runs.Keep(s.table, room.Keys)[a.key := id];
      Steps(cfg, s, a,
        Runs.State(table, s.entries + [Running(a.digest)], s.callers[a.c := Runs.Executing(id)], a.now),
        made + [entry], kept)
  {
    KeepNumbers(made, objects, s.table, kept - {a.key});
    AddNumber(made, kept, Runs.Keep(s.table, room.Keys), a.key, entry);
    RoomIsWithout(Pruned(Runs.View(s), a.now), cfg.maxEntries, a.evicted, room, true);
    var id := |s.entries|;
    var table := Runs.Keep(s.table, room.Keys)[a.key := id];
    var s' := Runs.State(table, s.entries + [Running(a.digest)], s.callers[a.c := Runs.Executing(id)], a.now);
    assert Runs.BeginStep(cfg, s, a, s');
  }

  /** What the store's first lock region answers, as a relation on values. */
  ghost predicate Outcome(
      cfg: Config, pruned: Table, a: Runs.Step, verdict: Verdict,
      objects: map<Key, StoreEntry>, kept: map<Key, StoreEntry>, view: Table)
    requires a.Begin?
  {
    && kept.Keys == view.Keys
    && if a.key in pruned then
         && a.evicted == [] && view == pruned && Within(kept, objects) && a.key in objects
         && verdict == if pruned[a.key].digest != a.digest then Conflict else Wait(objects[a.key])
       else if verdict == Full then
         MakesRoom(pruned, cfg.maxEntries, a.evicted, view, false) && Within(kept, objects)
       else
         && verdict.Start? && a.key in kept && kept[a.key] == verdict.entry
         && MakesRoom(pruned, cfg.maxEntries, a.evicted, view - {a.key}, true)
         && Within(kept - {a.key}, objects)
  }

  /** The objects and entries there are after the verdict. */
  ghost predicate Extends(made: seq<StoreEntry>, made': seq<StoreEntry>,
      entries: seq<Entry>, entries': seq<Entry>, verdict: Verdict, digest: Digest)
  {
    if verdict.Start? then made' == made + [verdict.entry] && entries' == entries + [Running(digest)]
    else made' == made && entries' == entries
  }

  lemma {:induction false} Advance(cfg: Config, s: Runs.State, a: Runs.Step, verdict: Verdict,
      made: seq<StoreEntry>, objects: map<Key, StoreEntry>, kept: map<Key, StoreEntry>, view: Table)
      returns (s': Runs.State, made': seq<StoreEntry>)
    requires Runs.WellIndexed(s) && a.Begin? && a.c !in s.callers && s.clock <= a.now
    requires |made| == |s.entries| && Numbers(made, objects, s.table)
    requires Outcome(cfg, Pruned(Runs.View(s), a.now), a, verdict, objects, kept, view)
    ensures Steps(cfg, s, a, s', made', kept) && Extends(made, made', s.entries, s'.entries, verdict, a.digest)
    ensures a.c in s'.callers && Tells(made', verdict, s'.callers[a.c])
  {
    var pruned := Pruned(Runs.View(s), a.now);
    made' := made;
    if a.key in pruned {
      var p := if pruned[a.key].digest != a.digest then Runs.Returned(Runs.Conflict) else Runs.Waiting(s.table[a.key]);
      FoundStep(cfg, s, a, p, made, objects, kept);
      s' := Runs.State(Runs.Keep(s.table, kept.Keys), s.entries, s.callers[a.c := p], a.now);
    } else if verdict == Full {
      RefusedStep(cfg, s, a, made, objects, kept, view);
      var told := s.callers[a.c := Runs.Returned(Runs.Capacity)];
      s' := Runs.State(Runs.Keep(s.table, kept.Keys), s.entries, told, a.now);
    } else {
      var room := view - {a.key};
      assert (kept - {a.key}).Keys == room.Keys;
      StartedStep(cfg, s, a, made, objects, kept, room, verdict.entry);
      var id := |s.entries|;
      var table := Runs.Keep(s.table, room.Keys)[a.key := id];
      s' := Runs.State(table, s.entries + [Running(a.digest)], s.callers[a.c := Runs.Executing(id)], a.now);
      made' := made + [verdict.entry];
    }
  }

  // ---- The shared store ---------------------------------------------------

  class SharedStore {
    const store: Store
    ghost var made: seq<StoreEntry>
    ghost var state: Runs.State
    ghost var history: Runs.Run  // every call so far, as steps

    ghost function Cfg(): Config { Config(store.ttl, store.maxEntries) }

    ghost predicate Valid()
      reads this, store, store.entries.Values, made
    {
      store.Valid() && Matches(store.entries) && Recorded(state)
    }

    /** The calls so far make up a run of the step system that ends in `s`. */
    ghost predicate Recorded(s: Runs.State)
      reads this
    {
      Runs.IsRun(Cfg(), history) && history.states[|history.steps|] == s
    }

    /** The numbered objects show the abstract entries, and the table holds the objects. */
    ghost predicate Matches(objects: map<Key, StoreEntry>)
      reads this, made
    {
      Distinct(made) && Shows(made, state.entries) && Numbers(made, objects, state.table)
    }

    constructor (ttl: int, maxEntries: int)
      ensures Valid() && Runs.Init(state) && Cfg() == Config(ttl, maxEntries)
    {
      store := new Store(ttl, maxEntries);
      made, state := [], Runs.State(map[], [], map[], 0);
      history := Runs.Run([Runs.State(map[], [], map[], 0)], []);
    }

    /** Add the step just taken to the history. */
    ghost method Record(s: Runs.State, a: Runs.Step)
      requires Recorded(s) && Runs.WellIndexed(s) && Runs.Next(Cfg(), s, a, state)
      modifies `history
      ensures Recorded(state) && history.steps == old(history.steps) + [a]
    {
      RunExtends(Cfg(), history, a, state);
      history := Runs.Run(history.states + [state], history.steps + [a]);
    }

    lemma {:induction false} SameView()
      requires Valid()
      ensures Runs.WellIndexed(state) && store.View() == Runs.View(state)
    {
    }

    /** The numbering before the first lock region's step is accounted for. */
    ghost predicate Behind(
        a: Runs.Step, verdict: Verdict, objects: map<Key, StoreEntry>, kept: map<Key, StoreEntry>, view: Table)
      requires a.Begin?
      reads this, made, if verdict.Start? then {verdict.entry} else {}
    {
      && Runs.WellIndexed(state) && Shows(made, state.entries) && Distinct(made)
      && Numbers(made, objects, state.table)
      && Outcome(Cfg(), Pruned(Runs.View(state), a.now), a, verdict, objects, kept, view)
      && (verdict.Start? ==> verdict.entry !in made && verdict.entry.Valid())
      && (verdict.Start? ==> verdict.entry.Value() == Running(a.digest))
    }

    /** The store's own contract, with the abstract table in place of its view. */
    method BeginOnHeap(c: Runs.Caller, key: Key, digest: Digest, now: int)
        returns (verdict: Verdict, ghost evicted: seq<Key>)
      requires Valid()
      modifies store
      ensures store.Valid()
      ensures Behind(Runs.Begin(c, key, digest, now, evicted), verdict, old(store.entries), store.entries, store.View())
    {
      SameView();
      verdict, evicted := store.Begin(key, digest, now);
      assert store.View().Keys == store.entries.Keys;
    }

    lemma {:induction false} Account(
        a: Runs.Step, verdict: Verdict, objects: map<Key, StoreEntry>, kept: map<Key, StoreEntry>, view: Table)
        returns (next: Runs.State, all: seq<StoreEntry>)
      requires a.Begin? && a.c !in state.callers && state.clock <= a.now
      requires Behind(a, verdict, objects, kept, view)
      ensures Shows(all, next.entries) && Distinct(all) && Accounted(state, a, verdict, kept, next, all)
    {
      next, all := Advance(Cfg(), state, a, verdict, made, objects, kept, view);
      ShowsMore(made, all, state.entries, next.entries, verdict, a.digest);
    }

    /** `a` leads from `s` to `next`, with the entry objects `all`, and the caller is told so. */
    ghost predicate Accounted(s: Runs.State, a: Runs.Step, verdict: Verdict, kept: map<Key, StoreEntry>,
        next: Runs.State, all: seq<StoreEntry>)
      requires a.Begin?
    {
      Steps(Cfg(), s, a, next, all, kept) && a.c in next.callers && Tells(all, verdict, next.callers[a.c])
    }

    /** Account for the step. */
    ghost method Advanced(
        a: Runs.Step, verdict: Verdict, objects: map<Key, StoreEntry>, kept: map<Key, StoreEntry>, view: Table)
      requires a.Begin? && a.c !in state.callers && state.clock <= a.now
      requires Behind(a, verdict, objects, kept, view)
      modifies `made, `state
      ensures Matches(kept) && Accounted(old(state), a, verdict, kept, state, made)
    {
      state, made := Account(a, verdict, objects, kept, view);
    }

    /** Any caller's first lock region is a Begin step, and tells the caller what the step
        does. */
    method Begin(c: Runs.Caller, key: Key, digest: Digest, now: int)
        returns (verdict: Verdict, ghost evicted: seq<Key>)
      requires Valid() && c !in state.callers && state.clock <= now
      modifies this, store
      ensures Valid()
      ensures Accounted(old(state), Runs.Begin(c, key, digest, now, evicted), verdict, store.entries, state, made)
      ensures history.steps == old(history.steps) + [Runs.Begin(c, key, digest, now, evicted)]
    {
      ghost var s, objects := state, store.entries;
      verdict, evicted := BeginOnHeap(c, key, digest, now);
      Advanced(Runs.Begin(c, key, digest, now, evicted), verdict, objects, store.entries, store.View());
      Record(s, Runs.Begin(c, key, digest, now, evicted));
    }

    method CompleteOnHeap(entry: StoreEntry, ghost id: nat, reply: Reply, now: int)
      requires store.Valid() && Distinct(made) && Shows(made, state.entries)
      requires id < |made| && made[id] == entry && entry.running
      modifies entry
      ensures store.Valid() && store.entries == old(store.entries)
      ensures var done := Completed(state.entries[id].digest, Cloned(reply), now, now + store.ttl);
        Shows(made, state.entries[id := done])
    {
      assert entry.Value() == state.entries[id];
      store.Complete(entry, reply, now);
      ShowsDone(made, state.entries, id, entry.Value());
    }

    /** The second lock region of a caller that executes is its Complete step. */
    method Complete(c: Runs.Caller, entry: StoreEntry, reply: Reply, now: int)
      requires Valid() && c in state.callers && Tells(made, Start(entry), state.callers[c]) && state.clock <= now
      modifies this, entry
      ensures Valid() && made == old(made)
      ensures Steps(Cfg(), old(state), Runs.Complete(c, reply, now), state, made, store.entries)
      ensures state.callers[c] == Runs.Returned(Runs.Executed(reply))
      ensures history.steps == old(history.steps) + [Runs.Complete(c, reply, now)]
    {
      ghost var s, id := state, state.callers[c].id;
      OwnerRuns(Cfg(), history, c);
      assert entry.Value() == state.entries[id];
      SameView();
      ghost var done := Completed(state.entries[id].digest, Cloned(reply), now, now + store.ttl);
      CompleteOnHeap(entry, id, reply, now);
      CompleteStep(Cfg(), state, c, reply, now, made, store.entries);
      state := Runs.State(
        state.table, state.entries[id := done], state.callers[c := Runs.Returned(Runs.Executed(reply))], now);
      Record(s, Runs.Complete(c, reply, now));
    }

    /** A waiting caller whose entry is ready takes the Join step and gets that entry's reply. */
    method Join(c: Runs.Caller, entry: StoreEntry) returns (reply: Reply)
      requires Valid() && c in state.callers && Tells(made, Wait(entry), state.callers[c]) && entry.readyClosed
      modifies this
      ensures Valid() && made == old(made)
      ensures Steps(Cfg(), old(state), Runs.Join(c), state, made, store.entries)
      ensures state.callers[c] == Runs.Returned(Runs.Joined(reply))
      ensures history.steps == old(history.steps) + [Runs.Join(c)]
    {
      ghost var s := state;
      SameView();
      assert entry.Value() == s.entries[s.callers[c].id];
      reply := Cloned(entry.reply);
      state := s.(callers := s.callers[c := Runs.Returned(Runs.Joined(reply))]);
      Record(s, Runs.Join(c));
    }

    /** At most once, of the store in memory: of two calls that started an execution for one
        key, the first had completed and its entry had been removed before the second. */
    lemma {:induction false} AtMostOnce(i: nat, j: nat, key: Key) returns (m: nat, e: nat)
      requires Valid() && Runs.Starts(history, i, key) && Runs.Starts(history, j, key) && i < j
      ensures i < m < e <= j && e < |history.steps| && |history.states| == |history.steps| + 1
      ensures history.steps[m].Complete? && history.steps[m].c == history.steps[i].c
      ensures Runs.DroppedAt(Cfg(), history, e, key, |history.states[i].entries|)
    {
      m, e := Runs.AtMostOnce(Cfg(), history, i, j, key);
    }

    /** And it comes a lifetime or more after the first completed, unless the first one's entry
        was evicted from a full table. */
    lemma {:induction false} SecondStart(i: nat, j: nat, key: Key) returns (m: nat, e: nat)
      requires Valid() && Runs.Starts(history, i, key) && Runs.Starts(history, j, key) && i < j
      ensures Lifetime.Completes(history, i, m) && m < e <= j < |history.steps|
      ensures |history.states| == |history.steps| + 1
      ensures history.steps[j].Begin?
      ensures
        || history.steps[m].now + store.ttl <= history.steps[j].now
        || Lifetime.EvictedWhenFull(Cfg(), history, e, key)
    {
      m, e := Lifetime.SecondStart(Cfg(), history, i, j, key);
    }

    /** The map in memory stays within its limit, and holds every entry that is running. */
    lemma {:induction false} Bounded()
      requires Valid()
      ensures |store.entries| <= Runs.Bound(Cfg())
      ensures forall i :: 0 <= i < |made| && made[i].running ==> made[i] in store.entries.Values
    {
      Runs.RunInv(Cfg(), history, |history.steps|);
      assert store.entries.Keys == state.table.Keys;
      forall i | 0 <= i < |made| && made[i].running ensures made[i] in store.entries.Values {
        assert made[i].Value() == state.entries[i];
        var k :| k in state.table && state.table[k] == i;
        assert store.entries[k] == made[i];
      }
    }
  }

  lemma {:induction false} ShowsMore(made: seq<StoreEntry>, made': seq<StoreEntry>,
      entries: seq<Entry>, entries': seq<Entry>, verdict: Verdict, digest: Digest)
    requires Shows(made, entries) && Distinct(made) && Extends(made, made', entries, entries', verdict, digest)
    requires verdict.Start? ==> verdict.entry !in made && verdict.entry.Valid()
    requires verdict.Start? ==> verdict.entry.Value() == Running(digest)
    ensures Shows(made', entries') && Distinct(made')
  {
  }

  lemma {:induction false} CompleteStep(cfg: Config, s: Runs.State, c: Runs.Caller, reply: Reply, now: int,
      made: seq<StoreEntry>, objects: map<Key, StoreEntry>)
    requires Runs.WellIndexed(s) && c in s.callers && s.callers[c].Executing? && s.callers[c].id < |s.entries|
    requires s.clock <= now && Numbers(made, objects, s.table)
    ensures var id := s.callers[c].id;
      var done := Completed(s.entries[id].digest, Cloned(reply), now, now + cfg.ttl);
      var told := s.callers[c := Runs.Returned(Runs.Executed(reply))];
      Steps(cfg, s, Runs.Complete(c, reply, now), Runs.State(s.table, s.entries[id := done], told, now), made, objects)
  {
  }

  /** Completing one object changes what one number shows. */
  lemma {:induction false} ShowsDone(made: seq<StoreEntry>, entries: seq<Entry>, id: nat, done: Entry)
    requires |made| == |entries| && id < |made| && made[id].Valid() && made[id].Value() == done
    requires forall i :: 0 <= i < |made| && i != id ==> made[i].Valid() && made[i].Value() == entries[i]
    ensures Shows(made, entries[id := done])
  {
  }

  /** A caller that executes owns a running entry. */
  lemma {:induction false} OwnerRuns(cfg: Config, r: Runs.Run, c: Runs.Caller)
    requires Runs.IsRun(cfg, r)
    requires var s := r.states[|r.steps|]; c in s.callers && s.callers[c].Executing?
    ensures var s := r.states[|r.steps|]; s.callers[c].id < |s.entries| && s.entries[s.callers[c].id].Running?
  {
    Runs.RunInv(cfg, r, |r.steps|);
  }

  lemma {:induction false} RunExtends(cfg: Config, r: Runs.Run, a: Runs.Step, s': Runs.State)
    requires Runs.IsRun(cfg, r)
    requires var s := r.states[|r.steps|]; Runs.WellIndexed(s) && Runs.Next(cfg, s, a, s')
    ensures Runs.IsRun(cfg, Runs.Run(r.states + [s'], r.steps + [a]))
  {
    var r' := Runs.Run(r.states + [s'], r.steps + [a]);
    forall i: nat | i < |r'.steps| ensures Runs.Follows(cfg, r', i) {
      if i < |r.steps| {
        assert Runs.Follows(cfg, r, i);
      }
    }
  }
}
