/** The idempotency store as it sits in memory: a map from cache key to a mutable
    entry, pruned, evicted from and completed in place. Each method is tied to the
    table relations of IdempotencySpec, which the step system also uses. */
module IdempotencyStore {
  import opened IdempotencySpec

  datatype Verdict = Conflict | Full | Wait(entry: StoreEntry) | Start(entry: StoreEntry)

  /** One entry. `readyClosed` says that the `ready` channel has been closed. */
  class StoreEntry {
    const digest: Digest
    var reply: Reply
    var readyClosed: bool
    var running: bool
    var completedAt: int
    var expiresAt: int

    constructor (digest: Digest)
      ensures this.digest == digest && Valid() && running
    {
      this.digest := digest;
      reply := Reply(Nil, "");
      readyClosed, running := false, true;
      completedAt, expiresAt := 0, 0;
    }

    /** Joiners are released exactly when the execution is over. */
    ghost predicate Valid()
      reads this
    {
      readyClosed <==> !running
    }

    function Value(): Entry
      reads this
    {
      if running then Running(digest) else Completed(digest, reply, completedAt, expiresAt)
    }
  }

  /** `m` keeps some of the keys of `m0`, each with its own entry object. */
  ghost predicate Within(m: map<Key, StoreEntry>, m0: map<Key, StoreEntry>) {
    forall k :: k in m ==> k in m0 && m[k] == m0[k]
  }

  class Store {
    var entries: map<Key, StoreEntry>
    const ttl: int
    const maxEntries: int

    constructor (ttl: int, maxEntries: int)
      ensures this.ttl == ttl && this.maxEntries == maxEntries
      ensures entries == map[] && Valid() && View() == map[]
    {
      this.ttl, this.maxEntries := ttl, maxEntries;
      entries := map[];
    }

    ghost predicate Valid()
      reads this, entries.Values
    {
      && (forall k :: k in entries ==> entries[k].Valid())
      && (forall k, j :: k in entries && j in entries && entries[k] == entries[j] ==> k == j)
    }

    ghost function View(): Table
      reads this, entries.Values
    {
      map k | k in entries :: entries[k].Value()
    }

    /** The entry is running or its time is not up. */
    ghost predicate Counts(k: Key, now: int)
      requires k in entries
      reads this, entries.Values
    {
      entries[k].running || now < entries[k].expiresAt
    }

    /** Delete every entry whose time is up; the range loop visits keys in any order. */
    method PruneExpired(now: int)
      requires Valid()
      modifies `entries
      ensures Valid() && View() == Pruned(old(View()), now)
      ensures Within(entries, old(entries))
      ensures forall k :: k in old(entries) ==> (k in entries <==> old(Counts(k, now)))
    {
      var todo := entries.Keys;
      while todo != {}
        invariant todo <= old(entries.Keys)
        invariant forall k :: k in entries ==> k in old(entries) && entries[k] == old(entries[k])
        invariant forall k :: k in old(entries) ==>
          (k in entries <==> k in todo || !Expired(old(entries[k].Value()), now))
        decreases |todo|
      {
        var key :| key in todo;
        todo := todo - {key};
        if !entries[key].running && entries[key].expiresAt <= now {
          entries := entries - {key};
        }
      }
      assert View() == Pruned(old(View()), now);
    }

    /** The inner loop: some completed entry with the earliest completion, if any. */
    method FindOldest() returns (found: bool, key: Key)
      requires Valid()
      ensures found <==> !AllRunning(View())
      ensures found ==> Oldest(View(), key)
    {
      found, key := false, "";
      var todo := entries.Keys;
      while todo != {}
        invariant todo <= entries.Keys
        invariant !found ==> forall k :: k in entries && k !in todo ==> entries[k].running
        invariant found ==> key in entries && !entries[key].running
        invariant found ==> forall k :: k in entries && k !in todo && !entries[k].running ==>
          entries[key].completedAt <= entries[k].completedAt
        decreases |todo|
      {
        var k :| k in todo;
        todo := todo - {k};
        if !entries[k].running && (!found || entries[k].completedAt < entries[key].completedAt) {
          found, key := true, k;
        }
      }
      if found {
        assert View()[key].Completed?;
      } else {
        assert forall k :: k in View() ==> entries[k].running;
      }
    }

    method Delete(key: Key)
      requires Valid()
      modifies `entries
      ensures Valid() && entries == old(entries) - {key} && View() == old(View()) - {key}
    {
      entries := entries - {key};
      assert View() == old(View()) - {key};
    }

    /** A new running entry under a key the table does not hold. */
    method AddEntry(key: Key, digest: Digest) returns (entry: StoreEntry)
      requires Valid() && key !in entries
      modifies `entries
      ensures fresh(entry) && Valid() && key in entries && entries[key] == entry
      ensures entries - {key} == old(entries)
      ensures View() - {key} == old(View()) && View()[key] == Running(digest)
    {
      entry := new StoreEntry(digest);
      UndoInsert(entries, key, entry);
      UndoInsert(View(), key, entry.Value());
      entries := entries[key := entry];
      assert View() == old(View())[key := entry.Value()];
    }

    /** One round of the eviction loop. */
    method EvictOldest() returns (found: bool, key: Key)
      requires Valid()
      modifies `entries
      ensures Valid() && Within(entries, old(entries))
      ensures found ==> Oldest(old(View()), key) && View() == old(View()) - {key} && |entries| < |old(entries)|
      ensures !found ==> AllRunning(View()) && View() == old(View())
    {
      found, key := FindOldest();
      if found {
        SubMapRemove(entries, key);
        Delete(key);
      }
    }

    /** Evict oldest completed entries until the table is below its limit. The loop
        ends because each round removes an entry. */
    method MakeRoom() returns (ok: bool, ghost evicted: seq<Key>)
      requires Valid()
      modifies `entries
      ensures Valid() && MakesRoom(old(View()), maxEntries, evicted, View(), ok)
      ensures Within(entries, old(entries))
    {
      evicted := [];
      ghost var before := View();
      if maxEntries <= 0 {
        return false, evicted;
      }
      while |entries| >= maxEntries
        invariant Valid() && EvictedTo(before, maxEntries, evicted, View())
        invariant Within(entries, old(entries))
        decreases |entries|
      {
        ghost var table := View();
        ViewSize();
        var found, key := EvictOldest();
        if !found {
          EvictedThenStuck(before, maxEntries, evicted, table);
          return false, evicted;
        }
        EvictedOneMore(before, maxEntries, evicted, table, key);
        evicted := evicted + [key];
      }
      ViewSize();
      EvictedThenRoom(before, maxEntries, evicted, View());
      ok := true;
    }

    lemma {:induction false} ViewSize()
      ensures |View()| == |entries|
    {
      assert View().Keys == entries.Keys;
    }

    /** The first lock region of `Do`. */
    method Begin(key: Key, digest: Digest, now: int) returns (verdict: Verdict, ghost evicted: seq<Key>)
      requires Valid()
      modifies `entries
      ensures Valid()
      ensures var pruned := Pruned(old(View()), now);
        if key in pruned then
          && evicted == [] && View() == pruned && Within(entries, old(entries)) && key in entries
          && verdict == if pruned[key].digest != digest then Conflict else Wait(old(entries)[key])
        else
          StartsOrRefuses(pruned, old(entries), key, digest, verdict, evicted)
      ensures verdict.Start? ==> fresh(verdict.entry)
      ensures verdict.Start? || verdict.Full? <==> !(key in old(entries) && old(Counts(key, now)))
    {
      evicted := [];
      PruneExpired(now);
      if key in entries {
        assert View()[key].digest == entries[key].digest;
        if entries[key].digest != digest {
          return Conflict, evicted;
        }
        return Wait(entries[key]), evicted;
      }
      verdict, evicted := StartOrRefuse(key, digest);
    }

    /** What becomes of `table`, held in `objects`, when `key` is not in it: room is made and
        a new running entry put in under `key`, or there is no room. */
    ghost predicate StartsOrRefuses(
        table: Table, objects: map<Key, StoreEntry>, key: Key, digest: Digest, verdict: Verdict, evicted: seq<Key>)
      reads this, entries.Values
    {
      if verdict == Full then
        MakesRoom(table, maxEntries, evicted, View(), false) && Within(entries, objects)
      else
        && verdict.Start? && key in entries && entries[key] == verdict.entry
        && View()[key] == Running(digest)
        && MakesRoom(table, maxEntries, evicted, View() - {key}, true)
        && Within(entries - {key}, objects)
    }

    method StartOrRefuse(key: Key, digest: Digest) returns (verdict: Verdict, ghost evicted: seq<Key>)
      requires Valid() && key !in entries
      modifies `entries
      ensures Valid() && StartsOrRefuses(old(View()), old(entries), key, digest, verdict, evicted)
      ensures verdict.Start? ==> fresh(verdict.entry)
    {
      var ok;
      ok, evicted := MakeRoom();
      if !ok {
        return Full, evicted;
      }
      var entry := AddEntry(key, digest);
      verdict := Start(entry);
    }

    /** The second lock region of `Do`: only this entry changes, and only once, whether or
        not the table still holds it. */
    method Complete(entry: StoreEntry, reply: Reply, now: int)
      requires Valid() && entry.Valid() && entry.running
      modifies entry
      ensures Valid() && entries == old(entries) && entry.Valid()
      ensures entry.Value() == Completed(entry.digest, Cloned(reply), now, now + ttl)
      ensures View() == map k | k in entries :: if entries[k] == entry then entry.Value() else old(View())[k]
    {
      entry.reply := Cloned(reply);
      entry.running := false;
      entry.completedAt := now;
      entry.expiresAt := now + ttl;
      entry.readyClosed := true;
    }
  }

  lemma {:induction false} SubMapRemove(m: map<Key, StoreEntry>, key: Key)
    requires key in m
    ensures (m - {key}).Values <= m.Values && |m - {key}| < |m|
  {
    assert (m - {key}).Keys == m.Keys - {key};
  }

  lemma {:induction false} UndoInsert<V>(t: map<Key, V>, key: Key, e: V)
    requires key !in t
    ensures t[key := e] - {key} == t
  {
  }

  // ---- Building the eviction relation from the back -----------------------

  /** `keys` were evicted so far, each the oldest at its turn, with the table full. */
  ghost predicate EvictedTo(t: Table, maxEntries: int, keys: seq<Key>, t': Table)
    decreases |keys|
  {
    if keys == [] then t' == t
    else
      && maxEntries > 0 && |t| >= maxEntries && Oldest(t, keys[0])
      && EvictedTo(t - {keys[0]}, maxEntries, keys[1..], t')
  }

  lemma {:induction false} EvictedOneMore(t: Table, maxEntries: int, keys: seq<Key>, t': Table, key: Key)
    requires EvictedTo(t, maxEntries, keys, t') && maxEntries > 0 && |t'| >= maxEntries && Oldest(t', key)
    ensures EvictedTo(t, maxEntries, keys + [key], t' - {key})
    decreases |keys|
  {
    if keys == [] {
      assert (keys + [key])[1..] == [];
    } else {
      assert (keys + [key])[1..] == keys[1..] + [key];
      EvictedOneMore(t - {keys[0]}, maxEntries, keys[1..], t', key);
    }
  }

  lemma {:induction false} EvictedThenStuck(t: Table, maxEntries: int, keys: seq<Key>, t': Table)
    requires EvictedTo(t, maxEntries, keys, t') && maxEntries > 0 && |t'| >= maxEntries && AllRunning(t')
    ensures MakesRoom(t, maxEntries, keys, t', false)
    decreases |keys|
  {
    if keys != [] {
      EvictedThenStuck(t - {keys[0]}, maxEntries, keys[1..], t');
    }
  }

  lemma {:induction false} EvictedThenRoom(t: Table, maxEntries: int, keys: seq<Key>, t': Table)
    requires EvictedTo(t, maxEntries, keys, t') && maxEntries > 0 && |t'| < maxEntries
    ensures MakesRoom(t, maxEntries, keys, t', true)
    decreases |keys|
  {
    if keys != [] {
      EvictedThenRoom(t - {keys[0]}, maxEntries, keys[1..], t');
    }
  }
}
