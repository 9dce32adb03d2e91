/** What the idempotency store's lock regions do to its table of entries, as a
    relation between table values. Go's map iteration order is unspecified, so which
    of several equally old entries is evicted is left open. */
module IdempotencySpec {

  type Key = string
  type Digest = string

  /** A Go map: nil is not the same as empty. What the fields hold is opaque here. */
  datatype Envelope = Nil | Fields(items: map<string, string>)

  /** What `execute` returned. */
  datatype Reply = Reply(envelope: Envelope, err: string)

  /** The reply with its envelope copied key by key: a nil map gives an empty one. */
  function Cloned(r: Reply): Reply {
    r.(envelope := if r.envelope == Nil then Fields(map[]) else r.envelope)
  }

  datatype Entry =
    | Running(digest: Digest)
    | Completed(digest: Digest, reply: Reply, completedAt: int, expiresAt: int)

  type Table = map<Key, Entry>

  datatype Config = Config(ttl: int, maxEntries: int)

  predicate Expired(e: Entry, now: int) {
    e.Completed? && e.expiresAt <= now
  }

  function Pruned(t: Table, now: int): Table {
    map k | k in t && !Expired(t[k], now) :: t[k]
  }

  ghost predicate AllRunning(t: Table) {
    forall k :: k in t ==> t[k].Running?
  }

  /** `k` is a completed entry that completed no later than any other. */
  ghost predicate Oldest(t: Table, k: Key) {
    && k in t && t[k].Completed?
    && forall j :: j in t && t[j].Completed? ==> t[k].completedAt <= t[j].completedAt
  }

  /** Making room turns `t` into `t'` by evicting `keys` in order, each the oldest
      completed entry at its turn, and stops as soon as the table is below the limit
      (`ok`) or has no completed entry left. */
  ghost predicate MakesRoom(t: Table, maxEntries: int, keys: seq<Key>, t': Table, ok: bool)
    decreases |keys|
  {
    if maxEntries <= 0 then keys == [] && t' == t && !ok
    else if |t| < maxEntries then keys == [] && t' == t && ok
    else if AllRunning(t) then keys == [] && t' == t && !ok
    else keys != [] && Oldest(t, keys[0]) && MakesRoom(t - {keys[0]}, maxEntries, keys[1..], t', ok)
  }

  lemma {:induction false} RemoveOne(t: Table, k: Key)
    requires k in t
    ensures |t - {k}| == |t| - 1
    ensures forall j :: j in t - {k} <==> j in t && j != k
  {
    assert (t - {k}).Keys == t.Keys - {k};
  }

  /** Evictions only remove, never touch a running entry, and remove just the listed keys. */
  lemma {:induction false} MakesRoomEffect(t: Table, maxEntries: int, keys: seq<Key>, t': Table, ok: bool)
    requires MakesRoom(t, maxEntries, keys, t', ok)
    ensures forall k :: k in t' <==> k in t && k !in keys
    ensures forall k :: k in t' ==> t'[k] == t[k]
    ensures forall k :: k in keys ==> k in t && t[k].Completed?
    ensures |t'| + |keys| == |t|
    decreases |keys|
  {
    if keys != [] {
      RemoveOne(t, keys[0]);
      MakesRoomEffect(t - {keys[0]}, maxEntries, keys[1..], t', ok);
      assert keys == [keys[0]] + keys[1..];
    }
  }

  /** Room is refused exactly when the limit is not positive or the running entries
      alone reach it, and nothing is evicted from a table below the limit. */
  lemma {:induction false} RoomIff(t: Table, maxEntries: int, keys: seq<Key>, t': Table, ok: bool)
    requires MakesRoom(t, maxEntries, keys, t', ok)
    ensures ok ==> |t'| < maxEntries
    ensures !ok ==> maxEntries <= 0 || (maxEntries <= |t'| && AllRunning(t'))
    ensures |t| < maxEntries ==> keys == [] && ok
    decreases |keys|
  {
    if keys != [] {
      RoomIff(t - {keys[0]}, maxEntries, keys[1..], t', ok);
    }
  }

  /** For a table within its limit, as every reachable one is: the capacity error
      arises exactly when the limit is not positive or the table is full of running
      entries, and at most one entry is ever evicted. */
  lemma {:induction false} CapacityIff(t: Table, maxEntries: int, keys: seq<Key>, t': Table, ok: bool)
    requires MakesRoom(t, maxEntries, keys, t', ok)
    requires maxEntries > 0 ==> |t| <= maxEntries
    ensures !ok <==> maxEntries <= 0 || (|t| == maxEntries && AllRunning(t))
    ensures |keys| <= 1
    ensures keys != [] ==> ok && |t| == maxEntries && Oldest(t, keys[0])
  {
    if keys != [] {
      RemoveOne(t, keys[0]);
      RoomIff(t - {keys[0]}, maxEntries, keys[1..], t', ok);
    }
  }

  lemma {:induction false} PrunedSize(t: Table, now: int)
    ensures |Pruned(t, now)| <= |t|
  {
    var p := Pruned(t, now);
    assert p.Keys <= t.Keys;
    SubsetSize(p.Keys, t.Keys);
  }

  lemma {:induction false} SubsetSize<T>(a: set<T>, b: set<T>)
    requires a <= b
    ensures |a| <= |b|
    decreases a
  {
    if a != {} {
      var x :| x in a;
      SubsetSize(a - {x}, b - {x});
    }
  }
}
