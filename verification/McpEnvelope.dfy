/** Envelope stamping: MCP responses are Go maps that hold other maps, cloned one
    level deep. What matters is which maps are shared, so maps are heap objects here.

    A cached envelope shares its nested maps with the envelope the executor returned,
    because the clone is shallow; stamping must therefore never write to them. An executor may
    also return no envelope at all, and a nil map is not the same as an empty one. */
module McpEnvelope {

  /** The keys the stamp deals with, and every other key. */
  datatype Field = Meta | Replay | Principal | Error | Other(name: string)

  datatype Value = Scalar(text: string) | Nested(ref: McpMap)

  class McpMap {
    var items: map<Field, Value>

    constructor ()
      ensures items == map[]
    {
      items := map[];
    }
  }

  /** What a reader sees of a value: the text, or the contents of the nested map. */
  datatype Seen = Text(text: string) | Map(items: map<Field, Value>)

  ghost function NestedMaps(m: McpMap): set<McpMap>
    reads m
  {
    set k | k in m.items && m.items[k].Nested? :: m.items[k].ref
  }

  ghost function See(v: Value): Seen
    reads if v.Nested? then {v.ref} else {}
  {
    if v.Nested? then Map(v.ref.items) else Text(v.text)
  }

  /** The whole envelope as a reader sees it. */
  ghost function Contents(m: McpMap): map<Field, Seen>
    reads m, NestedMaps(m)
  {
    map k | k in m.items :: See(m.items[k])
  }

  function BoolText(b: bool): string {
    if b then "true" else "false"
  }

  /** The meta block an envelope has, or an empty one. */
  ghost function MetaOf(c: map<Field, Seen>): map<Field, Value> {
    if Meta in c && c[Meta].Map? then c[Meta].items else map[]
  }

  /** `out` shows `c` with a meta block that adds the replay flag and the principal. */
  ghost predicate Stamped(out: McpMap, c: map<Field, Seen>, replay: bool, principal: McpMap)
    reads out, NestedMaps(out)
  {
    && Meta in out.items && out.items[Meta].Nested?
    && Contents(out) == c[Meta := Map(MetaOf(c)[Replay := Scalar(BoolText(replay))][Principal := Nested(principal)])]
  }

  /** Copy key by key; a nil map gives an empty one. Nested maps are shared. */
  method CloneMcpMap(value: McpMap?) returns (out: McpMap)
    ensures fresh(out)
    ensures out.items == if value == null then map[] else value.items
  {
    out := new McpMap();
    if value == null {
      return;
    }
    var todo := value.items.Keys;
    while todo != {}
      invariant todo <= value.items.Keys
      invariant out.items == map k | k in value.items && k !in todo :: value.items[k]
      decreases |todo|
    {
      var key :| key in todo;
      todo := todo - {key};
      out.items := out.items[key := value.items[key]];
    }
  }

  method MarkReplay(envelope: McpMap, replay: bool) returns (out: McpMap)
    ensures fresh(out)
    ensures Meta in out.items && out.items[Meta].Nested? && fresh(out.items[Meta].ref) && out.items[Meta].ref != out
    ensures out.items == envelope.items[Meta := out.items[Meta]]
    ensures out.items[Meta].ref.items == MetaOf(Contents(envelope))[Replay := Scalar(BoolText(replay))]
  {
    out := CloneMcpMap(envelope);
    var meta := new McpMap();
    if Meta in out.items && out.items[Meta].Nested? {
      assert Contents(envelope)[Meta] == See(envelope.items[Meta]);
      meta := CloneMcpMap(out.items[Meta].ref);
    }
    meta.items := meta.items[Replay := Scalar(BoolText(replay))];
    out.items := out.items[Meta := Nested(meta)];
  }

  /** Replacing the meta block leaves the rest of an envelope as it was. */
  lemma {:induction false} ContentsWithMeta(envelope: McpMap, out: McpMap, meta: McpMap)
    requires out.items == envelope.items[Meta := Nested(meta)]
    ensures Contents(out) == Contents(envelope)[Meta := Map(meta.items)]
  {
    var c := Contents(envelope);
    forall k | k in c && k != Meta ensures Contents(out)[k] == c[k] {
      assert out.items[k] == envelope.items[k];
    }
  }

  method SetMeta(envelope: McpMap, out: McpMap, meta: McpMap)
    requires out != meta && out != envelope && out !in NestedMaps(envelope)
    requires Meta in out.items && out.items == envelope.items[Meta := out.items[Meta]]
    modifies out
    ensures out.items == envelope.items[Meta := Nested(meta)]
    ensures Contents(out) == old(Contents(envelope))[Meta := Map(old(meta.items))]
  {
    out.items := out.items[Meta := Nested(meta)];
    ContentsWithMeta(envelope, out, meta);
  }

  /** The stamp put on every response. It writes to new maps only, so no envelope that
      existed before, cached or returned, looks any different afterwards. */
  method MarkReplayForArgs(envelope: McpMap, replay: bool, principal: McpMap) returns (out: McpMap)
    ensures fresh(out) && Stamped(out, Contents(envelope), replay, principal)
  {
    out := MarkReplay(envelope, replay);
    var meta := CloneMcpMap(out.items[Meta].ref);
    meta.items := meta.items[Principal := Nested(principal)];
    SetMeta(envelope, out, meta);
  }

  /** A joiner's response: a clone of the cached envelope, stamped as a replay. */
  method Replayed(cached: McpMap, principal: McpMap) returns (out: McpMap)
    ensures fresh(out) && Stamped(out, Contents(cached), true, principal)
  {
    var copy := CloneMcpMap(cached);
    assert Contents(copy) == Contents(cached);
    out := MarkReplayForArgs(copy, true, principal);
  }

  /** What a map shows; a nil one shows nothing. */
  ghost function Shown(m: McpMap?): map<Field, Seen>
    reads if m == null then {} else {m} + NestedMaps(m)
  {
    if m == null then map[] else Contents(m)
  }

  /** What the store keeps of an execution: a clone, which is never nil. */
  method Cached(envelope: McpMap?) returns (cached: McpMap)
    ensures fresh(cached) && Contents(cached) == Shown(envelope)
  {
    cached := CloneMcpMap(envelope);
  }

  /** What the executing caller's response is made from: its envelope, or an error envelope
      in place of a nil one. */
  ghost function Executed(envelope: McpMap?, failure: McpMap): map<Field, Seen>
    reads failure, NestedMaps(failure), if envelope == null then {} else {envelope} + NestedMaps(envelope)
  {
    if envelope == null then Contents(failure) else Contents(envelope)
  }

  /** What a response is made from. */
  ghost function Source(joins: bool, executed: map<Field, Seen>, cached: map<Field, Seen>): map<Field, Seen> {
    if joins then cached else executed
  }

  /** One caller's response. The executing caller stamps what it executed, and a joiner a clone
      of the cached envelope; an error envelope replaces a nil map. */
  method Respond(envelope: McpMap?, cached: McpMap, failure: McpMap, joins: bool, principal: McpMap)
      returns (response: McpMap)
    ensures fresh(response)
    ensures Stamped(response, Source(joins, Executed(envelope, failure), Contents(cached)), joins, principal)
  {
    if joins {
      response := Replayed(cached, principal);
    } else if envelope == null {
      response := MarkReplayForArgs(failure, false, principal);
    } else {
      response := MarkReplayForArgs(envelope, false, principal);
    }
  }

  method RespondAll(envelope: McpMap?, cached: McpMap, failure: McpMap, principals: seq<McpMap>)
      returns (responses: seq<McpMap>)
    ensures |responses| == |principals|
    ensures var c, x := old(Contents(cached)), old(Executed(envelope, failure));
      forall i :: 0 <= i < |responses| ==> Stamped(responses[i], Source(i > 0, x, c), i > 0, principals[i])
  {
    responses := [];
    ghost var c, x := Contents(cached), Executed(envelope, failure);
    for n := 0 to |principals|
      invariant |responses| == n
      invariant Contents(cached) == c && Executed(envelope, failure) == x
      invariant forall i :: 0 <= i < n ==> Stamped(responses[i], Source(i > 0, x, c), i > 0, principals[i])
    {
      var response := Respond(envelope, cached, failure, n > 0, principals[n]);
      responses := responses + [response];
    }
  }

  /** The responses to one execution and to any number of later calls that join it, one for
      each principal: the first shows what was executed, or the error envelope, the others
      what was cached, and no stamp reaches another response or the cached envelope. */
  method CacheAndReplay(envelope: McpMap?, failure: McpMap, principals: seq<McpMap>)
      returns (cached: McpMap, responses: seq<McpMap>)
    ensures Contents(cached) == old(Shown(envelope))
    ensures |responses| == |principals|
    ensures var c, x := old(Shown(envelope)), old(Executed(envelope, failure));
      forall i :: 0 <= i < |responses| ==> Stamped(responses[i], Source(i > 0, x, c), i > 0, principals[i])
  {
    ghost var c, x := Shown(envelope), Executed(envelope, failure);
    cached := Cached(envelope);
    assert Contents(cached) == c && Executed(envelope, failure) == x;
    responses := RespondAll(envelope, cached, failure, principals);
  }

  // ---- When a joiner sees what the executing caller saw -------------------

  /** The contents without what the stamp puts in. */
  ghost function Unstamped(c: map<Field, Seen>): map<Field, Seen> {
    c[Meta := Map(MetaOf(c) - {Replay, Principal})]
  }

  /** What a stamped response shows: the replay flag as text and the caller's principal in its
      meta block, every other part of that block as it was, and every other field as it was. */
  lemma {:induction false} StampShows(out: McpMap, c: map<Field, Seen>, replay: bool, principal: McpMap, k: Field)
    requires Stamped(out, c, replay, principal)
    ensures Meta in out.items && out.items[Meta].Nested?
    ensures var meta := out.items[Meta].ref.items;
      && Replay in meta && meta[Replay] == Scalar(if replay then "true" else "false")
      && Principal in meta && meta[Principal] == Nested(principal)
    ensures k != Replay && k != Principal ==>
      var meta := out.items[Meta].ref.items;
      && (k in meta <==> Meta in c && c[Meta].Map? && k in c[Meta].items)
      && (k in meta ==> meta[k] == c[Meta].items[k])
    ensures k != Meta ==> (k in Contents(out) <==> k in c) && (k in c ==> Contents(out)[k] == c[k])
  {
    assert Contents(out)[Meta] == See(out.items[Meta]) == Map(out.items[Meta].ref.items);
  }

  lemma {:induction false} StampAdds(out: McpMap, c: map<Field, Seen>, replay: bool, principal: McpMap)
    requires Stamped(out, c, replay, principal)
    ensures Unstamped(Contents(out)) == Unstamped(c)
  {
    var meta := MetaOf(c)[Replay := Scalar(BoolText(replay))][Principal := Nested(principal)];
    assert MetaOf(Contents(out)) == meta;
    assert meta - {Replay, Principal} == MetaOf(c) - {Replay, Principal};
  }

  /** The response of the executing caller and that of a joiner agree up to their stamps
      exactly when the execution returned an envelope: with a nil one the executing caller is
      told the error and the joiner is not. */
  lemma {:induction false} ResponsesAgreeIff(envelope: McpMap?, failure: McpMap,
      first: McpMap, firstPrincipal: McpMap, joined: McpMap, joinedPrincipal: McpMap)
    requires Error in failure.items
    requires Stamped(first, Executed(envelope, failure), false, firstPrincipal)
    requires Stamped(joined, Shown(envelope), true, joinedPrincipal)
    ensures Unstamped(Contents(first)) == Unstamped(Contents(joined)) <==> envelope != null
    ensures envelope == null ==> Error in first.items && Error !in joined.items
  {
    StampAdds(first, Executed(envelope, failure), false, firstPrincipal);
    StampAdds(joined, Shown(envelope), true, joinedPrincipal);
    if envelope == null {
      assert Error in Contents(first) && Error !in Contents(joined);
      assert Error in Unstamped(Contents(first)) && Error !in Unstamped(Contents(joined));
    }
  }
}
