/** What the idempotency store takes two tool calls to be the same by: the cache key, made
    of the tool, the caller's principal and the caller's key, and the argument digest. */
module IdempotencyKeys {

  /** A decoded JSON value; `Other` stands for every kind the store does not look into. */
  datatype Value = Text(text: string) | Object(fields: map<string, Value>) | Other(tag: int)

  type Args = map<string, Value>

  /** How white space is trimmed. */
  type Trim = string -> string

  const NUL: char := '\0'
  const KEY: string := "idempotency_key"
  const PRINCIPAL: string := "principal"
  const CORRELATION: string := "correlation_id"
  const FIELDS: seq<string> := ["workload_identity", "delegated_authority", "purpose", CORRELATION]

  /** A text member, trimmed; missing members and other kinds read as empty. */
  function TextOf(trim: Trim, fields: map<string, Value>, name: string): string {
    if name in fields && fields[name].Text? then trim(fields[name].text) else ""
  }

  /** The members of the principal argument. */
  function Claims(args: Args): map<string, Value> {
    if PRINCIPAL in args && args[PRINCIPAL].Object? then args[PRINCIPAL].fields else map[]
  }

  /** The known members of the principal that have text. */
  function Principal(trim: Trim, args: Args): map<string, string> {
    map f | f in FIELDS && TextOf(trim, Claims(args), f) != "" :: TextOf(trim, Claims(args), f)
  }

  method PrincipalContextArg(trim: Trim, args: Args) returns (out: map<string, string>)
    ensures out == Principal(trim, args)
    ensures forall f :: f in out <==>
      f in {"workload_identity", "delegated_authority", "purpose", "correlation_id"} && Claim(trim, args, f) != ""
    ensures forall f :: f in out ==> out[f] == Claim(trim, args, f)
  {
    out := map[];
    if PRINCIPAL !in args || !args[PRINCIPAL].Object? {
      return;
    }
    var raw := args[PRINCIPAL].fields;
    for i := 0 to |FIELDS|
      invariant out.Keys == set f | f in FIELDS[..i] && TextOf(trim, raw, f) != ""
      invariant forall f :: f in out ==> out[f] == TextOf(trim, raw, f)
    {
      var f := FIELDS[i];
      assert FIELDS[..i + 1] == FIELDS[..i] + [f];
      if f in raw && raw[f].Text? && trim(raw[f].text) != "" {
        out := out[f := trim(raw[f].text)];
      }
    }
    assert FIELDS[..|FIELDS|] == FIELDS;
    PrincipalClaims(trim, args);
  }

  datatype Scope = Scope(tool: string, principal: map<string, string>)

  function ScopeOf(trim: Trim, name: string, args: Args): Scope {
    Scope(name, Principal(trim, args) - {CORRELATION})
  }

  function ArgumentsOf(args: Args): Args { args - {KEY, PRINCIPAL} }

  /** The scope and the arguments that are digested. */
  method Identity(trim: Trim, name: string, args: Args) returns (scope: Scope, arguments: Args)
    ensures scope == ScopeOf(trim, name, args) && arguments == ArgumentsOf(args)
  {
    var principal := PrincipalContextArg(trim, args);
    principal := principal - {CORRELATION};
    scope := Scope(name, principal);
    arguments := CopyArguments(args);
  }

  method CopyArguments(args: Args) returns (arguments: Args)
    ensures arguments == ArgumentsOf(args)
  {
    arguments := map[];
    var left := args.Keys;
    while left != {}
      invariant left <= args.Keys
      invariant forall k :: k in arguments <==> k in args && k !in left && k != KEY && k != PRINCIPAL
      invariant forall k :: k in arguments ==> arguments[k] == args[k]
      decreases |left|
    {
      var key :| key in left;
      left := left - {key};
      if key != KEY && key != PRINCIPAL {
        arguments := arguments[key := args[key]];
      }
    }
  }

  /** The caller's key; empty, which bypasses the store, for tools that only read. */
  function CallerKey(trim: Trim, mutates: string -> bool, name: string, args: Args): string {
    if mutates(name) then TextOf(trim, args, KEY) else ""
  }

  function CacheKey(digest: Scope -> string, trim: Trim, name: string, args: Args, key: string): string {
    name + [NUL] + (digest(ScopeOf(trim, name, args)) + [NUL] + key)
  }

  // ---- When two calls share a cache key -----------------------------------

  /** A digest without collisions, whose text has no NUL. */
  ghost predicate Collisionless<T(!new)>(digest: T -> string) {
    && (forall a, b :: digest(a) == digest(b) ==> a == b)
    && (forall a :: NUL !in digest(a))
  }

  lemma {:induction false} SplitAtNul(a: string, b: string, a': string, b': string)
    requires NUL !in a && NUL !in a' && a + [NUL] + b == a' + [NUL] + b'
    ensures a == a' && b == b'
  {
    var s := a + [NUL] + b;
    assert s[|a|] == NUL && s[|a'|] == NUL;
    assert forall i :: 0 <= i < |a| ==> s[i] == a[i];
    assert forall i :: 0 <= i < |a'| ==> s[i] == a'[i];
    assert |a| == |a'|;
    assert a == s[..|a|] && a' == s[..|a|];
    assert b == s[|a| + 1..] && b' == s[|a| + 1..];
  }

  /** A claim of the principal argument, trimmed; empty when it is missing or no text. */
  function Claim(trim: Trim, args: Args, claim: string): string {
    if "principal" in args && args["principal"].Object? && claim in args["principal"].fields
      && args["principal"].fields[claim].Text?
    then trim(args["principal"].fields[claim].text) else ""
  }

  /** The key a caller gives, trimmed. */
  function GivenKey(trim: Trim, args: Args): string {
    if "idempotency_key" in args && args["idempotency_key"].Text? then trim(args["idempotency_key"].text) else ""
  }

  lemma {:induction false} PrincipalClaims(trim: Trim, args: Args)
    ensures forall f :: f in Principal(trim, args) <==>
      f in {"workload_identity", "delegated_authority", "purpose", "correlation_id"} && Claim(trim, args, f) != ""
    ensures forall f :: f in Principal(trim, args) ==> Principal(trim, args)[f] == Claim(trim, args, f)
  {
    assert FIELDS[0] == "workload_identity" && FIELDS[1] == "delegated_authority" && FIELDS[2] == "purpose";
    assert FIELDS[3] == "correlation_id";
  }

  /** The callers agree on who they act for; the correlation id does not matter. */
  predicate SamePrincipal(trim: Trim, args: Args, args': Args) {
    && Claim(trim, args, "workload_identity") == Claim(trim, args', "workload_identity")
    && Claim(trim, args, "delegated_authority") == Claim(trim, args', "delegated_authority")
    && Claim(trim, args, "purpose") == Claim(trim, args', "purpose")
  }

  lemma {:induction false} ClaimIs(trim: Trim, args: Args, claim: string)
    ensures Claim(trim, args, claim) == TextOf(trim, Claims(args), claim)
  {
  }

  lemma {:induction false} Identifying(f: string)
    ensures f in FIELDS && f != CORRELATION <==> f in {"workload_identity", "delegated_authority", "purpose"}
  {
    assert FIELDS[0] == "workload_identity" && FIELDS[1] == "delegated_authority" && FIELDS[2] == "purpose";
    assert |"workload_identity"| != |CORRELATION| && |"delegated_authority"| != |CORRELATION|;
    assert |"purpose"| != |CORRELATION|;
  }

  lemma {:induction false} ScopeClaim(trim: Trim, name: string, args: Args, f: string)
    ensures var p := ScopeOf(trim, name, args).principal;
      && (f in p <==> f in FIELDS && f != CORRELATION && Claim(trim, args, f) != "")
      && (f in p ==> p[f] == Claim(trim, args, f))
  {
    ClaimIs(trim, args, f);
  }

  lemma {:induction false} ScopeIff(trim: Trim, name: string, args: Args, name': string, args': Args)
    ensures ScopeOf(trim, name, args) == ScopeOf(trim, name', args') <==>
      name == name' && SamePrincipal(trim, args, args')
  {
    var p, p' := ScopeOf(trim, name, args).principal, ScopeOf(trim, name', args').principal;
    if p == p' {
      SameClaim(trim, name, args, name', args', "workload_identity");
      SameClaim(trim, name, args, name', args', "delegated_authority");
      SameClaim(trim, name, args, name', args', "purpose");
    }
    if SamePrincipal(trim, args, args') {
      forall f ensures (f in p <==> f in p') && (f in p ==> p[f] == p'[f]) {
        ScopeClaim(trim, name, args, f);
        ScopeClaim(trim, name', args', f);
        Identifying(f);
      }
      assert p == p';
    }
  }

  lemma {:induction false} SameClaim(trim: Trim, name: string, args: Args, name': string, args': Args, f: string)
    requires ScopeOf(trim, name, args).principal == ScopeOf(trim, name', args').principal
    requires f in {"workload_identity", "delegated_authority", "purpose"}
    ensures Claim(trim, args, f) == Claim(trim, args', f)
  {
    ScopeClaim(trim, name, args, f);
    ScopeClaim(trim, name', args', f);
    Identifying(f);
  }

  /** Both calls go through the store, and to one entry of it. */
  ghost predicate Meet(digest: Scope -> string, trim: Trim, mutates: string -> bool,
      name: string, args: Args, name': string, args': Args)
  {
    var key, key' := CallerKey(trim, mutates, name, args), CallerKey(trim, mutates, name', args');
    key != "" && key' != "" && CacheKey(digest, trim, name, args, key) == CacheKey(digest, trim, name', args', key')
  }

  /** Two calls meet in one entry exactly when they name one mutating tool and agree on a
      non-empty key and on the principal; the correlation id and white space around claims
      and keys do not matter. */
  lemma {:induction false} MeetIff(digest: Scope -> string, trim: Trim, mutates: string -> bool,
      name: string, args: Args, name': string, args': Args)
    requires Collisionless(digest) && NUL !in name && NUL !in name'
    ensures Meet(digest, trim, mutates, name, args, name', args') <==>
      && name == name' && mutates(name)
      && GivenKey(trim, args) == GivenKey(trim, args') != ""
      && SamePrincipal(trim, args, args')
  {
    var d, d' := digest(ScopeOf(trim, name, args)), digest(ScopeOf(trim, name', args'));
    ScopeIff(trim, name, args, name', args');
    if Meet(digest, trim, mutates, name, args, name', args') {
      var k, k' := TextOf(trim, args, KEY), TextOf(trim, args', KEY);
      SplitAtNul(name, d + [NUL] + k, name', d' + [NUL] + k');
      SplitAtNul(d, k, d', k');
    }
  }

  /** One call has the argument and the other has not, or has it with another value. */
  ghost predicate Differ(args: Args, args': Args, k: string) {
    (k in args || k in args') && (k in args && k in args' ==> args[k] != args'[k])
  }

  /** A call that meets an entry conflicts with it exactly when some argument other than the
      key and the principal differs. */
  lemma {:induction false} ConflictIff(digest: Args -> string, args: Args, args': Args)
    requires Collisionless(digest)
    ensures digest(ArgumentsOf(args)) != digest(ArgumentsOf(args')) <==>
      exists k :: k !in {"idempotency_key", "principal"} && Differ(args, args', k)
  {
    var a, a' := ArgumentsOf(args), ArgumentsOf(args');
    if k :| k !in {KEY, PRINCIPAL} && Differ(args, args', k) {
      assert k in a <==> k in args;
      assert k in a' <==> k in args';
    } else {
      forall k ensures (k in a <==> k in a') && (k in a ==> a[k] == a'[k]) {
        assert k in {KEY, PRINCIPAL} || !Differ(args, args', k);
      }
      assert a == a';
    }
  }
}
