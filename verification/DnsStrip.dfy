/** Stripping service-binding records from DNS responses, on parsed messages.

    A message has the header, question, answer, authority and additional parts of
    section 4.1 of RFC 1035. Types 64 and 65 are the SVCB and HTTPS records of sections
    14.1 and 14.2 of RFC 9460. Wire parsing and packing are the DNS library's. */
module DnsStrip {

  const TYPE_SVCB: nat := 64
  const TYPE_HTTPS: nat := 65

  datatype Body =
    | A(a: seq<nat>)
    | AAAA(aaaa: seq<nat>)
    | CNAME(target: string)
    | OPT(options: string)
    | Unknown(data: string)
    | Unhandled(data: string)  // a type the rebuild has no case for, such as MX or NS

  datatype Resource = Resource(name: string, rtype: nat, ttl: nat, body: Body)

  datatype Message = Message(header: string, questions: seq<string>,
                             answers: seq<Resource>, authorities: seq<Resource>, additionals: seq<Resource>)

  /** Wire bytes as the parser sees them: a message, or bytes that stop parsing after
      some answers were readable. */
  datatype Wire = Parsed(message: Message) | Garbled(readable: seq<Resource>, bytes: string)

  predicate IsServiceBinding(r: Resource) {
    r.rtype == TYPE_HTTPS || r.rtype == TYPE_SVCB
  }

  method ContainsServiceBinding(rs: seq<Resource>) returns (found: bool)
    ensures found <==> exists i :: 0 <= i < |rs| && IsServiceBinding(rs[i])
  {
    for i := 0 to |rs|
      invariant forall j :: 0 <= j < i ==> !IsServiceBinding(rs[j])
    {
      if rs[i].rtype == TYPE_HTTPS || rs[i].rtype == TYPE_SVCB {
        return true;
      }
    }
    found := false;
  }

  ghost predicate HasBinding(rs: seq<Resource>) {
    exists i :: 0 <= i < |rs| && IsServiceBinding(rs[i])
  }

  ghost predicate AnyBinding(m: Message) {
    HasBinding(m.answers) || HasBinding(m.authorities) || HasBinding(m.additionals)
  }

  /** A section without its service-binding records, in order. */
  function Kept(rs: seq<Resource>): seq<Resource> {
    if rs == [] then []
    else if IsServiceBinding(rs[|rs| - 1]) then Kept(rs[..|rs| - 1])
    else Kept(rs[..|rs| - 1]) + [rs[|rs| - 1]]
  }

  /** Whether one record can be put into the rebuilt message: its body has a case, and
      the builder accepts it. */
  predicate CanReadd(r: Resource, builderAccepts: Resource -> bool) {
    !r.body.Unhandled? && builderAccepts(r)
  }

  ghost predicate CanRebuild(rs: seq<Resource>, builderAccepts: Resource -> bool) {
    forall i :: 0 <= i < |rs| && !IsServiceBinding(rs[i]) ==> CanReadd(rs[i], builderAccepts)
  }

  ghost predicate CanRebuildAll(m: Message, builderAccepts: Resource -> bool) {
    && CanRebuild(m.answers, builderAccepts) && CanRebuild(m.authorities, builderAccepts)
    && CanRebuild(m.additionals, builderAccepts)
  }

  method ReaddResource(built: seq<Resource>, r: Resource, builderAccepts: Resource -> bool)
    returns (ok: bool, built': seq<Resource>)
    ensures ok <==> CanReadd(r, builderAccepts)
    ensures built' == if ok then built + [r] else built
  {
    match r.body {
      case Unhandled(_) => return false, built;
      case _ =>
        if builderAccepts(r) {
          return true, built + [r];
        }
        return false, built;
    }
  }

  lemma {:induction false} TakeOne(rs: seq<Resource>, i: nat, builderAccepts: Resource -> bool)
    requires i < |rs|
    ensures Kept(rs[..i + 1]) == if IsServiceBinding(rs[i]) then Kept(rs[..i]) else Kept(rs[..i]) + [rs[i]]
    ensures CanRebuild(rs[..i], builderAccepts) && (IsServiceBinding(rs[i]) || CanReadd(rs[i], builderAccepts)) ==>
      CanRebuild(rs[..i + 1], builderAccepts)
  {
    assert rs[..i + 1][..i] == rs[..i];
  }

  method RebuildSection(rs: seq<Resource>, builderAccepts: Resource -> bool)
    returns (ok: bool, built: seq<Resource>)
    ensures ok <==> CanRebuild(rs, builderAccepts)
    ensures ok ==> built == Kept(rs)
  {
    built := [];
    for i := 0 to |rs|
      invariant built == Kept(rs[..i])
      invariant CanRebuild(rs[..i], builderAccepts)
    {
      TakeOne(rs, i, builderAccepts);
      if rs[i].rtype == TYPE_HTTPS || rs[i].rtype == TYPE_SVCB {
        continue;
      }
      ok, built := ReaddResource(built, rs[i], builderAccepts);
      if !ok {
        return;
      }
    }
    assert rs[..|rs|] == rs;
    ok := true;
  }

  /** The message with every service-binding record gone. */
  function Stripped(m: Message): Message {
    m.(answers := Kept(m.answers), authorities := Kept(m.authorities), additionals := Kept(m.additionals))
  }

  /** All or nothing: either every section loses exactly its service-binding records, or
      the response is returned as it came. The strip happens exactly when there is
      something to strip and every other record can be put back. */
  method StripEchRecords(w: Wire, builderAccepts: Resource -> bool) returns (out: Wire)
    ensures w.Parsed? && AnyBinding(w.message) && CanRebuildAll(w.message, builderAccepts) ==>
      out == Parsed(Stripped(w.message))
    ensures !(w.Parsed? && AnyBinding(w.message) && CanRebuildAll(w.message, builderAccepts)) ==> out == w
    ensures out == Strip(w, builderAccepts)
  {
    if w.Garbled? {
      return w;
    }
    var m := w.message;
    var inAnswers := ContainsServiceBinding(m.answers);
    var inAuthorities := ContainsServiceBinding(m.authorities);
    var inAdditionals := ContainsServiceBinding(m.additionals);
    if !inAnswers && !inAuthorities && !inAdditionals {
      return w;
    }
    var ok, answers := RebuildSection(m.answers, builderAccepts);
    if !ok {
      return w;
    }
    var authorities;
    ok, authorities := RebuildSection(m.authorities, builderAccepts);
    if !ok {
      return w;
    }
    var additionals;
    ok, additionals := RebuildSection(m.additionals, builderAccepts);
    if !ok {
      return w;
    }
    return Parsed(Message(m.header, m.questions, answers, authorities, additionals));
  }

  ghost function Strip(w: Wire, builderAccepts: Resource -> bool): Wire {
    if w.Parsed? && AnyBinding(w.message) && CanRebuildAll(w.message, builderAccepts)
    then Parsed(Stripped(w.message)) else w
  }

  lemma {:induction false} KeptHasNoBinding(rs: seq<Resource>)
    ensures !HasBinding(Kept(rs))
    decreases |rs|
  {
    if rs != [] {
      KeptHasNoBinding(rs[..|rs| - 1]);
    }
  }

  /** Stripping twice is stripping once. */
  lemma {:induction false} StripIdempotent(w: Wire, builderAccepts: Resource -> bool)
    ensures Strip(Strip(w, builderAccepts), builderAccepts) == Strip(w, builderAccepts)
  {
    if w.Parsed? {
      KeptHasNoBinding(w.message.answers);
      KeptHasNoBinding(w.message.authorities);
      KeptHasNoBinding(w.message.additionals);
    }
  }

  // ---- What the name cache sees -------------------------------------------

  datatype Put = Put(host: string, address: seq<nat>, ttl: nat)

  /** The parser gives an A body to type 1 and an AAAA body to type 28, and only there. */
  predicate WellTyped(r: Resource) {
    (r.rtype == 1 <==> r.body.A?) && (r.rtype == 28 <==> r.body.AAAA?)
  }

  predicate AllTyped(rs: seq<Resource>) {
    forall i :: 0 <= i < |rs| ==> WellTyped(rs[i])
  }

  function Answers(w: Wire): seq<Resource> {
    if w.Parsed? then w.message.answers else w.readable
  }

  function PutsFor(qname: string, rs: seq<Resource>): seq<Put> {
    if rs == [] then []
    else
      var last := rs[|rs| - 1];
      PutsFor(qname, rs[..|rs| - 1]) + match last.body
        case A(ip) => [Put(qname, ip, last.ttl)]
        case AAAA(ip) => [Put(qname, ip, last.ttl)]
        case _ => []
  }

  /** What the cache is told, answer by answer: `at` picks out, in order, exactly the answers of
      type 1 and type 28, and each put carries the queried name, that answer's own address and
      its own lifetime. */
  ghost predicate PutsOf(at: seq<nat>, qname: string, rs: seq<Resource>, puts: seq<Put>) {
    && |at| == |puts|
    && (forall i :: 0 <= i < |at| ==> at[i] < |rs| && PutFor(qname, rs[at[i]], puts[i]))
    && (forall i, j :: 0 <= i < j < |at| ==> at[i] < at[j])
    && (forall k: nat :: k < |rs| ==> (k in at <==> rs[k].rtype == 1 || rs[k].rtype == 28))
  }

  predicate PutFor(qname: string, r: Resource, put: Put) {
    && put.host == qname && put.ttl == r.ttl
    && (r.rtype == 1 ==> r.body == A(put.address)) && (r.rtype == 28 ==> r.body == AAAA(put.address))
  }

  lemma {:induction false} PutsOfMore(
      at: seq<nat>, qname: string, rs: seq<Resource>, puts: seq<Put>, r: Resource, put: Put)
    requires PutsOf(at, qname, rs, puts)
    ensures r.rtype != 1 && r.rtype != 28 ==> PutsOf(at, qname, rs + [r], puts)
    ensures (r.rtype == 1 || r.rtype == 28) && PutFor(qname, r, put) ==>
      PutsOf(at + [|rs|], qname, rs + [r], puts + [put])
  {
    var all, at' := rs + [r], at + [|rs|];
    assert |rs| !in at;
    forall k: nat | k < |all| ensures k in at' <==> k in at || k == |rs| {
    }
  }

  method CacheDnsAnswers(qname: string, w: Wire) returns (puts: seq<Put>)
    requires AllTyped(Answers(w))
    ensures exists at :: PutsOf(at, qname, Answers(w), puts)
  {
    puts := [];
    ghost var at: seq<nat> := [];
    var rs := Answers(w);
    for i := 0 to |rs|
      invariant PutsOf(at, qname, rs[..i], puts)
    {
      assert rs[..i + 1] == rs[..i] + [rs[i]];
      if rs[i].rtype == 1 {
        PutsOfMore(at, qname, rs[..i], puts, rs[i], Put(qname, rs[i].body.a, rs[i].ttl));
        puts, at := puts + [Put(qname, rs[i].body.a, rs[i].ttl)], at + [i];
      } else if rs[i].rtype == 28 {
        PutsOfMore(at, qname, rs[..i], puts, rs[i], Put(qname, rs[i].body.aaaa, rs[i].ttl));
        puts, at := puts + [Put(qname, rs[i].body.aaaa, rs[i].ttl)], at + [i];
      } else {
        PutsOfMore(at, qname, rs[..i], puts, rs[i], Put("", [], 0));
      }
    }
    assert rs[..|rs|] == rs;
  }

  lemma {:induction false} LastIsMost(at: seq<nat>)
    requires at != [] && forall i, j :: 0 <= i < j < |at| ==> at[i] < at[j]
    ensures forall k :: k in at ==> k <= at[|at| - 1]
    ensures forall k :: k in at[..|at| - 1] <==> k in at && k != at[|at| - 1]
  {
    var init := at[..|at| - 1];
    assert at == init + [at[|at| - 1]];
    assert forall i :: 0 <= i < |init| ==> init[i] == at[i];
  }

  lemma {:induction false} FirstIsIn(at: seq<nat>)
    ensures at == [] || at[0] in at
  {
  }

  lemma {:induction false} PutsOfTaken(at: seq<nat>, qname: string, rs: seq<Resource>, puts: seq<Put>)
    requires PutsOf(at, qname, rs, puts) && rs != []
    requires rs[|rs| - 1].rtype == 1 || rs[|rs| - 1].rtype == 28
    ensures at != [] && at[|at| - 1] == |rs| - 1
    ensures PutsOf(at[..|at| - 1], qname, rs[..|rs| - 1], puts[..|at| - 1])
  {
    assert |rs| - 1 in at;
    LastIsMost(at);
  }

  lemma {:induction false} PutsOfSkipped(at: seq<nat>, qname: string, rs: seq<Resource>, puts: seq<Put>)
    requires PutsOf(at, qname, rs, puts) && rs != []
    requires rs[|rs| - 1].rtype != 1 && rs[|rs| - 1].rtype != 28
    ensures PutsOf(at, qname, rs[..|rs| - 1], puts)
  {
    assert |rs| - 1 !in at;
    forall i | 0 <= i < |at| ensures at[i] < |rs| - 1 {
      assert at[i] in at;
    }
  }

  /** The description fixes the puts. */
  lemma {:induction false} PutsOfUnique(at: seq<nat>, qname: string, rs: seq<Resource>, puts: seq<Put>)
    requires AllTyped(rs) && PutsOf(at, qname, rs, puts)
    ensures puts == PutsFor(qname, rs)
    decreases |rs|
  {
    if rs == [] {
      PutsOfNone(at, qname, puts);
    } else {
      var n, last := |rs| - 1, |at| - 1;
      if rs[n].rtype == 1 || rs[n].rtype == 28 {
        PutsOfTaken(at, qname, rs, puts);
        PutsOfUnique(at[..last], qname, rs[..n], puts[..last]);
        LastPut(at, qname, rs, puts);
      } else {
        PutsOfSkipped(at, qname, rs, puts);
        PutsOfUnique(at, qname, rs[..n], puts);
        NoPut(qname, rs);
      }
    }
  }

  lemma {:induction false} PutsOfNone(at: seq<nat>, qname: string, puts: seq<Put>)
    requires PutsOf(at, qname, [], puts)
    ensures puts == []
  {
    FirstIsIn(at);
  }

  lemma {:induction false} LastPut(at: seq<nat>, qname: string, rs: seq<Resource>, puts: seq<Put>)
    requires PutsOf(at, qname, rs, puts) && rs != [] && WellTyped(rs[|rs| - 1])
    requires (rs[|rs| - 1].rtype == 1 || rs[|rs| - 1].rtype == 28) && at != [] && at[|at| - 1] == |rs| - 1
    requires puts[..|at| - 1] == PutsFor(qname, rs[..|rs| - 1])
    ensures puts == PutsFor(qname, rs)
  {
    var last := |at| - 1;
    assert PutFor(qname, rs[at[last]], puts[last]);
    assert puts == puts[..last] + [puts[last]];
  }

  lemma {:induction false} NoPut(qname: string, rs: seq<Resource>)
    requires rs != [] && WellTyped(rs[|rs| - 1]) && rs[|rs| - 1].rtype != 1 && rs[|rs| - 1].rtype != 28
    ensures PutsFor(qname, rs) == PutsFor(qname, rs[..|rs| - 1])
  {
    assert PutsFor(qname, rs[..|rs| - 1]) + [] == PutsFor(qname, rs[..|rs| - 1]);
  }

  lemma {:induction false} KeptPuts(qname: string, rs: seq<Resource>)
    requires AllTyped(rs)
    ensures PutsFor(qname, Kept(rs)) == PutsFor(qname, rs)
    decreases |rs|
  {
    if rs != [] {
      var init, last := rs[..|rs| - 1], rs[|rs| - 1];
      KeptPuts(qname, init);
      if IsServiceBinding(last) {
        assert PutsFor(qname, init) + [] == PutsFor(qname, init);
      } else {
        assert (Kept(init) + [last])[..|Kept(init)|] == Kept(init);
      }
    }
  }

  lemma {:induction false} KeptTyped(rs: seq<Resource>)
    requires AllTyped(rs)
    ensures AllTyped(Kept(rs))
    decreases |rs|
  {
    if rs != [] {
      KeptTyped(rs[..|rs| - 1]);
    }
  }

  /** Stripping never changes what the name cache learns: the same addresses are cached
      under the queried name, in the same order with the same lifetimes. */
  lemma {:induction false} StripKeepsPuts(qname: string, w: Wire, builderAccepts: Resource -> bool,
      at: seq<nat>, puts: seq<Put>, at': seq<nat>, puts': seq<Put>)
    requires AllTyped(Answers(w)) && PutsOf(at, qname, Answers(w), puts)
    requires PutsOf(at', qname, Answers(Strip(w, builderAccepts)), puts')
    ensures puts' == puts
  {
    StripTyped(w, builderAccepts);
    PutsOfUnique(at, qname, Answers(w), puts);
    PutsOfUnique(at', qname, Answers(Strip(w, builderAccepts)), puts');
    if w.Parsed? {
      KeptPuts(qname, w.message.answers);
    }
  }

  lemma {:induction false} StripTyped(w: Wire, builderAccepts: Resource -> bool)
    requires AllTyped(Answers(w))
    ensures AllTyped(Answers(Strip(w, builderAccepts)))
  {
    if w.Parsed? {
      KeptTyped(w.message.answers);
    }
  }

  /** `at` picks the kept records out of the section, in order, leaving out exactly the
      service-binding ones. */
  ghost predicate Selects(at: seq<nat>, rs: seq<Resource>, kept: seq<Resource>) {
    && |at| == |kept|
    && (forall i :: 0 <= i < |at| ==> at[i] < |rs| && kept[i] == rs[at[i]])
    && (forall i, j :: 0 <= i < j < |at| ==> at[i] < at[j])
    && (forall k: nat :: k < |rs| ==> (k in at <==> rs[k].rtype != 64 && rs[k].rtype != 65))
  }

  lemma {:induction false} SelectsMore(at: seq<nat>, rs: seq<Resource>, kept: seq<Resource>, r: Resource)
    requires Selects(at, rs, kept)
    ensures IsServiceBinding(r) ==> Selects(at, rs + [r], kept)
    ensures !IsServiceBinding(r) ==> Selects(at + [|rs|], rs + [r], kept + [r])
  {
    var all, at' := rs + [r], at + [|rs|];
    assert |rs| !in at;
    forall k: nat | k < |all| ensures k in at' <==> k in at || k == |rs| {
    }
  }

  /** The records that stay are an order-preserving selection of those that came. */
  lemma {:induction false} KeptInOrder(rs: seq<Resource>) returns (at: seq<nat>)
    ensures Selects(at, rs, Kept(rs))
    decreases |rs|
  {
    at := [];
    if rs != [] {
      var init, last := rs[..|rs| - 1], rs[|rs| - 1];
      at := KeptInOrder(init);
      SelectsMore(at, init, Kept(init), last);
      assert rs == init + [last];
      if !IsServiceBinding(last) {
        at := at + [|init|];
      }
    }
  }
}
