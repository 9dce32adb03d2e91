/** The detach automaton of the console input filter and the loop that drives it.

    Everything here is proved for any lawful lexer, and so for the CSI-u lexer of
    ConsoleTokens, which is shown lawful there. */
module ConsoleInput {
  import opened Basics
  import opened ByteStrings
  import opened ConsoleTokens

  // ---- Splitting a stream into tokens -------------------------------------

  datatype Tokens = Tokens(list: seq<Token>, rest: Bytes)

  /** All decided tokens from the front, and the undecided bytes that remain. */
  function Tokenize(lex: Lexer, s: Bytes): Tokens
    requires Lawful(lex)
    decreases |s|
  {
    if s == [] then Tokens([], [])
    else
      match lex(s)
      case Incomplete => Tokens([], s)
      case Decided(t) =>
        var more := Tokenize(lex, s[|t.raw|..]);
        Tokens([t] + more.list, more.rest)
  }

  function Raw(tokens: seq<Token>): Bytes {
    if tokens == [] then [] else tokens[0].raw + Raw(tokens[1..])
  }

  lemma {:induction false} RawAppend(a: seq<Token>, b: seq<Token>)
    ensures Raw(a + b) == Raw(a) + Raw(b)
    decreases |a|
  {
    if a == [] {
      assert a + b == b;
    } else {
      assert (a + b)[1..] == a[1..] + b;
      RawAppend(a[1..], b);
    }
  }

  /** Undecided bytes: what a state may hold back for the next chunk. */
  predicate Undecided(lex: Lexer, s: Bytes) {
    s == [] || lex(s).Incomplete?
  }

  /** Tokens lose no byte. */
  lemma {:induction false} TokenizeConserves(lex: Lexer, s: Bytes)
    requires Lawful(lex)
    ensures Raw(Tokenize(lex, s).list) + Tokenize(lex, s).rest == s
    decreases |s|
  {
    if s != [] && lex(s).Decided? {
      var t := lex(s).token;
      var more := Tokenize(lex, s[|t.raw|..]);
      TokenizeConserves(lex, s[|t.raw|..]);
      RawCons(t, more.list);
      assert s == t.raw + (Raw(more.list) + more.rest);
    }
  }

  lemma {:induction false} RawCons(t: Token, tokens: seq<Token>)
    ensures Raw([t] + tokens) == t.raw + Raw(tokens)
  {
    assert ([t] + tokens)[1..] == tokens;
  }

  lemma {:induction false} TokenizeRest(lex: Lexer, s: Bytes)
    requires Lawful(lex)
    ensures Undecided(lex, Tokenize(lex, s).rest)
    decreases |s|
  {
    if s != [] && lex(s).Decided? {
      TokenizeRest(lex, s[|lex(s).token.raw|..]);
    }
  }

  /** Tokenizing in two parts: the second part starts from the undecided rest. */
  lemma {:induction false} TokenizeAppend(lex: Lexer, s: Bytes, t: Bytes)
    requires Lawful(lex) && Stable(lex)
    ensures var first := Tokenize(lex, s); var second := Tokenize(lex, first.rest + t);
      Tokenize(lex, s + t) == Tokens(first.list + second.list, second.rest)
    decreases |s|
  {
    if s == [] {
      assert s + t == t;
    } else if lex(s).Decided? {
      var first := lex(s).token;
      var more := Tokenize(lex, s[|first.raw|..]);
      TokenizeDecided(lex, s, t);
      TokenizeAppend(lex, s[|first.raw|..], t);
      var last := Tokenize(lex, more.rest + t);
      Assoc([first], more.list, last.list);
    }
  }

  lemma {:induction false} TokenizeDecided(lex: Lexer, s: Bytes, t: Bytes)
    requires Lawful(lex) && Stable(lex)
    requires s != [] && lex(s).Decided?
    ensures var first := lex(s).token; var more := Tokenize(lex, s[|first.raw|..] + t);
      Tokenize(lex, s + t) == Tokens([first] + more.list, more.rest)
  {
    var n := |lex(s).token.raw|;
    assert lex(s + t) == lex(s);
    assert (s + t)[n..] == s[n..] + t;
  }

  // ---- The detach automaton -----------------------------------------------

  predicate Press(t: Token, key: byte) { t.control && t.key == key }

  predicate Release(t: Token, key: byte) { t.release && t.key == key }

  /** Bytes passed on, a detach prefix held back, and whether to detach. */
  datatype Scan = Scan(out: Bytes, prefix: Bytes, detached: bool)

  function FeedOne(prefix: Bytes, t: Token): Scan {
    if prefix != [] && Press(t, KEY_Q) then Scan([], [], true)
    else if prefix != [] && Release(t, KEY_P) then Scan([], prefix + t.raw, false)
    else if Press(t, KEY_BRACKET) then Scan(prefix, [], true)
    else if Press(t, KEY_P) then Scan(prefix, t.raw, false)
    else Scan(prefix + t.raw, [], false)
  }

  function Feed(prefix: Bytes, tokens: seq<Token>): Scan
    decreases |tokens|
  {
    if tokens == [] then Scan([], prefix, false)
    else
      var first := FeedOne(prefix, tokens[0]);
      if first.detached then first
      else
        var more := Feed(first.prefix, tokens[1..]);
        more.(out := first.out + more.out)
  }

  lemma {:induction false} FeedAppend(prefix: Bytes, a: seq<Token>, b: seq<Token>)
    ensures var first := Feed(prefix, a);
      Feed(prefix, a + b)
        == if first.detached then first
           else var more := Feed(first.prefix, b); more.(out := first.out + more.out)
    decreases |a|
  {
    if a == [] {
      assert a + b == b;
    } else {
      assert (a + b)[0] == a[0] && (a + b)[1..] == a[1..] + b;
      FeedAppend(FeedOne(prefix, a[0]).prefix, a[1..], b);
    }
  }

  lemma {:induction false} FeedOneConserves(prefix: Bytes, t: Token)
    ensures var r := FeedOne(prefix, t);
      if r.detached then IsPrefix(r.out, prefix) && r.prefix == [] else r.out + r.prefix == prefix + t.raw
  {
  }

  /** Until detach every byte is either passed on or held back, in order. */
  lemma {:induction false} FeedConserves(prefix: Bytes, tokens: seq<Token>)
    requires !Feed(prefix, tokens).detached
    ensures Feed(prefix, tokens).out + Feed(prefix, tokens).prefix == prefix + Raw(tokens)
    decreases |tokens|
  {
    if tokens != [] {
      var first := FeedOne(prefix, tokens[0]);
      var more := Feed(first.prefix, tokens[1..]);
      FeedOneConserves(prefix, tokens[0]);
      FeedConserves(first.prefix, tokens[1..]);
      Regroup(first.out, more.out, more.prefix, first.prefix, Raw(tokens[1..]), prefix, tokens[0].raw);
    }
  }

  /** At detach the bytes passed on are a prefix of what came in. */
  lemma {:induction false} FeedDetachPrefix(prefix: Bytes, tokens: seq<Token>)
    requires Feed(prefix, tokens).detached
    ensures IsPrefix(Feed(prefix, tokens).out, prefix + Raw(tokens))
    ensures Feed(prefix, tokens).prefix == []
    decreases |tokens|
  {
    var first := FeedOne(prefix, tokens[0]);
    FeedOneConserves(prefix, tokens[0]);
    if first.detached {
      TakeAppend(prefix, Raw(tokens), |first.out|);
    } else {
      FeedDetachPrefix(first.prefix, tokens[1..]);
      var more := Feed(first.prefix, tokens[1..]);
      Assoc(prefix, tokens[0].raw, Raw(tokens[1..]));
      Assoc(first.out, first.prefix, Raw(tokens[1..]));
      PrefixUnderPrefix(first.out, more.out, first.prefix + Raw(tokens[1..]));
    }
  }

  lemma {:induction false} Regroup(a: Bytes, b: Bytes, c: Bytes, d: Bytes, e: Bytes, f: Bytes, g: Bytes)
    requires b + c == d + e && a + d == f + g
    ensures (a + b) + c == f + (g + e)
  {
    assert (a + b) + c == a + (b + c);
    assert a + (d + e) == (a + d) + e;
    assert (f + g) + e == f + (g + e);
  }

  // ---- The filter ---------------------------------------------------------

  datatype State = State(detachPrefix: Bytes, kittyPrefix: Bytes)

  const INITIAL: State := State([], [])

  predicate Valid(lex: Lexer, s: State) { Undecided(lex, s.kittyPrefix) }

  datatype Filtered = Filtered(out: Bytes, detached: bool, state: State)

  function Filter(lex: Lexer, s: State, chunk: Bytes): Filtered
    requires Lawful(lex)
  {
    var tokens := Tokenize(lex, s.kittyPrefix + chunk);
    var scan := Feed(s.detachPrefix, tokens.list);
    Filtered(scan.out, scan.detached, if scan.detached then INITIAL else State(scan.prefix, tokens.rest))
  }

  /** Feeding a list of chunks, stopping at detach. */
  function FilterAll(lex: Lexer, s: State, chunks: seq<Bytes>): Filtered
    requires Lawful(lex)
    decreases |chunks|
  {
    if chunks == [] then Filtered([], false, s)
    else
      var first := Filter(lex, s, chunks[0]);
      if first.detached then first
      else
        var more := FilterAll(lex, first.state, chunks[1..]);
        more.(out := first.out + more.out)
  }

  function Join(chunks: seq<Bytes>): Bytes {
    if chunks == [] then [] else chunks[0] + Join(chunks[1..])
  }

  lemma {:induction false} FilterAppend(lex: Lexer, s: State, a: Bytes, b: Bytes)
    requires Lawful(lex) && Stable(lex)
    ensures var first := Filter(lex, s, a);
      Filter(lex, s, a + b)
        == if first.detached then first
           else var more := Filter(lex, first.state, b); more.(out := first.out + more.out)
  {
    assert s.kittyPrefix + (a + b) == (s.kittyPrefix + a) + b;
    TokenizeAppend(lex, s.kittyPrefix + a, b);
    var first := Tokenize(lex, s.kittyPrefix + a);
    var second := Tokenize(lex, first.rest + b);
    FeedAppend(s.detachPrefix, first.list, second.list);
  }

  lemma {:induction false} FilterEmpty(lex: Lexer, s: State)
    requires Lawful(lex)
    requires Valid(lex, s)
    ensures Filter(lex, s, []) == Filtered([], false, s)
  {
    assert s.kittyPrefix + [] == s.kittyPrefix;
  }

  lemma {:induction false} FilterKeepsValid(lex: Lexer, s: State, chunk: Bytes)
    requires Lawful(lex)
    ensures Valid(lex, Filter(lex, s, chunk).state)
  {
    TokenizeRest(lex, s.kittyPrefix + chunk);
  }

  /** Chunk independence: however the reader cuts the bytes, the total output, the
      detach verdict and the final state are those of one call on the whole. */
  lemma {:induction false} ChunkIndependence(lex: Lexer, s: State, chunks: seq<Bytes>)
    requires Lawful(lex) && Stable(lex)
    requires Valid(lex, s)
    ensures FilterAll(lex, s, chunks) == Filter(lex, s, Join(chunks))
    decreases |chunks|
  {
    if chunks == [] {
      FilterEmpty(lex, s);
    } else {
      FilterKeepsValid(lex, s, chunks[0]);
      ChunkIndependence(lex, Filter(lex, s, chunks[0]).state, chunks[1..]);
      FilterAppend(lex, s, chunks[0], Join(chunks[1..]));
    }
  }

  // ---- The detach language ------------------------------------------------

  /** `tokens` ends in a Ctrl-P press at `i` followed only by releases of P. */
  predicate Armed(tokens: seq<Token>, i: nat) {
    && i < |tokens|
    && Press(tokens[i], KEY_P)
    && forall k :: i < k < |tokens| ==> Release(tokens[k], KEY_P)
  }

  /** The token at `j` completes a detach shortcut. */
  ghost predicate Shortcut(tokens: seq<Token>, j: nat) {
    && j < |tokens|
    && (|| Press(tokens[j], KEY_BRACKET)
        || (Press(tokens[j], KEY_Q) && exists i: nat :: Armed(tokens[..j], i)))
  }

  ghost predicate WellFormed(tokens: seq<Token>) {
    forall k :: 0 <= k < |tokens| ==> tokens[k].raw != [] && !(tokens[k].control && tokens[k].release)
  }

  lemma {:induction false} TokenizeWellFormed(lex: Lexer, s: Bytes)
    requires Lawful(lex)
    ensures WellFormed(Tokenize(lex, s).list)
    decreases |s|
  {
    if s != [] && lex(s).Decided? {
      TokenizeWellFormed(lex, s[|lex(s).token.raw|..]);
    }
  }

  lemma {:induction false} ArmedStep(init: seq<Token>, t: Token, i: nat)
    ensures Armed(init + [t], i)
      <==> (i == |init| && Press(t, KEY_P)) || (Armed(init, i) && Release(t, KEY_P))
  {
    var all := init + [t];
    if Armed(all, i) && i < |init| {
      forall k | i < k < |init| ensures Release(init[k], KEY_P) { assert all[k] == init[k]; }
      assert all[|init|] == t;
    }
  }

  lemma {:induction false} ShortcutStep(init: seq<Token>, t: Token, j: nat)
    ensures Shortcut(init + [t], j) <==> Shortcut(init, j) || (j == |init| && Shortcut(init + [t], |init|))
  {
    if j < |init| {
      assert (init + [t])[..j] == init[..j];
    }
  }

  /** What the automaton holds back, described by the tokens alone. */
  ghost predicate HoldsBack(tokens: seq<Token>, prefix: Bytes) {
    && (prefix != [] <==> exists i: nat :: Armed(tokens, i))
    && (forall i: nat :: Armed(tokens, i) ==> prefix == Raw(tokens[i..]))
  }

  lemma {:induction false} HoldsBackStep(init: seq<Token>, t: Token, prefix: Bytes)
    requires WellFormed(init + [t]) && HoldsBack(init, prefix)
    requires !FeedOne(prefix, t).detached
    ensures HoldsBack(init + [t], FeedOne(prefix, t).prefix)
  {
    var all := init + [t];
    assert all[|init|] == t;
    var r := FeedOne(prefix, t);
    forall i: nat | Armed(all, i) ensures r.prefix == Raw(all[i..]) && r.prefix != [] {
      ArmedStep(init, t, i);
      if i == |init| {
        assert all[i..] == [t];
        RawCons(t, []);
      } else {
        assert all[i..] == init[i..] + [t];
        RawAppend(init[i..], [t]);
        RawCons(t, []);
      }
    }
    if r.prefix != [] {
      if Press(t, KEY_P) {
        ArmedStep(init, t, |init|);
      } else {
        var i: nat :| Armed(init, i);
        ArmedStep(init, t, i);
      }
    }
  }

  /** The detach language: from a fresh start the automaton detaches exactly when the
      tokens contain Ctrl-], or a Ctrl-P press followed only by P releases and then
      Ctrl-Q; otherwise it holds back exactly an open Ctrl-P run. */
  lemma {:induction false} DetachLanguage(tokens: seq<Token>)
    requires WellFormed(tokens)
    ensures Feed([], tokens).detached <==> exists j: nat :: Shortcut(tokens, j)
    ensures !Feed([], tokens).detached ==> HoldsBack(tokens, Feed([], tokens).prefix)
    decreases |tokens|
  {
    if tokens == [] {
      assert forall i: nat :: !Armed(tokens, i);
    } else {
      var n := |tokens| - 1;
      var init, t := tokens[..n], tokens[n];
      assert tokens == init + [t];
      DetachLanguage(init);
      FeedAppend([], init, [t]);
      var before := Feed([], init);
      assert [t][1..] == [];
      assert Feed(before.prefix, [t]).prefix == FeedOne(before.prefix, t).prefix;
      if before.detached {
        var j: nat :| Shortcut(init, j);
        ShortcutStep(init, t, j);
      } else {
        LastShortcut(init, t, before.prefix);
        if !FeedOne(before.prefix, t).detached {
          HoldsBackStep(init, t, before.prefix);
        }
      }
    }
  }

  lemma {:induction false} LastShortcut(init: seq<Token>, t: Token, prefix: Bytes)
    requires HoldsBack(init, prefix) && (forall j: nat :: !Shortcut(init, j))
    requires WellFormed(init + [t])
    ensures FeedOne(prefix, t).detached <==> exists j: nat :: Shortcut(init + [t], j)
  {
    var all := init + [t];
    assert all[..|init|] == init && all[|init|] == t;
    forall j: nat ensures Shortcut(all, j) ==> j == |init| { ShortcutStep(init, t, j); }
    assert FeedOne(prefix, t).detached <==> Shortcut(all, |init|);
  }

  /** The same for the bytes themselves and any chunking of them. */
  lemma {:induction false} FilterDetachLanguage(lex: Lexer, chunks: seq<Bytes>)
    requires Lawful(lex) && Stable(lex)
    ensures FilterAll(lex, INITIAL, chunks).detached
      <==> exists j: nat :: Shortcut(Tokenize(lex, Join(chunks)).list, j)
  {
    ChunkIndependence(lex, INITIAL, chunks);
    assert [] + Join(chunks) == Join(chunks);
    TokenizeWellFormed(lex, Join(chunks));
    DetachLanguage(Tokenize(lex, Join(chunks)).list);
  }

  lemma {:induction false} QuietBefore(tokens: seq<Token>, j: nat)
    requires WellFormed(tokens) && j <= |tokens|
    requires forall k: nat :: k < j ==> !Shortcut(tokens, k)
    ensures !Feed([], tokens[..j]).detached && HoldsBack(tokens[..j], Feed([], tokens[..j]).prefix)
    ensures Feed([], tokens[..j]).out + Feed([], tokens[..j]).prefix == Raw(tokens[..j])
  {
    var init := tokens[..j];
    forall k: nat ensures !Shortcut(init, k) {
      if k < j {
        assert init[..k] == tokens[..k];
        assert !Shortcut(tokens, k);
      }
    }
    DetachLanguage(init);
    FeedConserves([], init);
    assert [] + Raw(init) == Raw(init);
  }

  lemma {:induction false} FeedStopsAt(tokens: seq<Token>, j: nat)
    requires j < |tokens| && !Feed([], tokens[..j]).detached
    requires FeedOne(Feed([], tokens[..j]).prefix, tokens[j]).detached
    ensures Feed([], tokens).out
      == Feed([], tokens[..j]).out + FeedOne(Feed([], tokens[..j]).prefix, tokens[j]).out
  {
    assert tokens == tokens[..j] + tokens[j..];
    FeedAppend([], tokens[..j], tokens[j..]);
  }

  /** What was passed on by the time the first shortcut completes at `j`: everything
      before a Ctrl-], and everything before the Ctrl-P that a Ctrl-Q completes. */
  lemma {:induction false} OutputAtDetach(tokens: seq<Token>, j: nat, i: nat)
    requires WellFormed(tokens)
    requires Shortcut(tokens, j) && forall k: nat :: k < j ==> !Shortcut(tokens, k)
    ensures Press(tokens[j], KEY_BRACKET) ==> Feed([], tokens).out == Raw(tokens[..j])
    ensures !Press(tokens[j], KEY_BRACKET) && Armed(tokens[..j], i) ==> Feed([], tokens).out == Raw(tokens[..i])
  {
    QuietBefore(tokens, j);
    FeedStopsAt(tokens, j);
    var before := Feed([], tokens[..j]);
    if Press(tokens[j], KEY_BRACKET) {
    } else if Armed(tokens[..j], i) {
      HeldBackSplit(tokens[..j], i, before.out, before.prefix);
      assert tokens[..j][..i] == tokens[..i];
      assert before.out + [] == before.out;
    }
  }

  lemma {:induction false} HeldBackSplit(init: seq<Token>, i: nat, out: Bytes, prefix: Bytes)
    requires i <= |init| && prefix == Raw(init[i..]) && out + prefix == Raw(init)
    ensures out == Raw(init[..i])
  {
    assert init == init[..i] + init[i..];
    RawAppend(init[..i], init[i..]);
    TakeAppend(out, prefix, |out|);
    TakeAppend(Raw(init[..i]), prefix, |out|);
  }

  // ---- The mutable state and the copy loop --------------------------------

  /** What the filter still does from the middle of a chunk, after `out`. */
  function After(out: Bytes, rest: Filtered): Filtered {
    rest.(out := out + rest.out)
  }

  lemma {:induction false} AfterAfter(a: Bytes, b: Bytes, rest: Filtered)
    ensures After(a, After(b, rest)) == After(a + b, rest)
  {
    Assoc(a, b, rest.out);
  }

  /** Held-back bytes act as if they had come at the front of the chunk. */
  lemma {:induction false} FilterCarries(lex: Lexer, s: State, input: Bytes)
    requires Lawful(lex)
    ensures Filter(lex, s, input) == After([], Filter(lex, State(s.detachPrefix, []), s.kittyPrefix + input))
  {
    assert [] + (s.kittyPrefix + input) == s.kittyPrefix + input;
    var f := Filter(lex, s, input);
    assert [] + f.out == f.out;
  }

  /** The filter taken one token at a time. */
  lemma {:induction false} FilterOneToken(lex: Lexer, prefix: Bytes, chunk: Bytes)
    requires Lawful(lex) && chunk != [] && lex(chunk).Decided?
    ensures var token := lex(chunk).token; var one := FeedOne(prefix, token);
      Filter(lex, State(prefix, []), chunk)
        == if one.detached then Filtered(one.out, true, INITIAL)
           else After(one.out, Filter(lex, State(one.prefix, []), chunk[|token.raw|..]))
  {
    var token := lex(chunk).token;
    var more := Tokenize(lex, chunk[|token.raw|..]);
    assert [] + chunk == chunk && [] + chunk[|token.raw|..] == chunk[|token.raw|..];
    assert ([token] + more.list)[1..] == more.list;
  }

  lemma {:induction false} FilterUndecided(lex: Lexer, prefix: Bytes, chunk: Bytes)
    requires Lawful(lex) && Undecided(lex, chunk)
    ensures Filter(lex, State(prefix, []), chunk) == Filtered([], false, State(prefix, chunk))
  {
    assert [] + chunk == chunk;
  }

  class ConsoleInputState {
    var detachPrefix: Bytes
    var kittyPrefix: Bytes

    ghost function View(): State
      reads this
    {
      State(detachPrefix, kittyPrefix)
    }

    constructor ()
      ensures View() == INITIAL
    {
      detachPrefix, kittyPrefix := [], [];
    }

    /** The loop body's treatment of one token. */
    method TakeToken(token: Token) returns (emitted: Bytes, detach: bool)
      modifies `detachPrefix
      ensures Scan(emitted, detachPrefix, detach) == FeedOne(old(detachPrefix), token)
    {
      emitted := [];
      if |detachPrefix| > 0 {
        if token.control && token.key == KEY_Q {
          detachPrefix := [];
          return emitted, true;
        }
        if token.release && token.key == KEY_P {
          detachPrefix := detachPrefix + token.raw;
          return emitted, false;
        }
        emitted := detachPrefix;
        detachPrefix := [];
      }
      if token.control && token.key == KEY_BRACKET {
        return emitted, true;
      }
      if token.control && token.key == KEY_P {
        detachPrefix := token.raw;
        return emitted, false;
      }
      emitted := emitted + token.raw;
      detach := false;
    }

    /** The source's loop over one chunk. */
    method FilterConsoleInput(lex: Lexer, input: Bytes) returns (out: Bytes, detach: bool)
      requires Lawful(lex)
      modifies this
      ensures Filtered(out, detach, View()) == Filter(lex, old(View()), input)
    {
      var chunk := input;
      if |kittyPrefix| > 0 {
        chunk := kittyPrefix + input;
        kittyPrefix := [];
      }
      assert chunk == old(kittyPrefix) + input;
      out, detach := [], false;
      ghost var expected := Filter(lex, old(View()), input);
      FilterCarries(lex, old(View()), input);
      while chunk != []
        invariant kittyPrefix == [] && !detach
        invariant expected == After(out, Filter(lex, State(detachPrefix, []), chunk))
        decreases |chunk|
      {
        var next := lex(chunk);
        if next.Incomplete? {
          FilterUndecided(lex, detachPrefix, chunk);
          kittyPrefix := chunk;
          return;
        }
        FilterOneToken(lex, detachPrefix, chunk);
        ghost var one := FeedOne(detachPrefix, next.token);
        chunk := chunk[|next.token.raw|..];
        AfterAfter(out, one.out, Filter(lex, State(one.prefix, []), chunk));
        var emitted;
        emitted, detach := TakeToken(next.token);
        out := out + emitted;
        if detach {
          return;
        }
      }
      FilterUndecided(lex, detachPrefix, []);
    }

    method Flush() returns (buffered: Bytes)
      modifies this
      ensures buffered == old(detachPrefix) + old(kittyPrefix)
      ensures View() == INITIAL
    {
      buffered := detachPrefix + kittyPrefix;
      detachPrefix, kittyPrefix := [], [];
    }
  }

  // ---- The read and timer loop --------------------------------------------

  /** What the loop's select can deliver. A flush is the sequence timer firing; it is
      allowed at any point, which covers every moment the timer could be armed. */
  datatype Event = Read(data: Bytes) | Flush

  datatype Copy = Copy(state: State, written: Bytes, detached: bool, timerArmed: bool)

  const START: Copy := Copy(INITIAL, [], false, false)

  function CopyStep(lex: Lexer, c: Copy, e: Event): Copy
    requires Lawful(lex)
  {
    match e
    case Read(data) =>
      var f := Filter(lex, c.state, data);
      Copy(f.state, c.written + f.out, f.detached, !f.detached && f.state.kittyPrefix != [])
    case Flush =>
      Copy(INITIAL, c.written + (c.state.detachPrefix + c.state.kittyPrefix), false, false)
  }

  function CopyRun(lex: Lexer, c: Copy, events: seq<Event>): Copy
    requires Lawful(lex)
    decreases |events|
  {
    if c.detached || events == [] then c else CopyRun(lex, CopyStep(lex, c, events[0]), events[1..])
  }

  function EventBytes(e: Event): Bytes {
    if e.Read? then e.data else []
  }

  function BytesRead(events: seq<Event>): Bytes {
    if events == [] then []
    else EventBytes(events[0]) + BytesRead(events[1..])
  }

  /** Until detach, the bytes passed on, then the held detach prefix, then the undecided
      bytes are exactly the bytes that came in, and fewer than 64 stay undecided; at
      detach the bytes passed on are a prefix of those that came in. */
  ghost predicate Accounts(out: Bytes, detached: bool, state: State, input: Bytes) {
    if detached then IsPrefix(out, input)
    else out + (state.detachPrefix + state.kittyPrefix) == input && |state.kittyPrefix| < 64
  }

  lemma {:induction false} AccountsTokens(prefix: Bytes, tokens: Tokens, input: Bytes)
    requires Raw(tokens.list) + tokens.rest == input && |tokens.rest| < 64
    ensures var r := Feed(prefix, tokens.list);
      Accounts(r.out, r.detached, State(r.prefix, tokens.rest), prefix + input)
  {
    var r := Feed(prefix, tokens.list);
    Assoc(prefix, Raw(tokens.list), tokens.rest);
    if r.detached {
      FeedDetachPrefix(prefix, tokens.list);
      TakeAppend(prefix + Raw(tokens.list), tokens.rest, |r.out|);
    } else {
      FeedConserves(prefix, tokens.list);
      Assoc(r.out, r.prefix, tokens.rest);
    }
  }

  lemma {:induction false} FilterAccounts(lex: Lexer, s: State, chunk: Bytes)
    requires Lawful(lex)
    ensures var f := Filter(lex, s, chunk);
      Accounts(f.out, f.detached, f.state, s.detachPrefix + (s.kittyPrefix + chunk))
  {
    var input := s.kittyPrefix + chunk;
    TokenizeConserves(lex, input);
    TokenizeRest(lex, input);
    AccountsTokens(s.detachPrefix, Tokenize(lex, input), input);
  }

  /** Accounting for a second stretch of input on top of a first. */
  lemma {:induction false} AccountsThen(written: Bytes, s: State, read: Bytes, f: Filtered, data: Bytes)
    requires Accounts(written, false, s, read)
    requires Accounts(f.out, f.detached, f.state, s.detachPrefix + (s.kittyPrefix + data))
    ensures Accounts(written + f.out, f.detached, f.state, read + data)
  {
    Assoc(s.detachPrefix, s.kittyPrefix, data);
    Assoc(written, s.detachPrefix + s.kittyPrefix, data);
    if f.detached {
      PrefixUnderPrefix(written, f.out, s.detachPrefix + (s.kittyPrefix + data));
    } else {
      Assoc(written, f.out, f.state.detachPrefix + f.state.kittyPrefix);
    }
  }

  lemma {:induction false} PrefixUnderPrefix(a: Bytes, b: Bytes, c: Bytes)
    requires IsPrefix(b, c)
    ensures IsPrefix(a + b, a + c)
  {
    assert a + c == (a + b) + c[|b|..];
    TakeAppend(a + b, c[|b|..], |a + b|);
  }

  lemma {:induction false} CopyStepAccounts(lex: Lexer, c: Copy, e: Event, read: Bytes)
    requires Lawful(lex) && !c.detached && Accounts(c.written, false, c.state, read)
    ensures var d := CopyStep(lex, c, e); Accounts(d.written, d.detached, d.state, read + EventBytes(e))
  {
    match e
    case Read(data) =>
      FilterAccounts(lex, c.state, data);
      AccountsThen(c.written, c.state, read, Filter(lex, c.state, data), data);
    case Flush =>
      assert read + [] == read;
  }

  /** Byte conservation over every run of reads and timer flushes. */
  lemma {:induction false} ByteConservation(lex: Lexer, c: Copy, events: seq<Event>, read: Bytes)
    requires Lawful(lex) && Accounts(c.written, c.detached, c.state, read)
    ensures var d := CopyRun(lex, c, events); Accounts(d.written, d.detached, d.state, read + BytesRead(events))
    decreases |events|
  {
    if c.detached {
      TakeAppend(read, BytesRead(events), |c.written|);
    } else if events == [] {
      assert read + [] == read;
    } else {
      CopyStepAccounts(lex, c, events[0], read);
      ByteConservation(lex, CopyStep(lex, c, events[0]), events[1..], read + EventBytes(events[0]));
      Assoc(read, EventBytes(events[0]), BytesRead(events[1..]));
    }
  }

  lemma {:induction false} CopyRunSnoc(lex: Lexer, c: Copy, events: seq<Event>, e: Event)
    requires Lawful(lex)
    ensures CopyRun(lex, c, events + [e])
      == if CopyRun(lex, c, events).detached then CopyRun(lex, c, events) else CopyStep(lex, CopyRun(lex, c, events), e)
    decreases |events|
  {
    if events == [] {
      assert [e][1..] == [];
    } else if !c.detached {
      assert (events + [e])[1..] == events[1..] + [e];
      CopyRunSnoc(lex, CopyStep(lex, c, events[0]), events[1..], e);
    }
  }

  /** The copy loop on a raw shell channel, fed by the given events and then end of
      input: it writes every byte read unless the user detached, and then a prefix. */
  method CopyShellInput(lex: Lexer, events: seq<Event>) returns (written: Bytes, detached: bool)
    requires Lawful(lex)
    ensures detached == CopyRun(lex, START, events).detached
    ensures detached ==> written == CopyRun(lex, START, events).written && IsPrefix(written, BytesRead(events))
    ensures !detached ==> written == BytesRead(events)
  {
    var state := new ConsoleInputState();
    written, detached := [], false;
    var timerArmed := false;
    var i := 0;
    while i < |events|
      invariant 0 <= i <= |events|
      invariant CopyRun(lex, START, events[..i]) == Copy(state.View(), written, false, timerArmed)
      invariant !detached
    {
      CopyRunSnoc(lex, START, events[..i], events[i]);
      assert events[..i + 1] == events[..i] + [events[i]];
      match events[i] {
        case Read(data) =>
          var filtered;
          filtered, detached := state.FilterConsoleInput(lex, data);
          written := written + filtered;
          timerArmed := !detached && |state.kittyPrefix| > 0;
        case Flush =>
          timerArmed := false;
          var buffered := state.Flush();
          written := written + buffered;
      }
      i := i + 1;
      if detached {
        break;
      }
    }
    ByteConservation(lex, START, events, []);
    assert [] + BytesRead(events) == BytesRead(events);
    if detached {
      CopyRunStops(lex, START, events[..i], events[i..]);
      assert events[..i] + events[i..] == events;
      return;
    }
    assert events[..i] == events;
    var rest := state.Flush();
    written := written + rest;
  }

  lemma {:induction false} CopyRunStops(lex: Lexer, c: Copy, a: seq<Event>, b: seq<Event>)
    requires Lawful(lex)
    requires CopyRun(lex, c, a).detached
    ensures CopyRun(lex, c, a + b) == CopyRun(lex, c, a)
    decreases |a|
  {
    if !c.detached {
      assert (a + b)[1..] == a[1..] + b;
      CopyRunStops(lex, CopyStep(lex, c, a[0]), a[1..], b);
    }
  }

  /** The theorems above for the source's own lexer. */
  lemma {:induction false} ConsoleFilter(chunks: seq<Bytes>)
    ensures Lawful(NextToken)
      && FilterAll(NextToken, INITIAL, chunks) == Filter(NextToken, INITIAL, Join(chunks))
      && (FilterAll(NextToken, INITIAL, chunks).detached
          <==> exists j: nat :: Shortcut(Tokenize(NextToken, Join(chunks)).list, j))
  {
    NextTokenLawful();
    ChunkIndependence(NextToken, INITIAL, chunks);
    FilterDetachLanguage(NextToken, chunks);
  }
}
