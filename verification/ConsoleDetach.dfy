/** Detaching while the sequence timer flushes: the shortcuts are looked for in each stretch
    of bytes between two flushes. */
module ConsoleDetach {
  import opened ByteStrings
  import opened ConsoleTokens
  import opened ConsoleInput

  /** The bytes read between flushes, where `open` has been read since the last one. */
  function Stretches(open: Bytes, events: seq<Event>): (r: seq<Bytes>)
    ensures r != []
    decreases |events|
  {
    if events == [] then [open]
    else
      match events[0]
      case Read(data) => Stretches(open + data, events[1..])
      case Flush => [open] + Stretches([], events[1..])
  }

  predicate Detaches(lex: Lexer, bytes: Bytes)
    requires Lawful(lex)
  {
    Filter(lex, INITIAL, bytes).detached
  }

  ghost predicate SomeDetaches(lex: Lexer, stretches: seq<Bytes>)
    requires Lawful(lex)
  {
    exists i :: 0 <= i < |stretches| && Detaches(lex, stretches[i])
  }

  lemma {:induction false} SomeCons(lex: Lexer, first: Bytes, rest: seq<Bytes>)
    requires Lawful(lex)
    ensures SomeDetaches(lex, [first] + rest) <==> Detaches(lex, first) || SomeDetaches(lex, rest)
  {
    var all := [first] + rest;
    if Detaches(lex, first) {
      assert Detaches(lex, all[0]);
    }
    if i :| 0 <= i < |rest| && Detaches(lex, rest[i]) {
      assert Detaches(lex, all[i + 1]);
    }
    if i :| 0 <= i < |all| && Detaches(lex, all[i]) {
      if i > 0 {
        assert Detaches(lex, rest[i - 1]);
      }
    }
  }

  /** A stretch that has detached stays one, however it goes on. */
  lemma {:induction false} StretchStaysDetached(lex: Lexer, open: Bytes, events: seq<Event>)
    requires Lawful(lex) && Stable(lex) && Detaches(lex, open)
    ensures SomeDetaches(lex, Stretches(open, events))
    decreases |events|
  {
    if events == [] {
      assert Detaches(lex, Stretches(open, events)[0]);
    } else {
      match events[0]
      case Read(data) =>
        FilterAppend(lex, INITIAL, open, data);
        StretchStaysDetached(lex, open + data, events[1..]);
      case Flush =>
        SomeCons(lex, open, Stretches([], events[1..]));
    }
  }

  /** The copy holds the state that the open stretch leads to. */
  ghost predicate Since(lex: Lexer, c: Copy, open: Bytes)
    requires Lawful(lex)
  {
    !c.detached && !Detaches(lex, open) && c.state == Filter(lex, INITIAL, open).state
  }

  lemma {:induction false} RunDetachesIff(lex: Lexer, c: Copy, open: Bytes, events: seq<Event>)
    requires Lawful(lex) && Stable(lex) && Since(lex, c, open)
    ensures CopyRun(lex, c, events).detached <==> SomeDetaches(lex, Stretches(open, events))
    decreases |events|
  {
    if events != [] {
      var next := CopyStep(lex, c, events[0]);
      match events[0]
      case Read(data) =>
        FilterAppend(lex, INITIAL, open, data);
        if next.detached {
          StretchStaysDetached(lex, open + data, events[1..]);
        } else {
          RunDetachesIff(lex, next, open + data, events[1..]);
        }
      case Flush =>
        FilterEmpty(lex, INITIAL);
        RunDetachesIff(lex, next, [], events[1..]);
        SomeCons(lex, open, Stretches([], events[1..]));
    }
  }

  /** The tokens of the bytes contain a detach shortcut. */
  ghost predicate HasShortcut(lex: Lexer, bytes: Bytes)
    requires Lawful(lex)
  {
    exists j: nat :: Shortcut(Tokenize(lex, bytes).list, j)
  }

  lemma {:induction false} DetachesIff(lex: Lexer, bytes: Bytes)
    requires Lawful(lex)
    ensures Detaches(lex, bytes) <==> HasShortcut(lex, bytes)
  {
    assert INITIAL.kittyPrefix + bytes == bytes;
    TokenizeWellFormed(lex, bytes);
    DetachLanguage(Tokenize(lex, bytes).list);
  }

  /** A run of reads and flushes detaches exactly when the tokens of some stretch between two
      flushes contain a shortcut. */
  lemma {:induction false} CopyDetachLanguage(lex: Lexer, events: seq<Event>)
    requires Lawful(lex) && Stable(lex)
    ensures CopyRun(lex, START, events).detached <==>
      exists i: nat :: i < |Stretches([], events)| && HasShortcut(lex, Stretches([], events)[i])
  {
    FilterEmpty(lex, INITIAL);
    RunDetachesIff(lex, START, [], events);
    var stretches := Stretches([], events);
    forall i: nat | i < |stretches| ensures Detaches(lex, stretches[i]) <==> HasShortcut(lex, stretches[i]) {
      DetachesIff(lex, stretches[i]);
    }
  }

  /** The same for the program's own lexer. */
  lemma {:induction false} ConsoleDetaches(events: seq<Event>)
    ensures Lawful(NextToken)
    ensures CopyRun(NextToken, START, events).detached <==>
      exists i: nat :: i < |Stretches([], events)| && HasShortcut(NextToken, Stretches([], events)[i])
  {
    NextTokenLawful();
    CopyDetachLanguage(NextToken, events);
  }
}
