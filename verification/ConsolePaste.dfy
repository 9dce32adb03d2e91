/** The console channel takes bracketed-paste markers out of what it writes, write by write, and
    turns line feeds into carriage returns. A marker cut in two by a write boundary survives,
    so the outcome can depend on where the writes were cut. */
module ConsolePaste {
  import opened Basics
  import opened ByteStrings
  import opened ConsoleTokens
  import opened ConsoleInput

  const MARKER_LENGTH: nat := 6
  const PASTE_START: Bytes := [0x1b, 0x5b, 0x32, 0x30, 0x30, 0x7e] // ESC [ 2 0 0 ~
  const PASTE_END: Bytes := [0x1b, 0x5b, 0x32, 0x30, 0x31, 0x7e]   // ESC [ 2 0 1 ~

  predicate IsMarker(m: Bytes) {
    |m| == MARKER_LENGTH && m[0] == ESC && forall i :: 1 <= i < MARKER_LENGTH ==> m[i] != ESC
  }

  /** Without any occurrence of `m`, looking from the left. */
  function Remove(m: Bytes, s: Bytes): Bytes {
    if |s| < MARKER_LENGTH then s
    else if s[..MARKER_LENGTH] == m then Remove(m, s[MARKER_LENGTH..])
    else [s[0]] + Remove(m, s[1..])
  }

  function Strip(s: Bytes): Bytes { Remove(PASTE_END, Remove(PASTE_START, s)) }

  // ---- One marker and one boundary ----------------------------------------

  /** The last `k` bytes of `a` and the first bytes of `b` are `m`. */
  predicate StraddlesAt(m: Bytes, a: Bytes, b: Bytes, k: nat) {
    && 0 < k < MARKER_LENGTH && k <= |a| && MARKER_LENGTH - k <= |b|
    && a[|a| - k..] + b[..MARKER_LENGTH - k] == m
  }

  ghost predicate Straddles(m: Bytes, a: Bytes, b: Bytes) {
    exists k: nat :: StraddlesAt(m, a, b, k)
  }

  lemma {:induction false} StraddleLater(m: Bytes, a: Bytes, b: Bytes, n: nat)
    requires n <= |a| && !Straddles(m, a, b)
    ensures !Straddles(m, a[n..], b)
  {
    forall k: nat ensures !StraddlesAt(m, a[n..], b, k) {
      if StraddlesAt(m, a[n..], b, k) {
        assert a[n..][|a[n..]| - k..] == a[|a| - k..];
        assert StraddlesAt(m, a, b, k);
      }
    }
  }

  /** Where no marker straddles the boundary, the two sides can be treated apart. */
  lemma {:induction false} RemoveClear(m: Bytes, a: Bytes, b: Bytes)
    requires IsMarker(m) && !Straddles(m, a, b)
    ensures Remove(m, a + b) == Remove(m, a) + Remove(m, b)
    decreases |a|
  {
    var s := a + b;
    if a == [] {
      assert s == b && Remove(m, a) == [];
    } else if |a| >= MARKER_LENGTH && a[..MARKER_LENGTH] == m {
      assert s[..MARKER_LENGTH] == m && s[MARKER_LENGTH..] == a[MARKER_LENGTH..] + b;
      StraddleLater(m, a, b, MARKER_LENGTH);
      RemoveClear(m, a[MARKER_LENGTH..], b);
    } else if |s| < MARKER_LENGTH {
    } else {
      StraddleLater(m, a, b, 1);
      RemoveClear(m, a[1..], b);
      NotAtFront(m, a, b);
      assert s[1..] == a[1..] + b;
      RemoveFirst(m, a);
    }
  }

  lemma {:induction false} NotAtFront(m: Bytes, a: Bytes, b: Bytes)
    requires IsMarker(m) && !Straddles(m, a, b) && a != [] && |a + b| >= MARKER_LENGTH
    requires !(|a| >= MARKER_LENGTH && a[..MARKER_LENGTH] == m)
    ensures (a + b)[..MARKER_LENGTH] != m
  {
    if |a| >= MARKER_LENGTH {
      assert (a + b)[..MARKER_LENGTH] == a[..MARKER_LENGTH];
    } else {
      assert (a + b)[..MARKER_LENGTH] == a + b[..MARKER_LENGTH - |a|];
      assert a[|a| - |a|..] == a;
      assert !StraddlesAt(m, a, b, |a|);
    }
  }

  lemma {:induction false} RemoveFirst(m: Bytes, a: Bytes)
    requires a != [] && !(|a| >= MARKER_LENGTH && a[..MARKER_LENGTH] == m)
    ensures Remove(m, a) == [a[0]] + Remove(m, a[1..])
  {
    if |a| < MARKER_LENGTH {
      assert a == [a[0]] + a[1..];
    }
  }

  lemma {:induction false} StraddleBytes(m: Bytes, a: Bytes, b: Bytes, k: nat)
    requires StraddlesAt(m, a, b, k)
    ensures |m| == MARKER_LENGTH && m[0] in a && m[0] == a[|a| - k] && m[k] == b[0]
  {
    var left, right := a[|a| - k..], b[..MARKER_LENGTH - k];
    assert m[0] == (left + right)[0] && m[k] == (left + right)[k];
  }

  /** No marker straddles a boundary that an escape byte follows. */
  lemma {:induction false} ClearBeforeEsc(m: Bytes, a: Bytes, b: Bytes)
    requires IsMarker(m) && (b != [] ==> b[0] == ESC)
    ensures !Straddles(m, a, b)
  {
    forall k: nat ensures !StraddlesAt(m, a, b, k) {
      if StraddlesAt(m, a, b, k) {
        StraddleBytes(m, a, b, k);
      }
    }
  }

  /** Nor one that bytes without an escape come before, if a marker would have to start in them. */
  lemma {:induction false} ClearAfterPlain(m: Bytes, p: Bytes, b: Bytes)
    requires IsMarker(m) && ESC !in p
    ensures !Straddles(m, p, b)
  {
    forall k: nat ensures !StraddlesAt(m, p, b, k) {
      if StraddlesAt(m, p, b, k) {
        StraddleBytes(m, p, b, k);
      }
    }
  }

  lemma {:induction false} RemoveWhole(m: Bytes, s: Bytes)
    requires IsMarker(m)
    ensures Remove(m, m + s) == Remove(m, s)
  {
    assert (m + s)[..MARKER_LENGTH] == m && (m + s)[MARKER_LENGTH..] == s;
  }

  /** Bytes that start with an escape and are shorter than a marker stay, after anything. */
  lemma {:induction false} RemoveBeforeStart(m: Bytes, a: Bytes, p: Bytes)
    requires IsMarker(m) && 0 < |p| < MARKER_LENGTH && p[0] == ESC
    ensures Remove(m, a + p) == Remove(m, a) + p
  {
    ClearBeforeEsc(m, a, p);
    RemoveClear(m, a, p);
  }

  /** Bytes without an escape that are shorter than a marker stay, before anything. */
  lemma {:induction false} RemoveAfterEnd(m: Bytes, p: Bytes, b: Bytes)
    requires IsMarker(m) && |p| < MARKER_LENGTH && ESC !in p
    ensures Remove(m, p + b) == p + Remove(m, b)
  {
    ClearAfterPlain(m, p, b);
    RemoveClear(m, p, b);
  }

  lemma {:induction false} MarkerParts(m: Bytes, p: Bytes, q: Bytes)
    requires IsMarker(m) && 0 < |p| < MARKER_LENGTH && p + q == m
    ensures p[0] == ESC && ESC !in q && |q| < MARKER_LENGTH
  {
    assert p[0] == m[0];
    forall i | 0 <= i < |q| ensures q[i] != ESC {
      assert q[i] == m[|p| + i];
    }
  }

  lemma {:induction false} RemoveMiddle(m: Bytes, x: Bytes, y: Bytes)
    requires IsMarker(m)
    ensures Remove(m, x + (m + y)) == Remove(m, x) + Remove(m, y)
  {
    assert (m + y)[0] == ESC;
    ClearBeforeEsc(m, x, m + y);
    RemoveClear(m, x, m + y);
    RemoveWhole(m, y);
  }

  /** The two sides of a straddling marker: what is before it, its parts, and what is after. */
  lemma {:induction false} RemoveStraddling(m: Bytes, x: Bytes, p: Bytes, q: Bytes, y: Bytes)
    requires IsMarker(m) && 0 < |p| < MARKER_LENGTH && p + q == m
    ensures p[0] == ESC && ESC !in q && |q| < MARKER_LENGTH
    ensures Remove(m, x + p) == Remove(m, x) + p && Remove(m, q + y) == q + Remove(m, y)
    ensures Remove(m, (x + p) + (q + y)) == Remove(m, x) + Remove(m, y)
  {
    MarkerParts(m, p, q);
    RemoveBeforeStart(m, x, p);
    RemoveAfterEnd(m, q, y);
    Assoc(x, p, q + y);
    Assoc(p, q, y);
    RemoveMiddle(m, x, y);
  }

  lemma {:induction false} StraddlingParts(m: Bytes, a: Bytes, b: Bytes)
      returns (x: Bytes, p: Bytes, q: Bytes, y: Bytes)
    requires IsMarker(m) && Straddles(m, a, b)
    ensures 0 < |p| < MARKER_LENGTH && p + q == m && a == x + p && b == q + y
  {
    var k: nat :| StraddlesAt(m, a, b, k);
    x, p := a[..|a| - k], a[|a| - k..];
    q, y := b[..MARKER_LENGTH - k], b[MARKER_LENGTH - k..];
  }

  /** Taking one marker out of a whole leaves no more than taking it out of the parts, and less
      exactly when one straddles the boundary. */
  lemma {:induction false} RemoveSize(m: Bytes, a: Bytes, b: Bytes)
    requires IsMarker(m)
    ensures |Remove(m, a + b)| <= |Remove(m, a)| + |Remove(m, b)|
    ensures |Remove(m, a + b)| == |Remove(m, a)| + |Remove(m, b)| <==> !Straddles(m, a, b)
  {
    if Straddles(m, a, b) {
      var x, p, q, y := StraddlingParts(m, a, b);
      RemoveStraddling(m, x, p, q, y);
    } else {
      RemoveClear(m, a, b);
    }
  }

  // ---- Both markers -------------------------------------------------------

  lemma {:induction false} Markers()
    ensures IsMarker(PASTE_START) && IsMarker(PASTE_END)
  {
  }

  /** No start marker straddles the boundary, and no end marker does once the start markers are
      out on either side. */
  ghost predicate Clear(a: Bytes, b: Bytes) {
    && !Straddles(PASTE_START, a, b)
    && !Straddles(PASTE_END, Remove(PASTE_START, a), Remove(PASTE_START, b))
  }

  lemma {:induction false} StripStraddlingStart(a: Bytes, b: Bytes)
    requires Straddles(PASTE_START, a, b)
    ensures |Strip(a + b)| < |Strip(a)| + |Strip(b)|
  {
    Markers();
    var x, p, q, y := StraddlingParts(PASTE_START, a, b);
    RemoveStraddling(PASTE_START, x, p, q, y);
    var x', y' := Remove(PASTE_START, x), Remove(PASTE_START, y);
    RemoveBeforeStart(PASTE_END, x', p);
    RemoveAfterEnd(PASTE_END, q, y');
    RemoveSize(PASTE_END, x', y');
  }

  /** Stripping two writes apart leaves no less than stripping them together, and the same
      exactly when the boundary is clear. */
  lemma {:induction false} StripApartIff(a: Bytes, b: Bytes)
    ensures |Strip(a + b)| <= |Strip(a)| + |Strip(b)|
    ensures |Strip(a + b)| == |Strip(a)| + |Strip(b)| <==> Clear(a, b)
    ensures Clear(a, b) ==> Strip(a + b) == Strip(a) + Strip(b)
  {
    Markers();
    if Straddles(PASTE_START, a, b) {
      StripStraddlingStart(a, b);
    } else {
      RemoveClear(PASTE_START, a, b);
      RemoveSize(PASTE_END, Remove(PASTE_START, a), Remove(PASTE_START, b));
      if Clear(a, b) {
        RemoveClear(PASTE_END, Remove(PASTE_START, a), Remove(PASTE_START, b));
      }
    }
  }

  /** A paste between its two markers, written out, loses the markers and nothing else. */
  lemma {:induction false} PasteWrittenOut(pasted: Bytes, rest: Bytes)
    requires 0x1b !in pasted
    ensures var start, end := [0x1b, 0x5b, 0x32, 0x30, 0x30, 0x7e], [0x1b, 0x5b, 0x32, 0x30, 0x31, 0x7e];
      Strip(start + (pasted + (end + rest))) == pasted + Strip(rest)
  {
    Markers();
    var tail := PASTE_END + rest;
    RemoveWhole(PASTE_START, pasted + tail);
    PlainThen(PASTE_START, pasted, tail);
    EndIsNoStart(rest);
    PlainThen(PASTE_END, pasted, PASTE_END + Remove(PASTE_START, rest));
    RemoveWhole(PASTE_END, Remove(PASTE_START, rest));
  }

  lemma {:induction false} PlainThen(m: Bytes, p: Bytes, b: Bytes)
    requires IsMarker(m) && ESC !in p
    ensures Remove(m, p + b) == p + Remove(m, b)
  {
    ClearAfterPlain(m, p, b);
    RemoveClear(m, p, b);
    PlainStays(m, p);
  }

  lemma {:induction false} PlainStays(m: Bytes, p: Bytes)
    requires IsMarker(m) && ESC !in p
    ensures Remove(m, p) == p
    decreases |p|
  {
    if p != [] {
      assert p[0] in p;
      RemoveFirst(m, p);
      PlainStays(m, p[1..]);
    }
  }

  lemma {:induction false} EndIsNoStart(rest: Bytes)
    ensures Remove(PASTE_START, PASTE_END + rest) == PASTE_END + Remove(PASTE_START, rest)
  {
    Markers();
    var tail := PASTE_END[1..];
    assert PASTE_END == [ESC] + tail && PASTE_END + rest == [ESC] + (tail + rest);
    assert (PASTE_END + rest)[4] == 0x31;
    RemoveFirst(PASTE_START, PASTE_END + rest);
    PlainThen(PASTE_START, tail, rest);
  }

  // ---- Any number of writes -----------------------------------------------

  function StripEach(writes: seq<Bytes>): Bytes {
    if writes == [] then [] else Strip(writes[0]) + StripEach(writes[1..])
  }

  /** Every boundary between writes is clear, counting all that follows it. */
  ghost predicate AllClear(writes: seq<Bytes>) {
    writes == [] || (Clear(writes[0], Join(writes[1..])) && AllClear(writes[1..]))
  }

  lemma {:induction false} StripEachSize(writes: seq<Bytes>)
    ensures |Strip(Join(writes))| <= |StripEach(writes)|
    ensures |Strip(Join(writes))| == |StripEach(writes)| <==> AllClear(writes)
    ensures AllClear(writes) ==> Strip(Join(writes)) == StripEach(writes)
    decreases |writes|
  {
    if writes != [] {
      StripEachSize(writes[1..]);
      StripApartIff(writes[0], Join(writes[1..]));
    }
  }

  // ---- The console channel ------------------------------------------------

  /** Line feeds become carriage returns. */
  function Returns(s: Bytes): (r: Bytes)
    ensures |r| == |s|
    ensures forall i :: 0 <= i < |s| ==> r[i] == if s[i] == 0x0a then 0x0d else s[i]
  {
    if s == [] then [] else [if s[0] == 0x0a then 0x0d else s[0]] + Returns(s[1..])
  }

  /** What reaches the console when the writes are treated one by one. */
  function ConsoleOutput(writes: seq<Bytes>): Bytes {
    if writes == [] then [] else Returns(Strip(writes[0])) + ConsoleOutput(writes[1..])
  }

  lemma {:induction false} ReturnsEach(writes: seq<Bytes>)
    ensures ConsoleOutput(writes) == Returns(StripEach(writes))
    decreases |writes|
  {
    if writes != [] {
      ReturnsEach(writes[1..]);
    }
  }

  /** The console gets what treating all bytes at once would give exactly when every write
      boundary is clear. */
  lemma {:induction false} ConsoleOutputIff(writes: seq<Bytes>)
    ensures ConsoleOutput(writes) == Returns(Strip(Join(writes))) <==> AllClear(writes)
  {
    ReturnsEach(writes);
    StripEachSize(writes);
  }

  /** The writes the copy loop makes from a given point. */
  function Writes(lex: Lexer, c: Copy, events: seq<Event>): seq<Bytes>
    requires Lawful(lex)
    decreases |events|
  {
    if c.detached || events == [] then []
    else
      var next := CopyStep(lex, c, events[0]);
      [WrittenBy(lex, c, events[0])] + Writes(lex, next, events[1..])
  }

  function WrittenBy(lex: Lexer, c: Copy, e: Event): Bytes
    requires Lawful(lex)
  {
    if e.Read? then Filter(lex, c.state, e.data).out else c.state.detachPrefix + c.state.kittyPrefix
  }

  lemma {:induction false} WritesJoin(lex: Lexer, c: Copy, events: seq<Event>)
    requires Lawful(lex)
    ensures CopyRun(lex, c, events).written == c.written + Join(Writes(lex, c, events))
    decreases |events|
  {
    if c.detached || events == [] {
      assert c.written + [] == c.written;
    } else {
      var next, w := CopyStep(lex, c, events[0]), WrittenBy(lex, c, events[0]);
      WritesJoin(lex, next, events[1..]);
      assert ([w] + Writes(lex, next, events[1..]))[1..] == Writes(lex, next, events[1..]);
      Assoc(c.written, w, Join(Writes(lex, next, events[1..])));
    }
  }

  /** Over every run of reads and timer flushes, the console channel gets the raw channel's
      bytes with all paste markers out and line feeds turned exactly when every boundary between
      the writes is clear. */
  lemma {:induction false} ConsoleChannelIff(lex: Lexer, events: seq<Event>)
    requires Lawful(lex)
    ensures ConsoleOutput(Writes(lex, START, events)) == Returns(Strip(CopyRun(lex, START, events).written)) <==>
      AllClear(Writes(lex, START, events))
  {
    var writes := Writes(lex, START, events);
    WritesJoin(lex, START, events);
    assert START.written + Join(writes) == Join(writes);
    ConsoleOutputIff(writes);
  }

  /** Two writes whose boundary is not clear: the first holds a start marker inside a cut end
      marker. Apart they leave an end marker behind, and together nothing. */
  lemma {:induction false} CutMarkerSurvives()
    ensures var a, b := [0x1b, 0x5b, 0x32] + PASTE_START, [0x30, 0x31, 0x7e];
      StripEach([a, b]) == PASTE_END && Strip(a + b) == []
  {
    var head, b: Bytes := [0x1b, 0x5b, 0x32], [0x30, 0x31, 0x7e];
    var a := head + PASTE_START;
    Markers();
    assert PASTE_START + [] == PASTE_START;
    RemoveWhole(PASTE_START, []);
    ClearBeforeEsc(PASTE_START, head, PASTE_START);
    RemoveClear(PASTE_START, head, PASTE_START);
    assert Strip(a) == head;
    assert [a, b][1..] == [b] && [b][1..] == [];
    assert Strip(b) == b && StripEach([b]) == b + [];
    assert head + b == PASTE_END;
    assert a + b == head + (PASTE_START + b);
    ClearBeforeEsc(PASTE_START, head, PASTE_START + b);
    RemoveClear(PASTE_START, head, PASTE_START + b);
    RemoveWhole(PASTE_START, b);
    assert PASTE_END + [] == PASTE_END;
    RemoveWhole(PASTE_END, []);
  }
}
