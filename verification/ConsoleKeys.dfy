/** The bytes that make up keys, written out: legacy control bytes, and CSI-u key events by a
    grammar of their own. The lexer of ConsoleTokens is shown to recognise exactly these. */
module ConsoleKeys {
  import opened Basics
  import opened ByteStrings
  import opened ConsoleTokens
  import opened ConsoleInput

  // ---- Single bytes -------------------------------------------------------

  /** The three legacy bytes are Ctrl presses of `]`, `p` and `q`, and every other byte that
      starts no escape sequence is a token of its own with no key, whatever follows. */
  lemma {:induction false} LegacyBytes(rest: Bytes, other: byte)
    requires other !in {0x1b, 0x1d, 0x10, 0x11}
    ensures NextToken([0x1d] + rest) == Decided(Token([0x1d], 0x5d, true, false))
    ensures NextToken([0x10] + rest) == Decided(Token([0x10], 0x70, true, false))
    ensures NextToken([0x11] + rest) == Decided(Token([0x11], 0x71, true, false))
    ensures NextToken([other] + rest) == Decided(Token([other], 0, false, false))
  {
    assert ([0x1d] + rest)[..1] == [0x1d] && ([0x10] + rest)[..1] == [0x10] && ([0x11] + rest)[..1] == [0x11];
    assert ([other] + rest)[..1] == [other];
  }

  // ---- The grammar of key events ------------------------------------------

  /** Further parts of a field: nothing, or a colon and then digits and colons. */
  ghost predicate Parts(s: Bytes) {
    s == [] || (s[0] == 0x3a && forall i :: 0 <= i < |s| ==> 0x30 <= s[i] <= 0x3a)
  }

  /** Further fields: nothing, or a semicolon and then digits, colons and semicolons. */
  ghost predicate More(s: Bytes) {
    s == [] || (s[0] == 0x3b && forall i :: 0 <= i < |s| ==> 0x30 <= s[i] <= 0x3b)
  }

  /** A key event: key and modifiers, each with further parts, and further fields. */
  datatype Event = Event(
    key: Bytes, keyParts: Bytes, modifiers: Bytes, kind: Option<Bytes>, kindParts: Bytes, more: Bytes)

  ghost predicate WellFormed(e: Event) {
    && Numeral(e.key) && Value(e.key) <= 255 && Parts(e.keyParts)
    && Numeral(e.modifiers) && 1 <= Value(e.modifiers) <= 0x7fff_ffff_ffff_ffff
    && (e.kind.None? ==> e.kindParts == [])
    && (e.kind.Some? ==> Numeral(e.kind.value) && 1 <= Value(e.kind.value) <= 3)
    && Parts(e.kindParts) && More(e.more)
  }

  function KindText(e: Event): Bytes {
    if e.kind.Some? then [0x3a] + e.kind.value + e.kindParts else []
  }

  function ModifiersText(e: Event): Bytes { e.modifiers + KindText(e) }

  function KeyText(e: Event): Bytes { e.key + e.keyParts }

  function BodyText(e: Event): Bytes { KeyText(e) + ([0x3b] + (ModifiersText(e) + e.more)) }

  /** ESC [ key ; modifiers ... u */
  function Spelled(e: Event): Bytes { [0x1b, 0x5b] + BodyText(e) + [0x75] }

  ghost predicate IsRelease(e: Event)
    requires WellFormed(e)
  {
    e.kind.Some? && Value(e.kind.value) == 3
  }

  /** The modifiers are one more than a sum of powers of two, of which Ctrl is four. */
  ghost predicate HasCtrl(e: Event)
    requires WellFormed(e)
  {
    Ctrl(Value(e.modifiers))
  }

  /** `n` is one more than eights, a four, and less than four. */
  ghost predicate Ctrl(n: nat) { exists eights: nat, rest: nat :: SumsTo(n, eights, rest) }

  predicate SumsTo(n: nat, eights: nat, rest: nat) { rest < 4 && n == 1 + (8 * eights + 4 + rest) }

  /** The token of a key event. A release is never a Ctrl press. */
  ghost function TokenOf(e: Event): Token
    requires WellFormed(e)
  {
    Token(Spelled(e), Value(e.key) as byte, HasCtrl(e) && !IsRelease(e), IsRelease(e))
  }

  // ---- The same texts to the parser ---------------------------------------

  lemma {:induction false} AtoiIff(s: Bytes, v: nat)
    ensures Atoi(s) == Some(v) <==> Numeral(s) && Value(s) == v <= 0x7fff_ffff_ffff_ffff
  {
    if Atoi(s).Some? {
      DigitsAreNumeral(s);
      NumeralParses(s);
    } else if Numeral(s) {
      NumeralParses(s);
    }
  }

  lemma {:induction false} BodyBytes(s: Bytes)
    ensures AllBody(s) <==> forall i :: 0 <= i < |s| ==> 0x30 <= s[i] <= 0x3b
    decreases |s|
  {
    if s != [] {
      BodyBytes(s[1..]);
      assert forall i :: 0 < i < |s| ==> s[i] == s[1..][i - 1];
      if forall i :: 0 <= i < |s| ==> 0x30 <= s[i] <= 0x3b {
        assert IsBody(s[0]);
        forall i | 0 <= i < |s[1..]| ensures 0x30 <= s[1..][i] <= 0x3b {
          assert s[1..][i] == s[i + 1];
        }
      }
    }
  }

  lemma {:induction false} NoByteIff(s: Bytes, b: byte)
    ensures IndexByte(s, b) < 0 <==> b !in s
    decreases |s|
  {
    if s != [] {
      NoByteIff(s[1..], b);
      assert b in s <==> s[0] == b || b in s[1..];
    }
  }

  /** Cutting at the first separator, and putting the pieces together again. */
  lemma {:induction false} CutFront(a: Bytes, sep: byte, x: Bytes)
    requires sep !in a && (x == [] || x[0] == sep)
    ensures Cut(a + x, sep) == (a, if x == [] then None else Some(x[1..]))
  {
    NoByteIff(a, sep);
    if x == [] {
      assert a + x == a;
    } else {
      assert a + x == a + [sep] + x[1..];
      CutAt(a, sep, x[1..]);
    }
  }

  lemma {:induction false} IndexByteIs(s: Bytes, b: byte)
    requires IndexByte(s, b) >= 0
    ensures s[IndexByte(s, b)] == b && b !in s[..IndexByte(s, b)]
    decreases |s|
  {
    if s[0] != b {
      IndexByteIs(s[1..], b);
      var i := IndexByte(s, b);
      assert s[..i] == [s[0]] + s[1..][..i - 1];
    }
  }

  lemma {:induction false} CutSplit(s: Bytes, sep: byte) returns (x: Bytes)
    ensures var (a, b) := Cut(s, sep);
      && sep !in a && s == a + x
      && (b.None? ==> x == []) && (b.Some? ==> x == [sep] + b.value)
  {
    var i := IndexByte(s, sep);
    if i < 0 {
      NoByteIff(s, sep);
      x := [];
    } else {
      IndexByteIs(s, sep);
      x := s[i..];
      assert s[i..] == [sep] + s[i + 1..];
    }
  }

  // ---- Spelled events are recognised --------------------------------------

  lemma {:induction false} ControlBitIff(n: nat)
    requires n >= 1
    ensures ControlBit(n) <==> Ctrl(n)
  {
    var q := (n - 1) / 4;
    if ControlBit(n) {
      assert SumsTo(n, q / 2, (n - 1) - 4 * q);
    }
    if eights: nat, rest: nat :| SumsTo(n, eights, rest) {
      FourthBit(n, eights, rest);
    }
  }

  lemma {:induction false} FourthBit(n: nat, eights: nat, rest: nat)
    requires SumsTo(n, eights, rest)
    ensures ControlBit(n)
  {
    var q := (n - 1) / 4;
    assert 4 * q <= n - 1 < 4 * q + 4;
    assert q == 2 * eights + 1;
  }

  ghost function KeyOf(e: Event): Key
    requires WellFormed(e)
  {
    Key(Value(e.key) as byte, HasCtrl(e) && !IsRelease(e), IsRelease(e))
  }

  lemma {:induction false} NumeralHasNone(s: Bytes)
    requires Numeral(s)
    ensures 0x3a !in s && 0x3b !in s
  {
  }

  /** The field "modifiers : kind ..." cut at its colons. */
  lemma {:induction false} ModifiersCut(e: Event)
    requires WellFormed(e)
    ensures Cut(ModifiersText(e), COLON) ==
      (e.modifiers, if e.kind.None? then None else Some(e.kind.value + e.kindParts))
    ensures e.kind.Some? ==> Cut(e.kind.value + e.kindParts, COLON).0 == e.kind.value
  {
    NumeralHasNone(e.modifiers);
    CutFront(e.modifiers, COLON, KindText(e));
    if e.kind.Some? {
      NumeralHasNone(e.kind.value);
      assert KindText(e)[1..] == e.kind.value + e.kindParts;
      CutFront(e.kind.value, COLON, e.kindParts);
    }
  }

  lemma {:induction false} WithoutKind(code: byte, field: Bytes, modifiers: Bytes, m: nat)
    requires Cut(field, COLON) == (modifiers, None) && Atoi(modifiers) == Some(m) && 1 <= m
    ensures ParseModifiers(code, field) == Some(Key(code, Ctrl(m), false))
  {
    ControlBitIff(m);
  }

  lemma {:induction false} WithKind(
      code: byte, field: Bytes, modifiers: Bytes, m: nat, rest: Bytes, kind: Bytes, k: nat)
    requires Cut(field, COLON) == (modifiers, Some(rest)) && Cut(rest, COLON).0 == kind
    requires Atoi(modifiers) == Some(m) && 1 <= m && Atoi(kind) == Some(k) && 1 <= k <= 3
    ensures ParseModifiers(code, field) == Some(Key(code, Ctrl(m) && k != 3, k == 3))
  {
    ControlBitIff(m);
  }

  lemma {:induction false} SpelledWithKind(e: Event, code: byte)
    requires WellFormed(e) && e.kind.Some?
    ensures ParseModifiers(code, ModifiersText(e))
      == Some(Key(code, Ctrl(Value(e.modifiers)) && Value(e.kind.value) != 3, Value(e.kind.value) == 3))
  {
    ModifiersCut(e);
    AtoiIff(e.modifiers, Value(e.modifiers));
    AtoiIff(e.kind.value, Value(e.kind.value));
    WithKind(code, ModifiersText(e), e.modifiers, Value(e.modifiers), e.kind.value + e.kindParts,
             e.kind.value, Value(e.kind.value));
  }

  lemma {:induction false} SpelledWithoutKind(e: Event, code: byte)
    requires WellFormed(e) && e.kind.None?
    ensures ParseModifiers(code, ModifiersText(e)) == Some(Key(code, Ctrl(Value(e.modifiers)), false))
  {
    ModifiersCut(e);
    AtoiIff(e.modifiers, Value(e.modifiers));
    WithoutKind(code, ModifiersText(e), e.modifiers, Value(e.modifiers));
  }

  lemma {:induction false} ModifiersSpelled(e: Event)
    requires WellFormed(e)
    ensures ParseModifiers(Value(e.key) as byte, ModifiersText(e)) == Some(KeyOf(e))
  {
    if e.kind.Some? {
      SpelledWithKind(e, Value(e.key) as byte);
    } else {
      SpelledWithoutKind(e, Value(e.key) as byte);
    }
  }

  lemma {:induction false} TextBytes(e: Event)
    requires WellFormed(e)
    ensures 0x3b !in KeyText(e) && 0x3b !in ModifiersText(e) && AllBody(BodyText(e))
  {
    var key, mods := KeyText(e), ModifiersText(e);
    assert forall i :: 0 <= i < |key| ==> 0x30 <= key[i] <= 0x3a;
    assert forall i :: 0 <= i < |KindText(e)| ==> 0x30 <= KindText(e)[i] <= 0x3a;
    assert forall i :: 0 <= i < |mods| ==> 0x30 <= mods[i] <= 0x3a;
    BodyBytes(key);
    BodyBytes(mods);
    BodyBytes(e.more);
    AllBodyAppend(mods, e.more);
    AllBodyAppend([0x3b], mods + e.more);
    AllBodyAppend(key, [0x3b] + (mods + e.more));
  }

  /** The body cut at its semicolons, and the key field at its colons. */
  lemma {:induction false} BodyCut(e: Event)
    requires WellFormed(e)
    ensures Cut(BodyText(e), SEMICOLON) == (KeyText(e), Some(ModifiersText(e) + e.more))
    ensures Cut(ModifiersText(e) + e.more, SEMICOLON).0 == ModifiersText(e) && Cut(KeyText(e), COLON).0 == e.key
  {
    TextBytes(e);
    NumeralHasNone(e.key);
    var tail := ModifiersText(e) + e.more;
    CutFront(KeyText(e), SEMICOLON, [0x3b] + tail);
    assert ([0x3b] + tail)[1..] == tail;
    CutFront(ModifiersText(e), SEMICOLON, e.more);
    CutFront(e.key, COLON, e.keyParts);
  }

  lemma {:induction false} BodySpelled(e: Event)
    requires WellFormed(e)
    ensures AllBody(BodyText(e)) && ParseBody(BodyText(e)) == Some(KeyOf(e))
  {
    TextBytes(e);
    BodyCut(e);
    AtoiIff(e.key, Value(e.key));
    ModifiersSpelled(e);
  }

  /** Every spelled key event of at most 64 bytes is one token, whatever follows. */
  lemma {:induction false} EventRecognised(e: Event, rest: Bytes)
    requires WellFormed(e) && |Spelled(e)| <= 64
    ensures NextToken(Spelled(e) + rest) == Decided(TokenOf(e))
  {
    BodySpelled(e);
    ParsedBodyRecognised(BodyText(e), KeyOf(e), rest);
  }

  // ---- Nothing else is ----------------------------------------------------

  ghost predicate InBody(s: Bytes) { forall i :: 0 <= i < |s| ==> 0x30 <= s[i] <= 0x3b }

  lemma {:induction false} KeyRead(field: Bytes) returns (key: Bytes, parts: Bytes)
    requires InBody(field) && 0x3b !in field && Atoi(Cut(field, COLON).0).Some?
    ensures field == key + parts && Numeral(key) && Parts(parts)
    ensures Atoi(key) == Atoi(Cut(field, COLON).0) == Some(Value(key))
  {
    parts := CutSplit(field, COLON);
    key := Cut(field, COLON).0;
    AtoiIff(key, Atoi(key).value);
    PartsOf(key, parts);
  }

  lemma {:induction false} PartsOf(key: Bytes, parts: Bytes)
    requires InBody(key + parts) && 0x3b !in key + parts
    ensures forall i :: 0 <= i < |parts| ==> 0x30 <= parts[i] <= 0x3a
  {
    var field := key + parts;
    forall i | 0 <= i < |parts| ensures 0x30 <= parts[i] <= 0x3a {
      assert parts[i] == field[|key| + i] && field[|key| + i] in field;
    }
  }

  lemma {:induction false} KindBytes(modifiers: Bytes, rest: Bytes, field: Bytes)
    requires InBody(field) && 0x3b !in field && field == modifiers + ([0x3a] + rest)
    ensures InBody(rest) && 0x3b !in rest
  {
    forall i | 0 <= i < |rest| ensures 0x30 <= rest[i] <= 0x3b && rest[i] != 0x3b {
      assert rest[i] == field[|modifiers| + 1 + i] && field[|modifiers| + 1 + i] in field;
    }
  }

  lemma {:induction false} ModifiersRead(code: byte, field: Bytes)
      returns (modifiers: Bytes, kind: Option<Bytes>, parts: Bytes)
    requires InBody(field) && 0x3b !in field && ParseModifiers(code, field).Some?
    ensures field == modifiers + (if kind.Some? then [0x3a] + kind.value + parts else [])
    ensures Numeral(modifiers) && 1 <= Value(modifiers) <= 0x7fff_ffff_ffff_ffff && Parts(parts)
    ensures kind.None? ==> parts == []
    ensures kind.Some? ==> Numeral(kind.value) && 1 <= Value(kind.value) <= 3
  {
    var x := CutSplit(field, COLON);
    modifiers := Cut(field, COLON).0;
    AtoiIff(modifiers, Atoi(modifiers).value);
    kind, parts := None, [];
    if Cut(field, COLON).1.Some? {
      var rest := Cut(field, COLON).1.value;
      assert x == [0x3a] + rest;
      KindBytes(modifiers, rest, field);
      var event;
      event, parts := KeyRead(rest);
      kind := Some(event);
      assert [0x3a] + (event + parts) == [0x3a] + event + parts;
    }
  }

  lemma {:induction false} BodyRead(body: Bytes) returns (e: Event)
    requires ParseBody(body).Some?
    ensures WellFormed(e) && BodyText(e) == body
  {
    BodyBytes(body);
    var x := CutSplit(body, SEMICOLON);
    var keyField, tail := Cut(body, SEMICOLON).0, Cut(body, SEMICOLON).1.value;
    assert x == [0x3b] + tail;
    Inside(body, keyField, tail);
    var key, keyParts := KeyRead(keyField);
    var modifiers, kind, kindParts, more := TailRead(Value(key) as byte, tail);
    e := Event(key, keyParts, modifiers, kind, kindParts, more);
  }

  lemma {:induction false} TailRead(code: byte, tail: Bytes)
      returns (modifiers: Bytes, kind: Option<Bytes>, parts: Bytes, more: Bytes)
    requires InBody(tail) && ParseModifiers(code, Cut(tail, SEMICOLON).0).Some?
    ensures tail == (modifiers + (if kind.Some? then [0x3a] + kind.value + parts else [])) + more && More(more)
    ensures Numeral(modifiers) && 1 <= Value(modifiers) <= 0x7fff_ffff_ffff_ffff && Parts(parts)
    ensures kind.None? ==> parts == []
    ensures kind.Some? ==> Numeral(kind.value) && 1 <= Value(kind.value) <= 3
  {
    more := CutSplit(tail, SEMICOLON);
    var field := Cut(tail, SEMICOLON).0;
    assert forall i :: 0 <= i < |field| ==> field[i] == tail[i];
    assert forall i :: 0 <= i < |more| ==> more[i] == tail[|field| + i];
    modifiers, kind, parts := ModifiersRead(code, field);
  }

  lemma {:induction false} Inside(body: Bytes, keyField: Bytes, tail: Bytes)
    requires body == keyField + ([0x3b] + tail) && InBody(body)
    ensures InBody(keyField) && InBody(tail)
  {
    forall i | 0 <= i < |keyField| ensures 0x30 <= keyField[i] <= 0x3b {
      assert keyField[i] == body[i];
    }
    forall i | 0 <= i < |tail| ensures 0x30 <= tail[i] <= 0x3b {
      assert tail[i] == body[|keyField| + 1 + i];
    }
  }

  lemma {:induction false} KittySplit(input: Bytes) returns (body: Bytes)
    requires ParseKittyKey(input).Some?
    ensures var (key, n) := ParseKittyKey(input).value;
      && n == |body| + 3 <= 64 && ParseBody(body) == Some(key)
      && input[..n] == [0x1b, 0x5b] + body + [0x75]
  {
    var window := Window(input);
    var end := IndexByte(window, FINAL);
    IndexByteIs(window, FINAL);
    body := window[..end];
    WindowSlice(input, end);
    ThreeParts(input, end);
  }

  lemma {:induction false} WindowSlice(input: Bytes, end: nat)
    requires |input| >= 2 && end < |Window(input)|
    ensures end + 2 < |input| && end + 2 < 64
    ensures Window(input)[..end] == input[2..end + 2] && Window(input)[end] == input[end + 2]
  {
  }

  lemma {:induction false} ThreeParts(input: Bytes, end: nat)
    requires end + 2 < |input| && input[0] == 0x1b && input[1] == 0x5b && input[end + 2] == 0x75
    ensures input[..end + 3] == [0x1b, 0x5b] + input[2..end + 2] + [0x75]
  {
  }

  /** A token of more than one byte is a spelled key event of at most 64 bytes. */
  lemma {:induction false} LongTokenIsEvent(input: Bytes) returns (e: Event)
    requires NextToken(input).Decided? && |NextToken(input).token.raw| > 1
    ensures WellFormed(e) && |Spelled(e)| <= 64
    ensures NextToken(input) == Decided(TokenOf(e)) && IsPrefix(Spelled(e), input)
  {
    var body := KittySplit(input);
    e := BodyRead(body);
    BodySpelled(e);
  }

  /** Input is undecided exactly when it is empty, or is an escape byte, and then `[`, and then
      only digits, colons and semicolons, and has fewer than 64 bytes. */
  lemma {:induction false} UndecidedIff(input: Bytes)
    ensures NextToken(input).Incomplete? <==>
      || input == []
      || (&& input[0] == 0x1b && |input| < 64 && (|input| >= 2 ==> input[1] == 0x5b)
          && forall i :: 2 <= i < |input| ==> 0x30 <= input[i] <= 0x3b)
  {
    if input != [] && input[0] == 0x1b && |input| < 64 && (|input| >= 2 ==> input[1] == 0x5b) && |input| >= 2 {
      var window := Window(input);
      assert window == input[2..];
      BodyBytes(window);
      WindowBytes(input);
      if AllBody(window) {
        BodyHasNoFinal(window);
      }
    }
  }

  lemma {:induction false} WindowBytes(input: Bytes)
    requires |input| >= 2
    ensures InBody(input[2..]) <==> forall i :: 2 <= i < |input| ==> 0x30 <= input[i] <= 0x3b
  {
    if InBody(input[2..]) {
      forall i | 2 <= i < |input| ensures 0x30 <= input[i] <= 0x3b {
        assert input[i] == input[2..][i - 2];
      }
    }
  }

  // ---- The shortcuts, however they are typed ------------------------------

  /** One way to press Ctrl and a key: the legacy byte, or any key event that says so. */
  datatype Stroke = Legacy | Kitty(event: Event)

  ghost predicate Types(t: Stroke, key: byte) {
    t.Kitty? ==>
      && WellFormed(t.event) && |Spelled(t.event)| <= 64
      && Value(t.event.key) == key as nat && HasCtrl(t.event) && !IsRelease(t.event)
  }

  function Text(t: Stroke, legacy: byte): Bytes { if t.Kitty? then Spelled(t.event) else [legacy] }

  /** The legacy byte of each shortcut key. */
  function LegacyByte(key: byte): byte {
    if key == 0x5d then 0x1d else if key == 0x70 then 0x10 else 0x11
  }

  lemma {:induction false} StrokeToken(t: Stroke, key: byte, rest: Bytes)
    requires Types(t, key) && key in {0x5d, 0x70, 0x71}
    ensures NextToken(Text(t, LegacyByte(key)) + rest) == Decided(Token(Text(t, LegacyByte(key)), key, true, false))
  {
    if t.Kitty? {
      EventRecognised(t.event, rest);
    } else {
      LegacyBytes(rest, 0);
    }
  }

  lemma {:induction false} StrokeFirst(t: Stroke, key: byte, rest: Bytes)
    requires Types(t, key) && key in {0x5d, 0x70, 0x71} && Lawful(NextToken)
    ensures var text := Text(t, LegacyByte(key)); var more := Tokenize(NextToken, rest);
      Tokenize(NextToken, text + rest) == Tokens([Token(text, key, true, false)] + more.list, more.rest)
  {
    var text := Text(t, LegacyByte(key));
    StrokeToken(t, key, rest);
    assert text != [] && (text + rest)[|text|..] == rest;
  }

  /** Ctrl-] detaches, whether it comes as its legacy byte or as any key event for it, and
      whatever follows. */
  lemma {:induction false} BracketDetaches(t: Stroke, rest: Bytes)
    requires Types(t, 0x5d)
    ensures Lawful(NextToken)
    ensures Filter(NextToken, INITIAL, Text(t, 0x1d) + rest).detached
    ensures Filter(NextToken, INITIAL, Text(t, 0x1d) + rest).out == []
  {
    NextTokenLawful();
    var text := Text(t, 0x1d);
    StrokeFirst(t, 0x5d, rest);
    assert INITIAL.kittyPrefix + (text + rest) == text + rest;
    var tokens := [Token(text, 0x5d, true, false)] + Tokenize(NextToken, rest).list;
    assert tokens[0].key == 0x5d;
  }

  /** Ctrl-P and then Ctrl-Q detach, each as its legacy byte or as any key event for it. */
  lemma {:induction false} PrefixSuffixDetaches(p: Stroke, q: Stroke, rest: Bytes)
    requires Types(p, 0x70) && Types(q, 0x71)
    ensures Lawful(NextToken)
    ensures var input := Text(p, 0x10) + (Text(q, 0x11) + rest);
      Filter(NextToken, INITIAL, input).detached && Filter(NextToken, INITIAL, input).out == []
  {
    NextTokenLawful();
    var a, b := Text(p, 0x10), Text(q, 0x11);
    StrokeFirst(q, 0x71, rest);
    StrokeFirst(p, 0x70, b + rest);
    assert INITIAL.kittyPrefix + (a + (b + rest)) == a + (b + rest);
    FeedPrefixSuffix(a, b, Tokenize(NextToken, rest).list);
  }

  lemma {:induction false} FeedPrefixSuffix(a: Bytes, b: Bytes, more: seq<Token>)
    requires a != []
    ensures Feed([], [Token(a, 0x70, true, false)] + ([Token(b, 0x71, true, false)] + more)) == Scan([], [], true)
  {
    var p, q := Token(a, 0x70, true, false), [Token(b, 0x71, true, false)] + more;
    assert ([p] + q)[0] == p && ([p] + q)[1..] == q;
    assert FeedOne([], p) == Scan([], a, false);
    assert FeedOne(a, q[0]) == Scan([], [], true);
    assert Feed(a, q) == Scan([], [], true);
  }

  /** ESC [ key ; 5 u */
  function CtrlFive(key: Bytes): Event { Event(key, [], [0x35], None, [], []) }

  lemma {:induction false} FiveIsCtrl(key: Bytes)
    requires Numeral(key) && Value(key) <= 255 && |key| <= 3
    ensures WellFormed(CtrlFive(key)) && HasCtrl(CtrlFive(key)) && !IsRelease(CtrlFive(key))
    ensures Spelled(CtrlFive(key)) == [0x1b, 0x5b] + key + [0x3b, 0x35, 0x75]
  {
    assert [0x35][..0] == [] && Value([0x35]) == 5 && SumsTo(5, 0, 0);
    assert key + [] == key && [0x35] + [] == [0x35];
  }

  lemma {:induction false} OneHundred(d: byte)
    requires 0x30 <= d <= 0x39
    ensures Numeral([0x31, 0x31, d]) && Value([0x31, 0x31, d]) == 110 + (d - 0x30) as nat
  {
    assert [0x31, 0x31, d][..2] == [0x31, 0x31] && [0x31, 0x31][..1] == [0x31] && [0x31][..0] == [];
    assert Value([0x31]) == 1 && Value([0x31, 0x31]) == 11;
  }

  /** The legacy bytes written out. */
  lemma {:induction false} LegacyWrittenOut()
    ensures Lawful(NextToken)
    ensures Filter(NextToken, INITIAL, [0x1d]).detached && Filter(NextToken, INITIAL, [0x10, 0x11]).detached
  {
    BracketDetaches(Legacy, []);
    assert [0x1d] + [] == [0x1d];
    PrefixSuffixDetaches(Legacy, Legacy, []);
    assert [0x10] + ([0x11] + []) == [0x10, 0x11];
  }

  /** The key event of Ctrl-] written out: ESC [ 9 3 ; 5 u */
  lemma {:induction false} BracketWrittenOut()
    ensures Lawful(NextToken)
    ensures Filter(NextToken, INITIAL, [0x1b, 0x5b, 0x39, 0x33, 0x3b, 0x35, 0x75]).detached
  {
    NinetyThree();
    FiveIsCtrl([0x39, 0x33]);
    BracketDetaches(Kitty(CtrlFive([0x39, 0x33])), []);
    SevenBytes();
  }

  lemma {:induction false} NinetyThree()
    ensures Numeral([0x39, 0x33]) && Value([0x39, 0x33]) == 93
  {
    assert [0x39, 0x33][..1] == [0x39] && [0x39][..0] == [];
    assert Value([0x39]) == 9;
  }

  lemma {:induction false} SevenBytes()
    ensures ([0x1b, 0x5b] + [0x39, 0x33] + [0x3b, 0x35, 0x75]) + [] == [0x1b, 0x5b, 0x39, 0x33, 0x3b, 0x35, 0x75]
  {
  }

  /** Those of Ctrl-P and Ctrl-Q written out: ESC [ 1 1 2 ; 5 u ESC [ 1 1 3 ; 5 u */
  lemma {:induction false} PrefixSuffixWrittenOut()
    ensures Lawful(NextToken)
    ensures var p := [0x1b, 0x5b, 0x31, 0x31, 0x32, 0x3b, 0x35, 0x75];
      var q := [0x1b, 0x5b, 0x31, 0x31, 0x33, 0x3b, 0x35, 0x75];
      Filter(NextToken, INITIAL, p + (q + [])).detached
  {
    OneHundred(0x32);
    OneHundred(0x33);
    FiveIsCtrl([0x31, 0x31, 0x32]);
    FiveIsCtrl([0x31, 0x31, 0x33]);
    PrefixSuffixDetaches(Kitty(CtrlFive([0x31, 0x31, 0x32])), Kitty(CtrlFive([0x31, 0x31, 0x33])), []);
    EightBytes(0x32);
    EightBytes(0x33);
  }

  lemma {:induction false} EightBytes(d: byte)
    ensures [0x1b, 0x5b] + [0x31, 0x31, d] + [0x3b, 0x35, 0x75] == [0x1b, 0x5b, 0x31, 0x31, d, 0x3b, 0x35, 0x75]
  {
  }
}
