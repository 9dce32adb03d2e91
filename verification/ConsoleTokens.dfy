/** The lexer of the console input filter: legacy control bytes and Kitty CSI-u key
    events, recognised at the front of a byte stream that may still grow. */
module ConsoleTokens {
  import opened Basics
  import opened ByteStrings

  const ESC: byte := 0x1b
  const BRACKET: byte := 0x5b       // '['
  const FINAL: byte := 0x75         // 'u'
  const SEMICOLON: byte := 0x3b
  const DETACH_BYTE: byte := 0x1d   // Ctrl-]
  const DETACH_PREFIX: byte := 0x10 // Ctrl-P
  const DETACH_SUFFIX: byte := 0x11 // Ctrl-Q
  const KEY_BRACKET: byte := 0x5d   // ']'
  const KEY_P: byte := 0x70
  const KEY_Q: byte := 0x71
  const SEQUENCE_LIMIT: nat := 64

  // ---- CSI-u parsing ------------------------------------------------------

  predicate IsBody(b: byte) { IsDigit(b) || b == SEMICOLON || b == COLON }

  predicate AllBody(s: Bytes) { s == [] || (IsBody(s[0]) && AllBody(s[1..])) }

  /** Decimal text to a 64-bit integer; empty text, other bytes and overflow fail. No sign
      can occur among the bytes of a key event. */
  function Atoi(s: Bytes): Option<nat> {
    if s == [] || !AllDigits(s) || DigitsValue(0, s) > MAX_INT then None else Some(DigitsValue(0, s))
  }

  datatype Key = Key(code: byte, control: bool, release: bool)

  /** Bit 4 of one-plus-a-bitmask. */
  predicate ControlBit(modifiers: nat)
    requires modifiers >= 1
  {
    (modifiers - 1) / 4 % 2 == 1
  }

  /** The second field, modifiers[:event[:...]], of a key event for `code`. */
  function ParseModifiers(code: byte, field: Bytes): Option<Key> {
    var (modifiersField, eventFields) := Cut(field, COLON);
    var modifiers := Atoi(modifiersField);
    if modifiers.None? || modifiers.value < 1 then None
    else if eventFields.None? then Some(Key(code, ControlBit(modifiers.value), false))
    else
      var event := Atoi(Cut(eventFields.value, COLON).0);
      if event.None? || event.value < 1 || event.value > 3 then None
      else if event.value == 3 then Some(Key(code, false, true))
      else Some(Key(code, ControlBit(modifiers.value), false))
  }

  /** The fields between "ESC [" and "u": key[:...];modifiers[:event[:...]][;...] */
  function ParseBody(body: Bytes): Option<Key> {
    var (keyField, more) := Cut(body, SEMICOLON);
    if !AllBody(body) || more.None? then None
    else
      var keyCode := Atoi(Cut(keyField, COLON).0);
      if keyCode.None? || keyCode.value > 255 then None
      else ParseModifiers(keyCode.value as byte, Cut(more.value, SEMICOLON).0)
  }

  /** The bytes after "ESC [" that the parsers look at. */
  function Window(input: Bytes): Bytes
    requires |input| >= 2
  {
    if |input| > SEQUENCE_LIMIT then input[2..SEQUENCE_LIMIT] else input[2..]
  }

  /** A complete key event at the start of `input`, with the number of bytes it takes. */
  function ParseKittyKey(input: Bytes): (r: Option<(Key, nat)>)
    ensures r.Some? ==> 2 < r.value.1 <= |input|
  {
    if |input| < 6 || input[0] != ESC || input[1] != BRACKET then None
    else
      var end := IndexByte(Window(input), FINAL);
      if end < 0 then None
      else
        var key := ParseBody(Window(input)[..end]);
        if key.None? then None else Some((key.value, end + 3))
  }

  /** More bytes could still complete a key event. */
  predicate IncompleteKittyKey(input: Bytes)
    requires input != []
  {
    && input[0] == ESC
    && (|input| >= 2 ==> input[1] == BRACKET && AllBody(Window(input)))
    && |input| < SEQUENCE_LIMIT
  }

  // ---- Tokens -------------------------------------------------------------

  datatype Token = Token(raw: Bytes, key: byte, control: bool, release: bool)

  datatype Lexed = Incomplete | Decided(token: Token)

  /** The token at the front of `input`, if the bytes so far decide it. */
  function NextToken(input: Bytes): (r: Lexed)
    ensures r.Decided? ==> r.token.raw != [] && IsPrefix(r.token.raw, input)
    ensures r.Incomplete? ==> |input| < SEQUENCE_LIMIT
  {
    if input == [] then Incomplete
    else if input[0] == DETACH_BYTE then Decided(Token(input[..1], KEY_BRACKET, true, false))
    else if input[0] == DETACH_PREFIX then Decided(Token(input[..1], KEY_P, true, false))
    else if input[0] == DETACH_SUFFIX then Decided(Token(input[..1], KEY_Q, true, false))
    else
      var kitty := ParseKittyKey(input);
      if kitty.Some? then
        var (key, consumed) := kitty.value;
        Decided(Token(input[..consumed], key.code, key.control, key.release))
      else if IncompleteKittyKey(input) then Incomplete
      else Decided(Token(input[..1], 0, false, false))
  }

  // ---- A decision is final ------------------------------------------------

  lemma {:induction false} AllBodyAppend(s: Bytes, t: Bytes)
    ensures AllBody(s + t) <==> AllBody(s) && AllBody(t)
    decreases |s|
  {
    if s == [] {
      assert s + t == t;
    } else {
      assert (s + t)[1..] == s[1..] + t;
      AllBodyAppend(s[1..], t);
    }
  }

  lemma {:induction false} BodyHasNoFinal(s: Bytes)
    requires AllBody(s)
    ensures IndexByte(s, FINAL) < 0
    decreases |s|
  {
    if s != [] {
      BodyHasNoFinal(s[1..]);
    }
  }

  /** The window only grows by appending, and not at all once the limit is reached. */
  lemma {:induction false} WindowGrows(x: Bytes, y: Bytes) returns (more: Bytes)
    requires |x| >= 2
    ensures Window(x + y) == Window(x) + more
    ensures |x| >= SEQUENCE_LIMIT ==> more == []
  {
    if |x| > SEQUENCE_LIMIT {
      more := [];
      assert Window(x + y) == Window(x);
    } else if |x + y| > SEQUENCE_LIMIT {
      more := y[..SEQUENCE_LIMIT - |x|];
      assert Window(x + y) == x[2..] + more;
    } else {
      more := y;
      assert Window(x + y) == x[2..] + y;
    }
  }

  /** A key, a separator and a modifier: no key event is shorter than six bytes. */
  lemma {:induction false} BodyIsLong(body: Bytes)
    requires ParseBody(body).Some?
    ensures |body| >= 3
  {
  }

  lemma {:induction false} KittyStable(x: Bytes, y: Bytes)
    requires ParseKittyKey(x).Some?
    ensures ParseKittyKey(x + y) == ParseKittyKey(x)
  {
    var more := WindowGrows(x, y);
    IndexBytePrefix(Window(x), more, FINAL);
    var end := IndexByte(Window(x), FINAL);
    assert (Window(x) + more)[..end] == Window(x)[..end];
  }

  /** A window that no key event can start with never becomes one. */
  lemma {:induction false} WindowRejected(w: Bytes, more: Bytes)
    requires IndexByte(w, FINAL) >= 0 ==> ParseBody(w[..IndexByte(w, FINAL)]).None?
    requires !AllBody(w) || more == []
    ensures var end := IndexByte(w + more, FINAL); end >= 0 ==> ParseBody((w + more)[..end]).None?
  {
    IndexBytePrefix(w, more, FINAL);
    var end := IndexByte(w + more, FINAL);
    if more == [] {
      assert w + more == w;
    } else if IndexByte(w, FINAL) >= 0 {
      assert (w + more)[..end] == w[..end];
    } else if end >= 0 {
      assert (w + more)[..end] == w + more[..end - |w|];
      AllBodyAppend(w, more[..end - |w|]);
    }
  }

  lemma {:induction false} RejectionStable(x: Bytes, y: Bytes)
    requires x != [] && ParseKittyKey(x).None? && !IncompleteKittyKey(x)
    ensures ParseKittyKey(x + y).None? && !IncompleteKittyKey(x + y)
  {
    if x[0] == ESC && |x| >= 2 && x[1] == BRACKET {
      var more := WindowGrows(x, y);
      var w := Window(x);
      AllBodyAppend(w, more);
      var end := IndexByte(w, FINAL);
      if end >= 0 && |x| < 6 && ParseBody(w[..end]).Some? {
        BodyIsLong(w[..end]);
      }
      WindowRejected(w, more);
    }
  }

  /** A decided token stays decided, and stays the same, whatever bytes follow. */
  lemma {:induction false} DecidedStable(x: Bytes, y: Bytes)
    requires NextToken(x).Decided?
    ensures NextToken(x + y) == NextToken(x)
  {
    TakeAppend(x, y, 1);
    if ParseKittyKey(x).Some? {
      KittyStable(x, y);
      TakeAppend(x, y, ParseKittyKey(x).value.1);
    } else if !IncompleteKittyKey(x) {
      RejectionStable(x, y);
    }
  }

  // ---- What a stream filter needs of a lexer ------------------------------

  type Lexer = Bytes -> Lexed

  /** Tokens are non-empty, not both press and release, and taken from the front, and
      only short inputs are undecided. */
  ghost predicate Lawful(lex: Lexer) {
    && (forall s {:trigger lex(s)} :: lex(s).Decided? ==> lex(s).token.raw != [] && IsPrefix(lex(s).token.raw, s))
    && (forall s {:trigger lex(s)} :: lex(s).Decided? ==> !(lex(s).token.control && lex(s).token.release))
    && (forall s {:trigger lex(s)} :: lex(s).Incomplete? ==> |s| < SEQUENCE_LIMIT)
  }

  /** A decision is never revised by the bytes that follow. */
  ghost predicate Stable(lex: Lexer) {
    forall s, t {:trigger lex(s + t)} :: lex(s).Decided? ==> lex(s + t) == lex(s)
  }

  lemma {:induction false} NextTokenLawful()
    ensures Lawful(NextToken) && Stable(NextToken)
  {
    forall s, t | NextToken(s).Decided? ensures NextToken(s + t) == NextToken(s) {
      DecidedStable(s, t);
    }
  }

  // ---- Key events as terminals send them ----------------------------------

  lemma {:induction false} DigitsOnly(s: Bytes)
    requires AllDigits(s)
    ensures AllBody(s) && IndexByte(s, SEMICOLON) < 0 && IndexByte(s, COLON) < 0
    decreases |s|
  {
    if s != [] {
      DigitsOnly(s[1..]);
    }
  }

  /** "modifiers [: event]" */
  function ModifiersField(modifiers: nat, event: Option<nat>): Bytes {
    if event.Some? then Digits(modifiers) + [COLON] + Digits(event.value) else Digits(modifiers)
  }

  function EventBody(code: byte, modifiers: nat, event: Option<nat>): Bytes {
    Digits(code as nat) + [SEMICOLON] + ModifiersField(modifiers, event)
  }

  /** "ESC [ code ; modifiers [: event] u" */
  function KeyEvent(code: byte, modifiers: nat, event: Option<nat>): Bytes {
    [ESC, BRACKET] + EventBody(code, modifiers, event) + [FINAL]
  }

  lemma {:induction false} ModifiersParse(code: byte, modifiers: nat, event: Option<nat>)
    requires 1 <= modifiers <= MAX_INT
    requires event.Some? ==> 1 <= event.value <= 3
    ensures ParseModifiers(code, ModifiersField(modifiers, event))
      == Some(Key(code, event != Some(3) && ControlBit(modifiers), event == Some(3)))
  {
    DigitsParse(modifiers);
    DigitsOnly(Digits(modifiers));
    if event.Some? {
      CutAt(Digits(modifiers), COLON, Digits(event.value));
      DigitsParse(event.value);
      DigitsOnly(Digits(event.value));
    }
  }

  lemma {:induction false} ModifiersShape(modifiers: nat, event: Option<nat>)
    ensures AllBody(ModifiersField(modifiers, event)) && IndexByte(ModifiersField(modifiers, event), SEMICOLON) < 0
  {
    var m := Digits(modifiers);
    DigitsParse(modifiers);
    DigitsOnly(m);
    if event.Some? {
      var e := Digits(event.value);
      DigitsParse(event.value);
      DigitsOnly(e);
      AllBodyAppend([COLON], e);
      AllBodyAppend(m, [COLON] + e);
      assert m + [COLON] + e == m + ([COLON] + e);
      NoByteAppend([COLON], e, SEMICOLON);
      NoByteAppend(m, [COLON] + e, SEMICOLON);
    }
  }

  lemma {:induction false} TwoFieldsParse(k: Bytes, m: Bytes, code: byte)
    requires AllDigits(k) && Atoi(k) == Some(code as nat)
    requires AllBody(m) && IndexByte(m, SEMICOLON) < 0
    ensures AllBody(k + [SEMICOLON] + m)
    ensures ParseBody(k + [SEMICOLON] + m) == ParseModifiers(code, m)
  {
    DigitsOnly(k);
    CutAt(k, SEMICOLON, m);
    AllBodyAppend([SEMICOLON], m);
    AllBodyAppend(k, [SEMICOLON] + m);
    assert k + [SEMICOLON] + m == k + ([SEMICOLON] + m);
  }

  lemma {:induction false} EventBodyParses(code: byte, modifiers: nat, event: Option<nat>)
    requires 1 <= modifiers <= MAX_INT
    requires event.Some? ==> 1 <= event.value <= 3
    ensures AllBody(EventBody(code, modifiers, event))
    ensures ParseBody(EventBody(code, modifiers, event))
      == Some(Key(code, event != Some(3) && ControlBit(modifiers), event == Some(3)))
  {
    DigitsParse(code as nat);
    ModifiersShape(modifiers, event);
    TwoFieldsParse(Digits(code as nat), ModifiersField(modifiers, event), code);
    ModifiersParse(code, modifiers, event);
  }

  /** Any well-formed body between "ESC [" and "u" is one token with its key. */
  lemma {:induction false} ParsedBodyRecognised(body: Bytes, key: Key, rest: Bytes)
    requires AllBody(body) && ParseBody(body) == Some(key)
    requires |body| + 3 <= SEQUENCE_LIMIT
    ensures var event := [ESC, BRACKET] + body + [FINAL];
      NextToken(event + rest) == Decided(Token(event, key.code, key.control, key.release))
  {
    var event := [ESC, BRACKET] + body + [FINAL];
    EventParses(body, key);
    KittyStable(event, rest);
    KittyDecides(event + rest, key, |event|);
    TakeAppend(event, rest, |event|);
  }

  lemma {:induction false} KittyDecides(input: Bytes, key: Key, n: nat)
    requires ParseKittyKey(input) == Some((key, n))
    ensures NextToken(input) == Decided(Token(input[..n], key.code, key.control, key.release))
  {
  }

  lemma {:induction false} EventParses(body: Bytes, key: Key)
    requires AllBody(body) && ParseBody(body) == Some(key)
    requires |body| + 3 <= SEQUENCE_LIMIT
    ensures ParseKittyKey([ESC, BRACKET] + body + [FINAL]) == Some((key, |body| + 3))
  {
    var event := [ESC, BRACKET] + body + [FINAL];
    BodyIsLong(body);
    BodyHasNoFinal(body);
    IndexByteAt(body, FINAL, []);
    assert Window(event) == body + [FINAL] + [];
    assert Window(event)[..|body|] == body;
  }

  /** Every key event of at most 64 bytes is recognised as one token carrying its own
      key, control bit and release flag, whatever follows it. So Ctrl-], Ctrl-P and
      Ctrl-Q act alike whether they arrive as legacy bytes or as key events. */
  lemma {:induction false} KeyEventRecognised(code: byte, modifiers: nat, event: Option<nat>, rest: Bytes)
    requires 1 <= modifiers <= MAX_INT
    requires event.Some? ==> 1 <= event.value <= 3
    requires |KeyEvent(code, modifiers, event)| <= SEQUENCE_LIMIT
    ensures NextToken(KeyEvent(code, modifiers, event) + rest)
      == Decided(Token(KeyEvent(code, modifiers, event), code,
                       event != Some(3) && ControlBit(modifiers), event == Some(3)))
  {
    EventBodyParses(code, modifiers, event);
    var key := Key(code, event != Some(3) && ControlBit(modifiers), event == Some(3));
    ParsedBodyRecognised(EventBody(code, modifiers, event), key, rest);
  }
}
