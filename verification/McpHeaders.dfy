/** Header blocks as clients may send them: any headers in any order, the length among them in
    any letter case, padded, and lines that end with or without a carriage return. */
module McpHeaders {
  import opened Basics
  import opened ByteStrings
  import opened McpFraming

  // ---- Lines --------------------------------------------------------------

  /** "content-length" in lower case. */
  const NAME: Bytes := [0x63, 0x6f, 0x6e, 0x74, 0x65, 0x6e, 0x74, 0x2d, 0x6c, 0x65, 0x6e, 0x67, 0x74, 0x68]

  /** The letter itself or its capital; a hyphen only as itself. */
  predicate SameLetter(a: byte, lower: byte) {
    a == lower || (0x61 <= lower <= 0x7a && a == lower - 0x20)
  }

  /** The header's name in some letter case, byte by byte. */
  predicate Spells(w: Bytes) {
    |w| == 14 && forall i :: 0 <= i < 14 ==> SameLetter(w[i], NAME[i])
  }

  /** Spaces and tabs. */
  predicate Blank(s: Bytes) { forall i :: 0 <= i < |s| ==> s[i] == 0x20 || s[i] == 0x09 }

  /** A header line: the length, with blanks around its name and its value, or another header. */
  datatype Header =
    | Length(before: Bytes, word: Bytes, after: Bytes, lead: Bytes, digits: Bytes, trail: Bytes)
    | Other(name: Bytes, value: Bytes)

  predicate NoLf(s: Bytes) { forall i :: 0 <= i < |s| ==> s[i] != 0x0a }

  ghost predicate Good(h: Header) {
    match h
    case Length(before, word, after, lead, digits, trail) =>
      && Blank(before) && Spells(word) && Blank(after) && Blank(lead) && Blank(trail)
      && Numeral(digits) && Value(digits) <= 0x7fff_ffff_ffff_ffff
    case Other(name, value) =>
      && NoLf(name) && NoLf(value) && 0x3a !in name && !Spells(TrimSpace(name))
      && (value != [] ==> value[|value| - 1] != 0x0d)
  }

  function NameText(h: Header): Bytes { if h.Length? then h.before + h.word + h.after else h.name }

  function ValueText(h: Header): Bytes { if h.Length? then h.lead + h.digits + h.trail else h.value }

  function Text(h: Header): Bytes { NameText(h) + [0x3a] + ValueText(h) }

  // ---- Trimming -----------------------------------------------------------

  lemma {:induction false} TrimFront(p: Bytes, t: Bytes)
    requires Blank(p) && t != [] && 0x20 < t[0] < 0x80
    ensures TrimLeft(p + t) == t
    decreases |p|
  {
    if p == [] {
      assert p + t == t;
    } else {
      assert (p + t)[0] == p[0] && FrontSpace(p + t) == 1 && (p + t)[1..] == p[1..] + t;
      TrimFront(p[1..], t);
    }
  }

  lemma {:induction false} TrimBack(t: Bytes, q: Bytes)
    requires Blank(q) && t != [] && 0x20 < t[|t| - 1] < 0x80
    ensures TrimRight(t + q) == t
    decreases |q|
  {
    if q == [] {
      assert t + q == t;
    } else {
      var n := |q| - 1;
      assert (t + q)[|t| + n] == q[n] && BackSpace(t + q) == 1 && (t + q)[..|t| + n] == t + q[..n];
      TrimBack(t, q[..n]);
    }
  }

  lemma {:induction false} TrimPadded(p: Bytes, t: Bytes, q: Bytes)
    requires Blank(p) && Blank(q) && t != [] && 0x20 < t[0] < 0x80 && 0x20 < t[|t| - 1] < 0x80
    ensures TrimSpace(p + t + q) == t
  {
    Assoc(p, t, q);
    TrimFront(p, t + q);
    TrimBack(t, q);
  }

  // ---- One line -----------------------------------------------------------

  lemma {:induction false} NameBytes()
    ensures forall i :: 0 <= i < 14 ==>
      Lower(CONTENT_LENGTH[i]) == NAME[i] && Lower(NAME[i]) == NAME[i] && 0x20 < NAME[i] < 0x80
  {
  }

  lemma {:induction false} FoldIff(w: Bytes)
    ensures EqualFold(w, CONTENT_LENGTH) <==> Spells(w)
  {
    NameBytes();
    if |w| == 14 {
      forall i | 0 <= i < 14 ensures Lower(w[i]) == Lower(CONTENT_LENGTH[i]) <==> SameLetter(w[i], NAME[i]) {
      }
    }
  }

  lemma {:induction false} SpelledWord(w: Bytes)
    requires Spells(w)
    ensures w != [] && (forall i :: 0 <= i < |w| ==> 0x20 < w[i] < 0x80 && w[i] != 0x3a)
  {
    NameBytes();
    forall i | 0 <= i < 14 ensures 0x20 < w[i] < 0x80 && w[i] != 0x3a {
      assert SameLetter(w[i], NAME[i]);
      assert NAME[i] != 0x3a;
    }
  }

  lemma {:induction false} LengthName(h: Header)
    requires Good(h) && h.Length?
    ensures TrimSpace(NameText(h)) == h.word && 0x3a !in NameText(h)
  {
    SpelledWord(h.word);
    TrimPadded(h.before, h.word, h.after);
    var name := NameText(h);
    forall i | 0 <= i < |name| ensures name[i] != 0x3a {
      if |h.before| <= i < |h.before| + |h.word| {
        assert name[i] == h.word[i - |h.before|];
      }
    }
  }

  lemma {:induction false} LengthValue(h: Header)
    requires Good(h) && h.Length?
    ensures TrimSpace(ValueText(h)) == h.digits && Atoi(h.digits) == Some(Value(h.digits))
  {
    TrimPadded(h.lead, h.digits, h.trail);
    NumeralParses(h.digits);
  }

  /** A length line sets the length to its number, and any other line leaves it alone. */
  lemma {:induction false} HeaderReads(h: Header, length: nat)
    requires Good(h)
    ensures HeaderLine(Text(h), length) == Ok(if h.Length? then Value(h.digits) else length)
  {
    if h.Length? {
      LengthName(h);
      LengthValue(h);
    }
    NoByte(NameText(h), COLON);
    CutAt(NameText(h), COLON, ValueText(h));
    FoldIff(TrimSpace(NameText(h)));
  }

  lemma {:induction false} PartsHaveNoLf(h: Header)
    requires Good(h)
    ensures NoLf(NameText(h)) && NoLf(ValueText(h))
    ensures ValueText(h) != [] ==> ValueText(h)[|ValueText(h)| - 1] != 0x0d
  {
    if h.Length? {
      SpelledWord(h.word);
      var name, value := NameText(h), ValueText(h);
      forall i | 0 <= i < |name| ensures name[i] != 0x0a {
        if |h.before| <= i < |h.before| + |h.word| {
          assert name[i] == h.word[i - |h.before|];
        }
      }
      forall i | 0 <= i < |value| ensures value[i] != 0x0a && value[i] != 0x0d {
        if |h.lead| <= i < |h.lead| + |h.digits| {
          assert value[i] == h.digits[i - |h.lead|];
        }
      }
    }
  }

  lemma {:induction false} TextPlain(h: Header)
    requires Good(h)
    ensures Plain(Text(h)) && Text(h) != []
  {
    PartsHaveNoLf(h);
    NoByte(Text(h), LF);
    var text, value := Text(h), ValueText(h);
    assert value != [] ==> text[|text| - 1] == value[|value| - 1];
  }

  // ---- Blocks -------------------------------------------------------------

  /** A line and its end, with or without a carriage return. */
  function Ended(text: Bytes, cr: bool): Bytes { text + (if cr then [0x0d] else []) + [0x0a] }

  /** Reading one line of the block, however it ends. */
  lemma {:induction false} EndedReads(text: Bytes, cr: bool, rest: Bytes, length: nat)
    requires Plain(text)
    ensures text == [] ==> ReadHeaders(Ended(text, cr) + rest, length) == (Ok(length), rest)
    ensures text != [] && HeaderLine(text, length).Ok? ==>
      ReadHeaders(Ended(text, cr) + rest, length) == ReadHeaders(rest, HeaderLine(text, length).value)
    ensures text != [] && HeaderLine(text, length).Err? ==>
      ReadHeaders(Ended(text, cr) + rest, length) == (Err(HeaderLine(text, length).error), rest)
  {
    if cr {
      ReadLine(text, rest, length);
    } else {
      var input := text + [LF] + rest;
      assert Ended(text, cr) + rest == input;
      IndexByteAt(text, LF, rest);
      assert input[..|text|] == text && input[|text| + 1..] == rest && TrimEol(text) == text;
    }
  }

  /** Header lines, each with its own ending. */
  function Lines(headers: seq<Header>, ends: seq<bool>): Bytes
    requires |ends| == |headers|
  {
    if headers == [] then [] else Ended(Text(headers[0]), ends[0]) + Lines(headers[1..], ends[1..])
  }

  /** The lines of a block, and the blank line. */
  function Block(headers: seq<Header>, ends: seq<bool>, blank: bool): Bytes
    requires |ends| == |headers|
  {
    Lines(headers, ends) + Ended([], blank)
  }

  ghost predicate AllGood(headers: seq<Header>) { forall i :: 0 <= i < |headers| ==> Good(headers[i]) }

  /** The number of the last length line, or `start` if there is none. */
  ghost function LastLength(headers: seq<Header>, start: nat): nat
    requires AllGood(headers)
  {
    if headers == [] then start
    else
      var last := headers[|headers| - 1];
      assert Good(last);
      if last.Length? then Value(last.digits) else LastLength(headers[..|headers| - 1], start)
  }

  ghost function SetBy(h: Header, length: nat): nat
    requires Good(h)
  {
    if h.Length? then Value(h.digits) else length
  }

  lemma {:induction false} OneHeader(h: Header, cr: bool, rest: Bytes, length: nat)
    requires Good(h)
    ensures ReadHeaders(Ended(Text(h), cr) + rest, length) == ReadHeaders(rest, SetBy(h, length))
  {
    TextPlain(h);
    HeaderReads(h, length);
    EndedReads(Text(h), cr, rest, length);
  }

  lemma {:induction false} LastLengthFront(headers: seq<Header>, start: nat)
    requires AllGood(headers) && headers != [] && Good(headers[0])
    ensures LastLength(headers, start)
      == LastLength(headers[1..], SetBy(headers[0], start))
    decreases |headers|
  {
    if |headers| > 1 {
      var n := |headers| - 1;
      assert headers[1..][..n - 1] == headers[..n][1..];
      LastLengthFront(headers[..n], start);
    } else {
      assert headers[1..] == [] && headers[..0] == [];
    }
  }

  lemma {:induction false} HeadersThen(headers: seq<Header>, ends: seq<bool>, tail: Bytes, start: nat)
    requires AllGood(headers) && |ends| == |headers|
    ensures ReadHeaders(Lines(headers, ends) + tail, start) == ReadHeaders(tail, LastLength(headers, start))
    decreases |headers|
  {
    if headers == [] {
      assert [] + tail == tail;
    } else {
      var h, more := headers[0], Lines(headers[1..], ends[1..]);
      assert Good(h);
      Assoc(Ended(Text(h), ends[0]), more, tail);
      OneHeader(h, ends[0], more + tail, start);
      HeadersThen(headers[1..], ends[1..], tail, SetBy(h, start));
      LastLengthFront(headers, start);
    }
  }

  /** Any block of headers: the last length line, wherever it stands and however it is written,
      says how many of the bytes after the blank line are the message. Without one, or with a
      zero, the message is refused, and too few bytes are an error. */
  lemma {:induction false} BlockReads(headers: seq<Header>, ends: seq<bool>, blank: bool, after: Bytes)
    requires AllGood(headers) && |ends| == |headers|
    ensures var n := LastLength(headers, 0); var r := ReadFrame(Block(headers, ends, blank) + after);
      && (n == 0 ==> r == (Err(MissingLength), after))
      && (0 < n <= |after| ==> r == (Ok(after[..n]), after[n..]))
      && (n > |after| ==> r == (Err(if after == [] then Eof else UnexpectedEof), []))
  {
    Assoc(Lines(headers, ends), Ended([], blank), after);
    HeadersThen(headers, ends, Ended([], blank) + after, 0);
    EndedReads([], blank, after, LastLength(headers, 0));
  }

  lemma {:induction false} OnlyLength(headers: seq<Header>, k: nat)
    requires AllGood(headers) && k < |headers| && headers[k].Length? && Good(headers[k])
    requires forall i :: 0 <= i < |headers| && i != k ==> headers[i].Other?
    ensures LastLength(headers, 0) == Value(headers[k].digits)
    decreases |headers|
  {
    if k < |headers| - 1 {
      OnlyLength(headers[..|headers| - 1], k);
    }
  }

  /** One length line anywhere among other headers: exactly that many bytes are the message, and
      what follows them is left. */
  lemma {:induction false} LengthAnywhere(
      headers: seq<Header>, k: nat, ends: seq<bool>, blank: bool, message: Bytes, rest: Bytes)
    requires AllGood(headers) && |ends| == |headers| && message != []
    requires k < |headers| && headers[k].Length? && Good(headers[k]) && Value(headers[k].digits) == |message|
    requires forall i :: 0 <= i < |headers| && i != k ==> headers[i].Other?
    ensures ReadFrame(Block(headers, ends, blank) + (message + rest)) == (Ok(message), rest)
  {
    OnlyLength(headers, k);
    BlockReads(headers, ends, blank, message + rest);
    assert (message + rest)[..|message|] == message && (message + rest)[|message|..] == rest;
  }

  // ---- Refused blocks -----------------------------------------------------

  /** After any good headers, a line without a colon is refused, and so is a length that is
      negative; the error names the text, and reading goes no further than that line. */
  lemma {:induction false} BadLineRefused(headers: seq<Header>, ends: seq<bool>, bad: Bytes, cr: bool, rest: Bytes)
    requires AllGood(headers) && |ends| == |headers|
    requires bad != [] && NoLf(bad) && bad[|bad| - 1] != 0x0d && 0x3a !in bad
    ensures ReadFrame(Lines(headers, ends) + (Ended(bad, cr) + rest)) == (Err(InvalidHeader(bad)), rest)
  {
    HeadersThen(headers, ends, Ended(bad, cr) + rest, 0);
    NoByte(bad, LF);
    NoByte(bad, COLON);
    EndedReads(bad, cr, rest, LastLength(headers, 0));
  }

  lemma {:induction false} NegativeRefused(
      headers: seq<Header>, ends: seq<bool>, word: Bytes, digits: Bytes, cr: bool, rest: Bytes)
    requires AllGood(headers) && |ends| == |headers| && Spells(word) && Numeral(digits) && Value(digits) > 0
    ensures ReadFrame(Lines(headers, ends) + (Ended(word + [0x3a] + ([0x2d] + digits), cr) + rest))
      == (Err(InvalidLength([0x2d] + digits)), rest)
  {
    var bad := word + [0x3a] + ([0x2d] + digits);
    HeadersThen(headers, ends, Ended(bad, cr) + rest, 0);
    NegativeLine(word, digits, LastLength(headers, 0));
    NegativePlain(word, digits);
    EndedReads(bad, cr, rest, LastLength(headers, 0));
  }

  lemma {:induction false} NegativePlain(word: Bytes, digits: Bytes)
    requires Spells(word) && Numeral(digits)
    ensures Plain(word + [0x3a] + ([0x2d] + digits))
  {
    var bad := word + [0x3a] + ([0x2d] + digits);
    SpelledWord(word);
    NoByte(bad, LF);
    assert bad[|bad| - 1] == digits[|digits| - 1];
  }

  lemma {:induction false} NegativeLine(word: Bytes, digits: Bytes, length: nat)
    requires Spells(word) && Numeral(digits) && Value(digits) > 0
    ensures HeaderLine(word + [0x3a] + ([0x2d] + digits), length) == Err(InvalidLength([0x2d] + digits))
  {
    var value := [0x2d] + digits;
    SpelledWord(word);
    NoByte(word, COLON);
    CutAt(word, COLON, value);
    TrimPadded([], word, []);
    assert [] + word + [] == word;
    FoldIff(word);
    assert value[|value| - 1] == digits[|digits| - 1];
    TrimPadded([], value, []);
    assert [] + value + [] == value && value[1..] == digits;
    NumeralParses(digits);
  }

  // ---- Written out --------------------------------------------------------

  /** What is written for "hello": `Content-Length: 5`, a blank line, and the text. */
  lemma {:induction false} HelloWritten()
    ensures Frame([0x68, 0x65, 0x6c, 0x6c, 0x6f])
      == [0x43, 0x6f, 0x6e, 0x74, 0x65, 0x6e, 0x74, 0x2d, 0x4c, 0x65, 0x6e, 0x67, 0x74, 0x68, 0x3a, 0x20, 0x35]
         + [0x0d, 0x0a, 0x0d, 0x0a] + [0x68, 0x65, 0x6c, 0x6c, 0x6f]
  {
    assert Digits(5) == [0x35];
  }
}
