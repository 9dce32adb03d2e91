/** Header framing of the MCP server on standard input and output: each message follows a
    block of header lines that gives its length in decimal. */
module McpFraming {
  import opened Basics
  import opened ByteStrings

  const LF: byte := 0x0a
  const CR: byte := 0x0d
  const SPACE: byte := 0x20
  const PLUS: byte := 0x2b
  const MINUS: byte := 0x2d

  /** "Content-Length" */
  const CONTENT_LENGTH: Bytes :=
    [0x43, 0x6f, 0x6e, 0x74, 0x65, 0x6e, 0x74, 0x2d, 0x4c, 0x65, 0x6e, 0x67, 0x74, 0x68]

  datatype Error = Eof | UnexpectedEof | InvalidHeader(line: Bytes) | InvalidLength(text: Bytes) | MissingLength

  datatype Result<T> = Ok(value: T) | Err(error: Error)

  // ---- Text ---------------------------------------------------------------

  /** The UTF-8 texts of one, two and three bytes that stand for a white-space character. */
  predicate Space1(a: byte) { 0x09 <= a <= 0x0d || a == SPACE }

  predicate Space2(a: byte, b: byte) { a == 0xc2 && (b == 0x85 || b == 0xa0) }

  predicate Space3(a: byte, b: byte, c: byte) {
    || (a == 0xe1 && b == 0x9a && c == 0x80)
    || (a == 0xe2 && b == 0x80 && (0x80 <= c <= 0x8a || c == 0xa8 || c == 0xa9 || c == 0xaf))
    || (a == 0xe2 && b == 0x81 && c == 0x9f)
    || (a == 0xe3 && b == 0x80 && c == 0x80)
  }

  /** How many bytes a white-space character at the front takes, or 0. */
  function FrontSpace(s: Bytes): (n: nat)
    ensures n <= |s|
  {
    if |s| >= 1 && Space1(s[0]) then 1
    else if |s| >= 2 && Space2(s[0], s[1]) then 2
    else if |s| >= 3 && Space3(s[0], s[1], s[2]) then 3
    else 0
  }

  /** The same at the back. */
  function BackSpace(s: Bytes): (n: nat)
    ensures n <= |s|
  {
    var k := |s|;
    if k >= 1 && Space1(s[k - 1]) then 1
    else if k >= 2 && Space2(s[k - 2], s[k - 1]) then 2
    else if k >= 3 && Space3(s[k - 3], s[k - 2], s[k - 1]) then 3
    else 0
  }

  function TrimLeft(s: Bytes): Bytes
    decreases |s|
  {
    if FrontSpace(s) > 0 then TrimLeft(s[FrontSpace(s)..]) else s
  }

  function TrimRight(s: Bytes): Bytes
    decreases |s|
  {
    if BackSpace(s) > 0 then TrimRight(s[..|s| - BackSpace(s)]) else s
  }

  /** Text that starts and ends in plain visible characters is left alone. */
  lemma {:induction false} TrimPlain(s: Bytes)
    requires s != [] && SPACE < s[0] < 0x80 && SPACE < s[|s| - 1] < 0x80
    ensures TrimLeft(s) == s && TrimRight(s) == s
  {
  }

  function TrimSpace(s: Bytes): Bytes { TrimRight(TrimLeft(s)) }

  /** Without the carriage returns and line feeds it ends in. */
  function TrimEol(s: Bytes): Bytes {
    if s != [] && (s[|s| - 1] == CR || s[|s| - 1] == LF) then TrimEol(s[..|s| - 1]) else s
  }

  function Lower(b: byte): byte { if 0x41 <= b <= 0x5a then b + 0x20 else b }

  predicate EqualFold(a: Bytes, b: Bytes) {
    |a| == |b| && forall i :: 0 <= i < |a| ==> Lower(a[i]) == Lower(b[i])
  }

  /** Optionally signed decimal text to a 64-bit integer. */
  function Atoi(s: Bytes): Option<int> {
    var digits := if s != [] && (s[0] == PLUS || s[0] == MINUS) then s[1..] else s;
    if digits == [] || !AllDigits(digits) then None
    else
      var v: int := DigitsValue(0, digits);
      var n := if s[0] == MINUS then -v else v;
      if -MAX_INT - 1 <= n <= MAX_INT then Some(n) else None
  }

  // ---- Reading one message ------------------------------------------------

  /** What one header line makes of the content length. */
  function HeaderLine(line: Bytes, length: nat): Result<nat> {
    var (name, value) := Cut(line, COLON);
    if value.None? then Err(InvalidHeader(line))
    else if EqualFold(TrimSpace(name), CONTENT_LENGTH) then
      var text := TrimSpace(value.value);
      match Atoi(text)
      case Some(n) => if n < 0 then Err(InvalidLength(text)) else Ok(n)
      case None => Err(InvalidLength(text))
    else Ok(length)
  }

  /** The content length after the header block, and the bytes that follow it. */
  function ReadHeaders(input: Bytes, length: nat): (r: (Result<nat>, Bytes))
    ensures |r.1| <= |input| && input[|input| - |r.1|..] == r.1
    decreases |input|
  {
    var end := IndexByte(input, LF);
    if end < 0 then assert input[|input|..] == []; (Err(Eof), [])
    else
      var line, rest := TrimEol(input[..end]), input[end + 1..];
      if line == [] then (Ok(length), rest)
      else
        match HeaderLine(line, length)
        case Err(e) => (Err(e), rest)
        case Ok(n) =>
          var r := ReadHeaders(rest, n);
          assert rest[|rest| - |r.1|..] == input[|input| - |r.1|..];
          r
  }

  function ReadBody(input: Bytes, length: nat): (Result<Bytes>, Bytes) {
    if length <= |input| then (Ok(input[..length]), input[length..])
    else (Err(if input == [] then Eof else UnexpectedEof), [])
  }

  /** The next message, and the bytes that follow it. */
  function ReadFrame(input: Bytes): (r: (Result<Bytes>, Bytes))
    ensures |r.1| <= |input| && (r.0.Ok? ==> |r.1| < |input|)
  {
    var (length, rest) := ReadHeaders(input, 0);
    match length
    case Err(e) => (Err(e), rest)
    case Ok(n) => if n == 0 then (Err(MissingLength), rest) else ReadBody(rest, n)
  }

  // ---- Writing one message ------------------------------------------------

  function Header(n: nat): Bytes { CONTENT_LENGTH + [COLON] + ([SPACE] + Digits(n)) }

  function Frame(message: Bytes): Bytes { Line(Header(|message|)) + (Line([]) + message) }

  function Line(text: Bytes): Bytes { text + [CR] + [LF] }

  // ---- The header that is written is read back ----------------------------

  lemma {:induction false} NoByte(s: Bytes, b: byte)
    requires b !in s
    ensures IndexByte(s, b) < 0
    decreases |s|
  {
    if s != [] {
      NoByte(s[1..], b);
    }
  }

  lemma {:induction false} TrimDigits(n: nat)
    ensures TrimSpace([SPACE] + Digits(n)) == Digits(n)
  {
    DigitsParse(n);
    DigitsAreNumeral(Digits(n));
    assert ([SPACE] + Digits(n))[1..] == Digits(n);
    TrimPlain(Digits(n));
    assert FrontSpace([SPACE] + Digits(n)) == 1;
  }

  lemma {:induction false} DigitsAtoi(n: nat)
    ensures Atoi(Digits(n)) == if n <= MAX_INT then Some(n) else None
  {
    DigitsParse(n);
    DigitsAreNumeral(Digits(n));
  }

  lemma {:induction false} HeaderLineReads(name: Bytes, n: nat, length: nat)
    requires IndexByte(name, COLON) < 0 && EqualFold(TrimSpace(name), CONTENT_LENGTH)
    ensures HeaderLine(name + [COLON] + ([SPACE] + Digits(n)), length)
      == if n <= MAX_INT then Ok(n) else Err(InvalidLength(Digits(n)))
  {
    CutAt(name, COLON, [SPACE] + Digits(n));
    TrimDigits(n);
    DigitsAtoi(n);
  }

  lemma {:induction false} ContentLengthBytes(b: byte)
    requires b == COLON || b == LF
    ensures IndexByte(CONTENT_LENGTH, b) < 0
  {
    NoByte(CONTENT_LENGTH, b);
  }

  lemma {:induction false} ContentLengthTrimmed()
    ensures TrimSpace(CONTENT_LENGTH) == CONTENT_LENGTH
  {
    assert CONTENT_LENGTH[0] == 0x43 && CONTENT_LENGTH[13] == 0x68;
    TrimPlain(CONTENT_LENGTH);
  }

  // ---- A block of header lines --------------------------------------------

  /** A line that the reader gets back without its end: no line feed in it, and no carriage
      return at its end. */
  predicate Plain(line: Bytes) {
    IndexByte(line, LF) < 0 && (line != [] ==> line[|line| - 1] != CR && line[|line| - 1] != LF)
  }

  lemma {:induction false} LineSplits(line: Bytes, rest: Bytes)
    requires Plain(line)
    ensures var input := Line(line) + rest;
      IndexByte(input, LF) == |line| + 1 && TrimEol(input[..|line| + 1]) == line && input[|line| + 2..] == rest
  {
    var input := Line(line) + rest;
    assert IndexByte([CR], LF) < 0 by { NoByte([CR], LF); }
    NoByteAppend(line, [CR], LF);
    IndexByteAt(line + [CR], LF, rest);
    assert input[..|line| + 1] == line + [CR];
    assert (line + [CR])[..|line|] == line;
    assert TrimEol(line) == line;
  }

  lemma {:induction false} ReadLine(line: Bytes, rest: Bytes, length: nat)
    requires Plain(line)
    ensures line == [] ==> ReadHeaders(Line(line) + rest, length) == (Ok(length), rest)
    ensures line != [] && HeaderLine(line, length).Err? ==>
      ReadHeaders(Line(line) + rest, length) == (Err(HeaderLine(line, length).error), rest)
    ensures line != [] && HeaderLine(line, length).Ok? ==>
      ReadHeaders(Line(line) + rest, length) == ReadHeaders(rest, HeaderLine(line, length).value)
  {
    LineSplits(line, rest);
  }

  lemma {:induction false} HeaderHasNoLf(n: nat)
    ensures IndexByte(Header(n), LF) < 0
  {
    DigitsParse(n);
    DigitsAreNumeral(Digits(n));
    ContentLengthBytes(LF);
    NoByte([COLON], LF);
    NoByte([SPACE] + Digits(n), LF);
    NoByteAppend(CONTENT_LENGTH, [COLON], LF);
    NoByteAppend(CONTENT_LENGTH + [COLON], [SPACE] + Digits(n), LF);
  }

  lemma {:induction false} HeaderPlain(n: nat)
    ensures Plain(Header(n)) && Header(n) != []
  {
    HeaderHasNoLf(n);
    DigitsParse(n);
    DigitsAreNumeral(Digits(n));
    var digits := Digits(n);
    assert Header(n)[|Header(n)| - 1] == digits[|digits| - 1];
  }

  // ---- Round trips --------------------------------------------------------

  /** Lengths the header can carry: a zero reads as missing, and past a 64-bit integer the
      text does not parse. */
  predicate Sendable(message: Bytes) { 0 < |message| <= MAX_INT }

  /** A written message is read back, whatever follows it, exactly when it is sendable. */
  lemma {:induction false} FrameReadsBack(message: Bytes, rest: Bytes)
    ensures Sendable(message) ==> ReadFrame(Frame(message) + rest) == (Ok(message), rest)
    ensures message == [] ==> ReadFrame(Frame(message) + rest) == (Err(MissingLength), rest)
    ensures !Sendable(message) ==> ReadFrame(Frame(message) + rest).0.Err?
  {
    var n := |message|;
    var after := message + rest;
    FrameAppend(message, rest);
    HeaderPlain(n);
    ReadLine(Header(n), Line([]) + after, 0);
    ContentLengthBytes(COLON);
    ContentLengthTrimmed();
    HeaderLineReads(CONTENT_LENGTH, n, 0);
    ReadLine([], after, n);
    assert after[..n] == message && after[n..] == rest;
  }

  lemma {:induction false} FrameAppend(message: Bytes, rest: Bytes)
    ensures Frame(message) + rest == Line(Header(|message|)) + (Line([]) + (message + rest))
  {
    var first, blank := Line(Header(|message|)), Line([]);
    Assoc(first, blank + message, rest);
    Assoc(blank, message, rest);
  }

  function Frames(messages: seq<Bytes>): Bytes {
    if messages == [] then [] else Frame(messages[0]) + Frames(messages[1..])
  }

  /** Reading until something other than a message comes: the messages, what stopped the
      reading, and the bytes left. */
  function ReadAll(input: Bytes): (seq<Bytes>, Error, Bytes)
    decreases |input|
  {
    if input == [] then ([], Eof, [])
    else
      var (r, rest) := ReadFrame(input);
      match r
      case Err(e) => ([], e, rest)
      case Ok(m) => var (more, e, left) := ReadAll(rest); ([m] + more, e, left)
  }

  ghost predicate AllSendable(messages: seq<Bytes>) {
    forall i :: 0 <= i < |messages| ==> Sendable(messages[i])
  }

  /** Any list of messages is read back as it was written, to the end of the input and with
      nothing left over, exactly when every message is sendable. */
  lemma {:induction false} FramesReadBack(messages: seq<Bytes>)
    ensures ReadAll(Frames(messages)) == (messages, Eof, []) <==> AllSendable(messages)
    decreases |messages|
  {
    if messages != [] {
      var m, more := messages[0], messages[1..];
      FrameReadsBack(m, Frames(more));
      HeaderPlain(|m|);
      assert messages == [m] + more;
      if Sendable(m) {
        FramesReadBack(more);
        assert AllSendable(messages) <==> AllSendable(more);
        assert ([m] + ReadAll(Frames(more)).0)[1..] == ReadAll(Frames(more)).0;
      }
    }
  }

  // ---- Bytes that arrive later --------------------------------------------

  lemma {:induction false} LineStays(input: Bytes, more: Bytes, end: nat)
    requires end < |input|
    ensures (input + more)[..end] == input[..end] && (input + more)[end + 1..] == input[end + 1..] + more
  {
  }

  lemma {:induction false} HeadersStable(input: Bytes, more: Bytes, length: nat)
    requires ReadHeaders(input, length).0.Ok?
    ensures ReadHeaders(input + more, length) == (ReadHeaders(input, length).0, ReadHeaders(input, length).1 + more)
    decreases |input|
  {
    var end := IndexByte(input, LF);
    IndexBytePrefix(input, more, LF);
    var line, rest := TrimEol(input[..end]), input[end + 1..];
    LineStays(input, more, end);
    if line != [] {
      HeadersStable(rest, more, HeaderLine(line, length).value);
    }
  }

  lemma {:induction false} BodyStable(input: Bytes, more: Bytes, length: nat)
    requires length <= |input|
    ensures ReadBody(input + more, length) == (ReadBody(input, length).0, ReadBody(input, length).1 + more)
  {
    assert (input + more)[..length] == input[..length];
    assert (input + more)[length..] == input[length..] + more;
  }

  /** A message that has been read stays the same however the input continues, so reading
      can wait for exactly the bytes it needs. */
  lemma {:induction false} FrameStable(input: Bytes, more: Bytes)
    requires ReadFrame(input).0.Ok?
    ensures ReadFrame(input + more) == (ReadFrame(input).0, ReadFrame(input).1 + more)
  {
    var (length, rest) := ReadHeaders(input, 0);
    HeadersStable(input, more, 0);
    BodyStable(rest, more, length.value);
  }
}
